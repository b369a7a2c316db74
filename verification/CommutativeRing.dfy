/** Commutative rings, and the transfer principle for polynomial identities: two polynomial expressions
    that agree on all positive integers agree in every commutative ring. */
module CommutativeRing {

  datatype Ring<!T> = Ring(zero: T, one: T, add: (T, T) -> T, neg: T -> T, mul: (T, T) -> T) {
    function sub(x: T, y: T): T { add(x, neg(y)) }
    function sq(x: T): T { mul(x, x) }
    function dbl(x: T): T { add(x, x) }
  }

  ghost predicate SumLaws<T>(r: Ring<T>, x: T, y: T, z: T) {
    && r.add(r.add(x, y), z) == r.add(x, r.add(y, z))
    && r.add(x, y) == r.add(y, x)
    && r.add(x, r.zero) == x
    && r.add(x, r.neg(x)) == r.zero
  }

  ghost predicate ProductLaws<T>(r: Ring<T>, x: T, y: T, z: T) {
    && r.mul(r.mul(x, y), z) == r.mul(x, r.mul(y, z))
    && r.mul(x, y) == r.mul(y, x)
    && r.mul(x, r.one) == x
    && r.mul(r.add(x, y), z) == r.add(r.mul(x, z), r.mul(y, z))
  }

  ghost predicate LawsAt<T>(r: Ring<T>, x: T, y: T, z: T) {
    SumLaws(r, x, y, z) && ProductLaws(r, x, y, z)
  }

  ghost predicate IsRing<T(!new)>(r: Ring<T>) {
    forall x, y, z :: LawsAt(r, x, y, z)
  }

  lemma Laws<T(!new)>(r: Ring<T>, x: T, y: T, z: T)
    requires IsRing(r)
    ensures r.add(r.add(x, y), z) == r.add(x, r.add(y, z))
    ensures r.add(x, y) == r.add(y, x)
    ensures r.add(x, r.zero) == x && r.add(r.zero, x) == x
    ensures r.add(x, r.neg(x)) == r.zero
    ensures r.mul(r.mul(x, y), z) == r.mul(x, r.mul(y, z))
    ensures r.mul(x, y) == r.mul(y, x)
    ensures r.mul(x, r.one) == x
    ensures r.mul(r.add(x, y), z) == r.add(r.mul(x, z), r.mul(y, z))
  {
    assert LawsAt(r, x, y, z) && LawsAt(r, x, r.zero, x);
  }

  lemma Cancel<T(!new)>(r: Ring<T>, x: T, y: T, z: T)
    requires IsRing(r) && r.add(x, z) == r.add(y, z)
    ensures x == y
  {
    Laws(r, x, z, r.neg(z));
    Laws(r, y, z, r.neg(z));
    Laws(r, z, z, z);
    Laws(r, x, x, x);
    Laws(r, y, y, y);
  }

  lemma MulZero<T(!new)>(r: Ring<T>, x: T)
    requires IsRing(r)
    ensures r.mul(r.zero, x) == r.zero
  {
    Laws(r, r.zero, r.zero, x);
    Laws(r, r.mul(r.zero, x), r.zero, r.zero);
    Cancel(r, r.mul(r.zero, x), r.zero, r.mul(r.zero, x));
  }

  lemma MulNeg<T(!new)>(r: Ring<T>, x: T, y: T)
    requires IsRing(r)
    ensures r.mul(r.neg(x), y) == r.neg(r.mul(x, y))
  {
    var p := r.mul(x, y);
    Laws(r, x, r.neg(x), y);
    Laws(r, r.neg(x), x, y);
    MulZero(r, y);
    Laws(r, p, p, p);
    Laws(r, r.neg(p), p, p);
    Cancel(r, r.mul(r.neg(x), y), r.neg(p), p);
  }

  lemma NegAdd<T(!new)>(r: Ring<T>, x: T, y: T)
    requires IsRing(r)
    ensures r.neg(r.add(x, y)) == r.add(r.neg(x), r.neg(y))
  {
    var s, m, n := r.add(x, y), r.neg(x), r.neg(y);
    Interchange(r, m, n, x, y);
    Laws(r, x, m, m);
    Laws(r, y, n, n);
    Laws(r, m, x, x);
    Laws(r, n, y, y);
    Laws(r, r.zero, r.zero, r.zero);
    Laws(r, s, r.neg(s), s);
    Laws(r, r.neg(s), s, s);
    Cancel(r, r.neg(s), r.add(m, n), s);
  }

  lemma NegZero<T(!new)>(r: Ring<T>)
    requires IsRing(r)
    ensures r.neg(r.zero) == r.zero
  {
    Laws(r, r.zero, r.zero, r.zero);
    Laws(r, r.neg(r.zero), r.zero, r.zero);
  }

  lemma Interchange<T(!new)>(r: Ring<T>, a: T, b: T, c: T, d: T)
    requires IsRing(r)
    ensures r.add(r.add(a, b), r.add(c, d)) == r.add(r.add(a, c), r.add(b, d))
  {
    Laws(r, a, b, r.add(c, d));
    Laws(r, b, c, d);
    Laws(r, c, b, d);
    Laws(r, a, c, r.add(b, d));
  }

  // ---------------------------------------------------------------- integers in a ring

  ghost function Int<T>(r: Ring<T>, k: int): T
    decreases k < 0, if k < 0 then -k else k
  {
    if k == 0 then r.zero else if k > 0 then r.add(Int(r, k - 1), r.one) else r.neg(Int(r, -k))
  }

  lemma IntSucc<T(!new)>(r: Ring<T>, k: int)
    requires IsRing(r)
    ensures Int(r, k + 1) == r.add(Int(r, k), r.one)
  {
    if k < 0 {
      var y := Int(r, -k - 1);
      NegAdd(r, y, r.one);
      Laws(r, r.neg(y), r.neg(r.one), r.one);
      Laws(r, r.one, r.neg(r.one), r.one);
      Laws(r, r.neg(y), r.neg(y), r.neg(y));
      if k == -1 { NegZero(r); }
    }
  }

  lemma {:induction false} IntAdd<T(!new)>(r: Ring<T>, j: int, k: int)
    requires IsRing(r)
    ensures Int(r, j + k) == r.add(Int(r, j), Int(r, k))
    decreases if k < 0 then -k else k
  {
    var y := Int(r, j);
    if k == 0 {
      Laws(r, y, y, y);
    } else if k > 0 {
      IntAdd(r, j, k - 1);
      IntSucc(r, j + k - 1);
      Laws(r, y, Int(r, k - 1), r.one);
    } else {
      IntAdd(r, j, k + 1);
      IntSucc(r, j + k);
      IntSucc(r, k);
      Laws(r, y, Int(r, k), r.one);
      Cancel(r, Int(r, j + k), r.add(y, Int(r, k)), r.one);
    }
  }

  lemma IntNeg<T(!new)>(r: Ring<T>, k: int)
    requires IsRing(r)
    ensures Int(r, -k) == r.neg(Int(r, k))
  {
    var x, y := Int(r, k), Int(r, -k);
    IntAdd(r, -k, k);
    Laws(r, x, r.neg(x), x);
    Laws(r, r.neg(x), x, x);
    Cancel(r, y, r.neg(x), x);
  }

  lemma {:induction false} IntMul<T(!new)>(r: Ring<T>, j: int, k: int)
    requires IsRing(r)
    ensures Int(r, j * k) == r.mul(Int(r, j), Int(r, k))
    decreases j < 0, if j < 0 then -j else j
  {
    if j == 0 {
      MulZero(r, Int(r, k));
    } else if j > 0 {
      IntMul(r, j - 1, k);
      assert j * k == (j - 1) * k + k;
      IntAdd(r, (j - 1) * k, k);
      Laws(r, Int(r, j - 1), r.one, Int(r, k));
      Laws(r, Int(r, k), r.one, r.one);
    } else {
      IntMul(r, -j, k);
      assert j * k == -(-j * k);
      IntNeg(r, -j * k);
      MulNeg(r, Int(r, -j), Int(r, k));
    }
  }

  // ---------------------------------------------------------------- polynomial expressions

  datatype Expr = V(i: nat) | One | Add(a: Expr, b: Expr) | Neg(a: Expr) | Mul(a: Expr, b: Expr)

  function Minus(a: Expr, b: Expr): Expr { Add(a, Neg(b)) }
  function Sq(a: Expr): Expr { Mul(a, a) }
  function Dbl(a: Expr): Expr { Add(a, a) }

  predicate Within(e: Expr, n: nat)
    decreases e
  {
    match e
    case V(i) => i < n
    case One => true
    case Add(a, b) => Within(a, n) && Within(b, n)
    case Neg(a) => Within(a, n)
    case Mul(a, b) => Within(a, n) && Within(b, n)
  }

  function Eval<T>(r: Ring<T>, e: Expr, env: seq<T>): T
    requires Within(e, |env|)
    decreases e
  {
    match e
    case V(i) => env[i]
    case One => r.one
    case Add(a, b) => r.add(Eval(r, a, env), Eval(r, b, env))
    case Neg(a) => r.neg(Eval(r, a, env))
    case Mul(a, b) => r.mul(Eval(r, a, env), Eval(r, b, env))
  }

  /** The same, on integers. */
  function Value(e: Expr, env: seq<int>): int
    requires Within(e, |env|)
    decreases e
  {
    match e
    case V(i) => env[i]
    case One => 1
    case Add(a, b) => Value(a, env) + Value(b, env)
    case Neg(a) => -Value(a, env)
    case Mul(a, b) => Value(a, env) * Value(b, env)
  }

  /** Horner form: K(c), or p * x_v + q with p over the variables from v and q over those after v. */
  datatype Pol = K(c: int) | H(p: Pol, v: nat, q: Pol)

  function PolAdd(x: Pol, y: Pol): Pol {
    match x
    case K(a) => (match y case K(b) => K(a + b) case H(p, v, q) => H(p, v, PolAdd(x, q)))
    case H(p, v, q) =>
      match y
      case K(b) => H(p, v, PolAdd(q, y))
      case H(p', v', q') =>
        if v == v' then H(PolAdd(p, p'), v, PolAdd(q, q'))
        else if v < v' then H(p, v, PolAdd(q, y))
        else H(p', v', PolAdd(x, q'))
  }

  function PolScale(k: int, x: Pol): Pol {
    match x
    case K(a) => K(k * a)
    case H(p, v, q) => H(PolScale(k, p), v, PolScale(k, q))
  }

  function PolTimesVar(v: nat, x: Pol): Pol {
    match x
    case K(a) => H(x, v, K(0))
    case H(p, w, q) => if w < v then H(PolTimesVar(v, p), w, PolTimesVar(v, q)) else H(x, v, K(0))
  }

  function PolMul(x: Pol, y: Pol): Pol {
    match x
    case K(a) => PolScale(a, y)
    case H(p, v, q) => PolAdd(PolTimesVar(v, PolMul(p, y)), PolMul(q, y))
  }

  function Normal(e: Expr): Pol {
    match e
    case V(i) => H(K(1), i, K(0))
    case One => K(1)
    case Add(a, b) => PolAdd(Normal(a), Normal(b))
    case Neg(a) => PolScale(-1, Normal(a))
    case Mul(a, b) => PolMul(Normal(a), Normal(b))
  }

  ghost predicate PolWithin(x: Pol, n: nat) {
    match x
    case K(_) => true
    case H(p, v, q) => v < n && PolWithin(p, n) && PolWithin(q, n)
  }

  ghost function PolEval<T>(r: Ring<T>, x: Pol, env: seq<T>): T
    requires PolWithin(x, |env|)
  {
    match x
    case K(c) => Int(r, c)
    case H(p, v, q) => r.add(r.mul(PolEval(r, p, env), env[v]), PolEval(r, q, env))
  }

  lemma AddUnder<T(!new)>(r: Ring<T>, m: T, q: T, y: T)
    requires IsRing(r)
    ensures r.add(m, r.add(q, y)) == r.add(r.add(m, q), y)
    ensures r.add(m, r.add(y, q)) == r.add(y, r.add(m, q))
  {
    Laws(r, m, q, y);
    Laws(r, m, y, q);
    Laws(r, y, m, q);
  }

  lemma AddLike<T(!new)>(r: Ring<T>, p: T, p': T, x: T, q: T, q': T)
    requires IsRing(r)
    ensures r.add(r.mul(r.add(p, p'), x), r.add(q, q')) == r.add(r.add(r.mul(p, x), q), r.add(r.mul(p', x), q'))
  {
    Laws(r, p, p', x);
    Interchange(r, r.mul(p, x), q, r.mul(p', x), q');
  }

  lemma {:induction false} PolAddEval<T(!new)>(r: Ring<T>, x: Pol, y: Pol, env: seq<T>)
    requires IsRing(r) && PolWithin(x, |env|) && PolWithin(y, |env|)
    ensures PolWithin(PolAdd(x, y), |env|)
    ensures PolEval(r, PolAdd(x, y), env) == r.add(PolEval(r, x, env), PolEval(r, y, env))
  {
    var X, Y := PolEval(r, x, env), PolEval(r, y, env);
    if x.K? && y.K? {
      IntAdd(r, x.c, y.c);
    } else if x.H? && y.H? && x.v == y.v {
      PolAddEval(r, x.p, y.p, env);
      PolAddEval(r, x.q, y.q, env);
      AddLike(r, PolEval(r, x.p, env), PolEval(r, y.p, env), env[x.v], PolEval(r, x.q, env), PolEval(r, y.q, env));
    } else if x.H? && (y.K? || x.v < y.v) {
      PolAddEval(r, x.q, y, env);
      AddUnder(r, r.mul(PolEval(r, x.p, env), env[x.v]), PolEval(r, x.q, env), Y);
    } else {
      PolAddEval(r, x, y.q, env);
      AddUnder(r, r.mul(PolEval(r, y.p, env), env[y.v]), PolEval(r, y.q, env), X);
    }
  }

  lemma {:induction false} PolScaleEval<T(!new)>(r: Ring<T>, k: int, x: Pol, env: seq<T>)
    requires IsRing(r) && PolWithin(x, |env|)
    ensures PolWithin(PolScale(k, x), |env|)
    ensures PolEval(r, PolScale(k, x), env) == r.mul(Int(r, k), PolEval(r, x, env))
  {
    match x
    case K(a) => IntMul(r, k, a);
    case H(p, v, q) =>
      PolScaleEval(r, k, p, env);
      PolScaleEval(r, k, q, env);
      var c, P, Q := Int(r, k), PolEval(r, p, env), PolEval(r, q, env);
      Laws(r, c, P, env[v]);
      Laws(r, r.mul(P, env[v]), Q, c);
      Laws(r, c, r.mul(P, env[v]), c);
      Laws(r, c, Q, c);
      Laws(r, c, r.add(r.mul(P, env[v]), Q), c);
  }

  lemma {:induction false} PolTimesVarEval<T(!new)>(r: Ring<T>, v: nat, x: Pol, env: seq<T>)
    requires IsRing(r) && PolWithin(x, |env|) && v < |env|
    ensures PolWithin(PolTimesVar(v, x), |env|)
    ensures PolEval(r, PolTimesVar(v, x), env) == r.mul(PolEval(r, x, env), env[v])
  {
    var X := PolEval(r, x, env);
    Laws(r, r.mul(X, env[v]), X, X);
    match x
    case K(a) =>
    case H(p, w, q) =>
      if w < v {
        PolTimesVarEval(r, v, p, env);
        PolTimesVarEval(r, v, q, env);
        var P, Q := PolEval(r, p, env), PolEval(r, q, env);
        Laws(r, r.mul(P, env[w]), Q, env[v]);
        Laws(r, P, env[w], env[v]);
        Laws(r, env[w], env[v], X);
        Laws(r, P, env[v], env[w]);
      }
  }

  lemma {:induction false} PolMulEval<T(!new)>(r: Ring<T>, x: Pol, y: Pol, env: seq<T>)
    requires IsRing(r) && PolWithin(x, |env|) && PolWithin(y, |env|)
    ensures PolWithin(PolMul(x, y), |env|)
    ensures PolEval(r, PolMul(x, y), env) == r.mul(PolEval(r, x, env), PolEval(r, y, env))
  {
    match x
    case K(a) => PolScaleEval(r, a, y, env);
    case H(p, v, q) =>
      PolMulEval(r, p, y, env);
      PolTimesVarEval(r, v, PolMul(p, y), env);
      PolMulEval(r, q, y, env);
      PolAddEval(r, PolTimesVar(v, PolMul(p, y)), PolMul(q, y), env);
      var P, Q, Y := PolEval(r, p, env), PolEval(r, q, env), PolEval(r, y, env);
      Laws(r, r.mul(P, env[v]), Q, Y);
      Laws(r, P, env[v], Y);
      Laws(r, env[v], Y, Y);
      Laws(r, P, Y, env[v]);
  }

  lemma {:induction false} NormalEval<T(!new)>(r: Ring<T>, e: Expr, env: seq<T>)
    requires IsRing(r) && Within(e, |env|)
    ensures PolWithin(Normal(e), |env|)
    ensures PolEval(r, Normal(e), env) == Eval(r, e, env)
  {
    Laws(r, r.one, r.zero, r.zero);
    assert Int(r, 1) == r.one && Int(r, 0) == r.zero;
    match e
    case V(i) =>
      Laws(r, env[i], r.one, r.one);
      Laws(r, r.one, env[i], env[i]);
    case One =>
    case Add(a, b) =>
      NormalEval(r, a, env);
      NormalEval(r, b, env);
      PolAddEval(r, Normal(a), Normal(b), env);
    case Neg(a) =>
      NormalEval(r, a, env);
      PolScaleEval(r, -1, Normal(a), env);
      var A := Eval(r, a, env);
      MulNeg(r, r.one, A);
      Laws(r, r.one, A, A);
      Laws(r, A, r.one, A);
    case Mul(a, b) =>
      NormalEval(r, a, env);
      NormalEval(r, b, env);
      PolMulEval(r, Normal(a), Normal(b), env);
  }

  // ---------------------------------------------------------------- normal forms stay ordered

  ghost predicate Ordered(x: Pol, v: nat) {
    match x
    case K(_) => true
    case H(p, w, q) => v <= w && Ordered(p, w) && Ordered(q, w + 1)
  }

  lemma OrderedLower(x: Pol, v: nat, w: nat)
    requires Ordered(x, v) && w <= v
    ensures Ordered(x, w)
  {
  }

  lemma {:induction false} PolAddOrdered(x: Pol, y: Pol, v: nat)
    requires Ordered(x, v) && Ordered(y, v)
    ensures Ordered(PolAdd(x, y), v)
  {
    match x
    case K(a) => if y.H? { PolAddOrdered(x, y.q, y.v + 1); }
    case H(p, w, q) =>
      if y.K? {
        PolAddOrdered(q, y, w + 1);
      } else if w == y.v {
        PolAddOrdered(p, y.p, w);
        PolAddOrdered(q, y.q, w + 1);
      } else if w < y.v {
        PolAddOrdered(q, y, w + 1);
      } else {
        PolAddOrdered(x, y.q, y.v + 1);
      }
  }

  lemma PolScaleOrdered(k: int, x: Pol, v: nat)
    requires Ordered(x, v)
    ensures Ordered(PolScale(k, x), v)
  {
  }

  lemma PolTimesVarOrdered(v: nat, x: Pol, w: nat)
    requires Ordered(x, w) && w <= v
    ensures Ordered(PolTimesVar(v, x), w)
  {
    match x
    case K(a) =>
    case H(p, u, q) =>
      if u < v {
        PolTimesVarOrdered(v, p, u);
        PolTimesVarOrdered(v, q, u + 1);
      } else {
        OrderedLower(x, u, v);
      }
  }

  lemma {:induction false} PolMulOrdered(x: Pol, y: Pol, v: nat)
    requires Ordered(x, v) && Ordered(y, v)
    ensures Ordered(PolMul(x, y), v)
  {
    match x
    case K(a) => PolScaleOrdered(a, y, v);
    case H(p, w, q) =>
      OrderedLower(p, w, v);
      OrderedLower(q, w + 1, v);
      PolMulOrdered(p, y, v);
      PolTimesVarOrdered(w, PolMul(p, y), v);
      PolMulOrdered(q, y, v);
      PolAddOrdered(PolTimesVar(w, PolMul(p, y)), PolMul(q, y), v);
  }

  lemma {:induction false} NormalOrdered(e: Expr)
    ensures Ordered(Normal(e), 0)
  {
    match e
    case V(i) =>
    case One =>
    case Add(a, b) => NormalOrdered(a); NormalOrdered(b); PolAddOrdered(Normal(a), Normal(b), 0);
    case Neg(a) => NormalOrdered(a); PolScaleOrdered(-1, Normal(a), 0);
    case Mul(a, b) => NormalOrdered(a); NormalOrdered(b); PolMulOrdered(Normal(a), Normal(b), 0);
  }

  // ---------------------------------------------------------------- transfer

  function Integers(): Ring<int> {
    Ring(0, 1, (x, y) => x + y, x => -x, (x, y) => x * y)
  }

  lemma IntegerProducts(x: int, y: int, z: int)
    ensures (x * y) * z == x * (y * z) && x * y == y * x && x * 1 == x && (x + y) * z == x * z + y * z
  {
  }

  lemma IntegersAreARing()
    ensures IsRing(Integers())
  {
    forall x, y, z
      ensures LawsAt(Integers(), x, y, z)
    {
      IntegerProducts(x, y, z);
    }
  }

  lemma {:induction false} IntOfInteger(k: int)
    ensures Int(Integers(), k) == k
    decreases k < 0, if k < 0 then -k else k
  {
    if k > 0 { IntOfInteger(k - 1); } else if k < 0 { IntOfInteger(-k); }
  }

  lemma ValueIsEval(e: Expr, env: seq<int>)
    requires Within(e, |env|)
    ensures Value(e, env) == Eval(Integers(), e, env)
  {
  }

  ghost predicate Positive(env: seq<int>) {
    forall i :: 0 <= i < |env| ==> env[i] > 0
  }

  /** All integer constants of the form are zero. */
  ghost predicate Null(x: Pol) {
    match x
    case K(c) => c == 0
    case H(p, _, q) => Null(p) && Null(q)
  }

  lemma {:induction false} Independent(x: Pol, v: nat, env: seq<int>, t: int)
    requires PolWithin(x, |env|) && Ordered(x, v + 1) && v < |env|
    ensures PolEval(Integers(), x, env[v := t]) == PolEval(Integers(), x, env)
  {
    match x
    case K(c) =>
    case H(p, w, q) =>
      OrderedLower(p, w, v + 1);
      OrderedLower(q, w + 1, v + 1);
      Independent(p, v, env, t);
      Independent(q, v, env, t);
  }

  /** A form that vanishes on all positive integers has only zero constants: the part without x_v is
      divisible by every x_v, so it vanishes too. */
  lemma {:induction false} VanishingIsNull(x: Pol, v: nat, n: nat)
    requires PolWithin(x, n) && Ordered(x, v)
    requires forall env: seq<int> :: |env| == n && Positive(env) ==> PolEval(Integers(), x, env) == 0
    ensures Null(x)
  {
    match x
    case K(c) =>
      var env := seq(n, _ => 1);
      assert Positive(env);
      assert PolEval(Integers(), x, env) == 0;
      IntOfInteger(c);
    case H(p, w, q) =>
      forall env: seq<int> | |env| == n && Positive(env)
        ensures PolEval(Integers(), q, env) == 0
      {
        var b := PolEval(Integers(), q, env);
        var t := if b < 0 then 1 - b else 1 + b;
        var env' := env[w := t];
        assert Positive(env');
        Independent(q, w, env, t);
        assert PolEval(Integers(), x, env') == 0;
        var a := PolEval(Integers(), p, env');
        assert a * t + b == 0;
        SmallMultiple(a, t, b);
      }
      forall env: seq<int> | |env| == n && Positive(env)
        ensures PolEval(Integers(), p, env) == 0
      {
        assert PolEval(Integers(), x, env) == 0;
        assert PolEval(Integers(), p, env) * env[w] + PolEval(Integers(), q, env) == 0;
        SmallMultiple(PolEval(Integers(), p, env), env[w], 0);
      }
      VanishingIsNull(p, w, n);
      VanishingIsNull(q, w + 1, n);
  }

  lemma SmallMultiple(a: int, t: int, b: int)
    requires t > 0 && -t < b < t && a * t + b == 0
    ensures b == 0 && a == 0
  {
    if a >= 1 {
      ScaleUp(a, t);
    } else if a <= -1 {
      ScaleUp(-a, t);
    }
  }

  lemma ScaleUp(a: int, t: int)
    requires a >= 1 && t > 0
    ensures a * t >= t
  {
  }

  lemma {:induction false} NullIsZero<T(!new)>(r: Ring<T>, x: Pol, env: seq<T>)
    requires IsRing(r) && PolWithin(x, |env|) && Null(x)
    ensures PolEval(r, x, env) == r.zero
  {
    match x
    case K(c) =>
    case H(p, v, q) =>
      NullIsZero(r, p, env);
      NullIsZero(r, q, env);
      MulZero(r, env[v]);
      Laws(r, r.zero, r.zero, r.zero);
  }

  /** The transfer principle. */
  lemma Transfer<T(!new)>(r: Ring<T>, e: Expr, f: Expr, env: seq<T>)
    requires IsRing(r) && Within(e, |env|) && Within(f, |env|)
    requires forall z: seq<int> :: |z| == |env| && Positive(z) ==> Value(e, z) == Value(f, z)
    ensures Eval(r, e, env) == Eval(r, f, env)
  {
    var d, n := Minus(e, f), |env|;
    NormalEval(r, d, env);
    NormalOrdered(d);
    forall z: seq<int> | |z| == n && Positive(z)
      ensures PolEval(Integers(), Normal(d), z) == 0
    {
      IntegersAreARing();
      NormalEval(Integers(), d, z);
      ValueIsEval(e, z);
      ValueIsEval(f, z);
    }
    VanishingIsNull(Normal(d), 0, n);
    NullIsZero(r, Normal(d), env);
    var E, F := Eval(r, e, env), Eval(r, f, env);
    Laws(r, F, r.neg(F), F);
    Cancel(r, E, F, r.neg(F));
  }
}
