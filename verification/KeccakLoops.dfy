/** The loop-and-table permutation on a 5 by 5 array, against the same rounds. */
module KeccakLoops {
  import opened Keccak

  /** `ROT[x][y]`. */
  const ROT: seq<seq<nat>> := [[0, 36, 3, 41, 18], [1, 44, 10, 45, 2], [62, 6, 43, 15, 61],
                               [28, 55, 25, 21, 56], [27, 20, 39, 8, 14]]

  lemma OffsetsAgree(x: nat, y: nat)
    requires x < 5 && y < 5
    ensures |ROT| == 5 && |ROT[x]| == 5 && ROT[x][y] == RHO[5 * y + x]
  {
    match x
    case 0 => match y { case 0 => case 1 => case 2 => case 3 => case _ => }
    case 1 => match y { case 0 => case 1 => case 2 => case 3 => case _ => }
    case 2 => match y { case 0 => case 1 => case 2 => case 3 => case _ => }
    case 3 => match y { case 0 => case 1 => case 2 => case 3 => case _ => }
    case _ => match y { case 0 => case 1 => case 2 => case 3 => case _ => }
  }

  ghost predicate Square<T>(l: array2<T>) {
    l.Length0 == 5 && l.Length1 == 5
  }

  /** l holds the state s, lane (x, y) at l[x, y]. */
  ghost predicate Shows<T>(l: array2<T>, s: seq<T>)
    reads l
  {
    Square(l) && |s| == 25 && forall x, y :: 0 <= x < 5 && 0 <= y < 5 ==> l[x, y] == At(s, x, y)
  }

  method Columns<T>(o: LaneOps<T>, l: array2<T>, ghost s: seq<T>) returns (d: seq<T>)
    requires Shows(l, s)
    ensures EffectsOf(o, d, s)
  {
    var c: seq<T> := [];
    for x := 0 to 5
      invariant |c| == x && forall z :: 0 <= z < x ==> c[z] == Parity(o, s, z)
    {
      c := c + [o.xor(o.xor(o.xor(o.xor(l[x, 0], l[x, 1]), l[x, 2]), l[x, 3]), l[x, 4])];
    }
    assert c == Parities(o, s);
    d := [];
    for x := 0 to 5
      invariant |d| == x && forall z :: 0 <= z < x ==> d[z] == Effect(o, Parities(o, s), z)
    {
      d := d + [o.xor(c[(x + 4) % 5], o.rol(c[(x + 1) % 5], 1))];
    }
  }

  method AddEffects<T>(o: LaneOps<T>, l: array2<T>, d: seq<T>)
    requires Square(l) && |d| == 5
    modifies l
    ensures forall u, v :: 0 <= u < 5 && 0 <= v < 5 ==> l[u, v] == o.xor(old(l[u, v]), d[u])
  {
    for x := 0 to 5
      invariant forall u, v :: 0 <= u < x && 0 <= v < 5 ==> l[u, v] == o.xor(old(l[u, v]), d[u])
      invariant forall u, v :: x <= u < 5 && 0 <= v < 5 ==> l[u, v] == old(l[u, v])
    {
      for y := 0 to 5
        invariant forall u, v :: 0 <= u < x && 0 <= v < 5 ==> l[u, v] == o.xor(old(l[u, v]), d[u])
        invariant forall v :: 0 <= v < y ==> l[x, v] == o.xor(old(l[x, v]), d[x])
        invariant forall v :: y <= v < 5 ==> l[x, v] == old(l[x, v])
        invariant forall u, v :: x < u < 5 && 0 <= v < 5 ==> l[u, v] == old(l[u, v])
      {
        l[x, y] := o.xor(l[x, y], d[x]);
      }
    }
  }

  lemma ThetaAt<T>(o: LaneOps<T>, s: seq<T>, x: nat, y: nat)
    requires |s| == 25 && x < 5 && y < 5
    ensures At(Theta(o, s), x, y) == o.xor(At(s, x, y), Effect(o, Parities(o, s), x))
  {
    Coordinates(x, y);
  }

  method ThetaInPlace<T>(o: LaneOps<T>, l: array2<T>, ghost s: seq<T>)
    requires Shows(l, s)
    modifies l
    ensures Shows(l, Theta(o, s))
  {
    var d := Columns(o, l, s);
    AddEffects(o, l, d);
    forall x, y | 0 <= x < 5 && 0 <= y < 5
      ensures l[x, y] == At(Theta(o, s), x, y)
    {
      ThetaAt(o, s, x, y);
    }
  }

  /** (2x + 3y) mod 5. */
  function Target(x: nat, y: nat): (z: nat)
    requires x < 5 && y < 5
    ensures z < 5
  {
    var n := 2 * x + 3 * y;
    if n < 5 then n else if n < 10 then n - 5 else if n < 15 then n - 10 else if n < 20 then n - 15 else n - 20
  }

  lemma TargetIsMod(x: nat, y: nat)
    requires x < 5 && y < 5
    ensures Target(x, y) == (2 * x + 3 * y) % 5
  {
  }

  lemma TargetsDiffer(x: nat, y: nat)
    requires x < 5 && y < 5
    ensures forall u :: 0 <= u < 5 && u != x ==> Target(u, y) != Target(x, y)
  {
  }

  /** The lane sent to (x, y) is Source(x, y). */
  lemma TargetOfSource(x: nat, y: nat) returns (u: nat)
    requires x < 5 && y < 5
    ensures u < 5 && Target(u, x) == y && Source(x, y) == 5 * x + u
  {
    u := Source(x, y) - 5 * x;
  }

  function Rotated<T>(o: LaneOps<T>, t: seq<T>, x: nat, y: nat): T
    requires |t| == 25 && x < 5 && y < 5
  {
    o.rol(At(t, x, y), RHO[5 * y + x])
  }

  method RotateLane<T>(o: LaneOps<T>, l: array2<T>, x: nat, y: nat, ghost t: seq<T>) returns (v: T)
    requires Shows(l, t) && x < 5 && y < 5
    ensures v == Rotated(o, t, x, y)
  {
    OffsetsAgree(x, y);
    v := o.rol(l[x, y], ROT[x][y]);
  }

  method PutAtTarget<T>(b: array2<T>, x: nat, y: nat, v: T)
    requires Square(b) && x < 5 && y < 5
    modifies b
    ensures b[y, Target(x, y)] == v
    ensures forall u, w :: 0 <= u < 5 && 0 <= w < 5 && (u != x || w != y) ==> b[w, Target(u, w)] == old(b[w, Target(u, w)])
  {
    TargetIsMod(x, y);
    TargetsDiffer(x, y);
    b[y, (2 * x + 3 * y) % 5] := v;
  }

  /** One column of l, scattered over the rows of b. */
  method ScatterColumn<T>(o: LaneOps<T>, l: array2<T>, b: array2<T>, x: nat, ghost t: seq<T>)
    requires Shows(l, t) && Square(b) && l != b && x < 5
    modifies b
    ensures forall v :: 0 <= v < 5 ==> b[v, Target(x, v)] == Rotated(o, t, x, v)
    ensures forall u, v :: 0 <= u < 5 && 0 <= v < 5 && u != x ==> b[v, Target(u, v)] == old(b[v, Target(u, v)])
  {
    for y := 0 to 5
      invariant forall v :: 0 <= v < y ==> b[v, Target(x, v)] == Rotated(o, t, x, v)
      invariant forall u, v :: 0 <= u < 5 && 0 <= v < 5 && u != x ==> b[v, Target(u, v)] == old(b[v, Target(u, v)])
    {
      var v := RotateLane(o, l, x, y, t);
      PutAtTarget(b, x, y, v);
    }
  }

  method Scatter<T(0)>(o: LaneOps<T>, l: array2<T>, ghost t: seq<T>) returns (b: array2<T>)
    requires Shows(l, t)
    ensures fresh(b) && Square(b)
    ensures forall u, v :: 0 <= u < 5 && 0 <= v < 5 ==> b[v, Target(u, v)] == Rotated(o, t, u, v)
  {
    b := new T[5, 5];
    for x := 0 to 5
      invariant forall u, v :: 0 <= u < x && 0 <= v < 5 ==> b[v, Target(u, v)] == Rotated(o, t, u, v)
    {
      ScatterColumn(o, l, b, x, t);
    }
  }

  lemma ScatteredLane<T>(o: LaneOps<T>, t: seq<T>, x: nat, y: nat) returns (u: nat)
    requires |t| == 25 && x < 5 && y < 5
    ensures u < 5 && Target(u, x) == y && Rotated(o, t, u, x) == At(Pi(Rho(o, t)), x, y)
  {
    u := TargetOfSource(x, y);
    PiAt(Rho(o, t), x, y);
  }

  method RhoPi<T(0)>(o: LaneOps<T>, l: array2<T>, ghost t: seq<T>) returns (b: array2<T>)
    requires Shows(l, t)
    ensures fresh(b) && Shows(b, Pi(Rho(o, t)))
  {
    b := Scatter(o, l, t);
    forall x, y | 0 <= x < 5 && 0 <= y < 5
      ensures b[x, y] == At(Pi(Rho(o, t)), x, y)
    {
      var u := ScatteredLane(o, t, x, y);
    }
  }

  function ChiEntry<T>(o: LaneOps<T>, b: array2<T>, x: nat, y: nat): T
    requires Square(b) && x < 5 && y < 5
    reads b
  {
    o.xor(b[x, y], o.andn(b[(x + 1) % 5, y], b[(x + 2) % 5, y]))
  }

  method ChiColumns<T>(o: LaneOps<T>, l: array2<T>, b: array2<T>)
    requires Square(l) && Square(b) && l != b
    modifies l
    ensures forall u, v :: 0 <= u < 5 && 0 <= v < 5 ==> l[u, v] == ChiEntry(o, b, u, v)
  {
    for x := 0 to 5
      invariant forall u, v :: 0 <= u < x && 0 <= v < 5 ==> l[u, v] == ChiEntry(o, b, u, v)
    {
      for y := 0 to 5
        invariant forall u, v :: 0 <= u < x && 0 <= v < 5 ==> l[u, v] == ChiEntry(o, b, u, v)
        invariant forall v :: 0 <= v < y ==> l[x, v] == ChiEntry(o, b, x, v)
      {
        l[x, y] := ChiEntry(o, b, x, y);
      }
    }
  }

  method ChiInPlace<T>(o: LaneOps<T>, l: array2<T>, b: array2<T>, ghost s: seq<T>)
    requires Square(l) && Shows(b, s) && l != b
    modifies l
    ensures Shows(l, Chi(o, s))
  {
    ChiColumns(o, l, b);
    forall x, y | 0 <= x < 5 && 0 <= y < 5
      ensures l[x, y] == At(Chi(o, s), x, y)
    {
      ChiAt(o, s, x, y);
    }
  }

  method ThetaRhoPi<T(0)>(o: LaneOps<T>, l: array2<T>, ghost s: seq<T>) returns (b: array2<T>)
    requires Shows(l, s)
    modifies l
    ensures fresh(b) && Shows(b, Pi(Rho(o, Theta(o, s)))) && Square(l)
  {
    ThetaInPlace(o, l, s);
    b := RhoPi(o, l, Theta(o, s));
  }

  method ChiIota<T>(o: LaneOps<T>, l: array2<T>, b: array2<T>, rc: T, ghost t: seq<T>)
    requires Square(l) && Shows(b, t) && l != b
    modifies l
    ensures Shows(l, Iota(o, Chi(o, t), rc))
  {
    ChiInPlace(o, l, b, t);
    l[0, 0] := o.xor(l[0, 0], rc);
    forall x, y | 0 <= x < 5 && 0 <= y < 5
      ensures l[x, y] == At(Iota(o, Chi(o, t), rc), x, y)
    {
      IotaAt(o, Chi(o, t), rc, x, y);
    }
  }

  method LoopRound<T(0)>(o: LaneOps<T>, l: array2<T>, rc: T, ghost s: seq<T>)
    requires Shows(l, s)
    modifies l
    ensures Shows(l, Round(o, s, rc))
  {
    var b := ThetaRhoPi(o, l, s);
    ChiIota(o, l, b, rc, Pi(Rho(o, Theta(o, s))));
  }

  lemma NextPrefix<T>(o: LaneOps<T>, s: seq<T>, rc: seq<T>, k: nat)
    requires |s| == 25 && k < |rc|
    ensures Rounds(o, s, rc[..k + 1]) == Round(o, Rounds(o, s, rc[..k]), rc[k])
  {
    hide Round;
    RoundsSnoc(o, s, rc[..k], rc[k]);
    assert rc[..k] + [rc[k]] == rc[..k + 1];
  }

  /** `keccak_p1600_12` computes the same rounds as `rounds12`. */
  method KeccakP160012<T(0)>(o: LaneOps<T>, l: array2<T>, rc: seq<T>, ghost s: seq<T>)
    requires Shows(l, s)
    modifies l
    ensures Shows(l, Rounds(o, s, rc))
  {
    assert rc[..0] == [];
    for k := 0 to |rc|
      invariant Shows(l, Rounds(o, s, rc[..k]))
    {
      NextPrefix(o, s, rc, k);
      LoopRound(o, l, rc[k], Rounds(o, s, rc[..k]));
    }
    assert rc[..|rc|] == rc;
  }
}
