/** Keccak-p[1600, 12]: the unrolled, parity-carrying rounds and the loop-and-table rounds against the step mappings
    of FIPS 202. Lane operations are a parameter: both programs combine lanes in the same order. */
module Keccak {

  /** Exclusive or, left rotation, and and-not (the complement of the first operand with the second). */
  datatype LaneOps<!T> = LaneOps(xor: (T, T) -> T, rol: (T, nat) -> T, andn: (T, T) -> T)

  ghost predicate IsLaneOps<T(!new)>(o: LaneOps<T>) {
    forall x :: o.rol(x, 0) == x
  }

  // ---------------------------------------------------------------- the step mappings (FIPS 202, section 3.2)

  /** Lane (x, y) is at 5y + x. */
  function At<T>(s: seq<T>, x: nat, y: nat): T
    requires |s| == 25 && x < 5 && y < 5
  {
    s[5 * y + x]
  }

  function Parity<T>(o: LaneOps<T>, s: seq<T>, x: nat): T
    requires |s| == 25 && x < 5
  {
    o.xor(o.xor(o.xor(o.xor(At(s, x, 0), At(s, x, 1)), At(s, x, 2)), At(s, x, 3)), At(s, x, 4))
  }

  function Parities<T>(o: LaneOps<T>, s: seq<T>): (c: seq<T>)
    requires |s| == 25
    ensures |c| == 5
  {
    seq(5, x requires 0 <= x < 5 => Parity(o, s, x))
  }

  function Effect<T>(o: LaneOps<T>, c: seq<T>, x: nat): T
    requires |c| == 5 && x < 5
  {
    o.xor(c[(x + 4) % 5], o.rol(c[(x + 1) % 5], 1))
  }

  function Theta<T>(o: LaneOps<T>, s: seq<T>): (r: seq<T>)
    requires |s| == 25
    ensures |r| == 25
  {
    seq(25, i requires 0 <= i < 25 => o.xor(s[i], Effect(o, Parities(o, s), i % 5)))
  }

  /** The rotation offsets, row by row in y. */
  const RHO: seq<nat> := [ 0,  1, 62, 28, 27,
                          36, 44,  6, 55, 20,
                           3, 10, 43, 25, 39,
                          41, 45, 15, 21,  8,
                          18,  2, 61, 56, 14]

  function Rho<T>(o: LaneOps<T>, s: seq<T>): (r: seq<T>)
    requires |s| == 25
    ensures |r| == 25
  {
    seq(25, i requires 0 <= i < 25 => o.rol(s[i], RHO[i]))
  }

  function PiLane<T>(s: seq<T>, x: nat, y: nat): T
    requires |s| == 25 && x < 5 && y < 5
  {
    At(s, (x + 3 * y) % 5, x)
  }

  function Pi<T>(s: seq<T>): (r: seq<T>)
    requires |s| == 25
    ensures |r| == 25
  {
    seq(25, i requires 0 <= i < 25 => PiLane(s, i % 5, i / 5))
  }

  function Chi<T>(o: LaneOps<T>, s: seq<T>): (r: seq<T>)
    requires |s| == 25
    ensures |r| == 25
  {
    seq(25, i requires 0 <= i < 25 => o.xor(s[i], o.andn(At(s, (i % 5 + 1) % 5, i / 5), At(s, (i % 5 + 2) % 5, i / 5))))
  }

  function Iota<T>(o: LaneOps<T>, s: seq<T>, rc: T): (r: seq<T>)
    requires |s| == 25
    ensures |r| == 25
  {
    s[0 := o.xor(s[0], rc)]
  }

  function Round<T>(o: LaneOps<T>, s: seq<T>, rc: T): (r: seq<T>)
    requires |s| == 25
    ensures |r| == 25
  {
    Iota(o, Chi(o, Pi(Rho(o, Theta(o, s)))), rc)
  }

  function Rounds<T>(o: LaneOps<T>, s: seq<T>, rc: seq<T>): (r: seq<T>)
    requires |s| == 25
    ensures |r| == 25
    decreases |rc|
  {
    if rc == [] then s else Rounds(o, Round(o, s, rc[0]), rc[1..])
  }

  // ---------------------------------------------------------------- the rotation offsets

  /** The walk of FIPS 202, section 3.2.2: from (1, 0), each (x, y) steps to (y, 2x + 3y). */
  function Walk(t: nat): (p: (nat, nat))
    ensures p.0 < 5 && p.1 < 5
  {
    if t == 0 then (1, 0) else
      var p := Walk(t - 1);
      (p.1, (2 * p.0 + 3 * p.1) % 5)
  }

  /** (t + 1)(t + 2) / 2. */
  function Triangle(t: nat): nat {
    if t == 0 then 1 else Triangle(t - 1) + t + 1
  }

  lemma WalkSteps()
    ensures Walk(0) == (1, 0) && Walk(1) == (0, 2) && Walk(2) == (2, 1) && Walk(3) == (1, 2) && Walk(4) == (2, 3) && Walk(5) == (3, 3)
    ensures Walk(6) == (3, 0) && Walk(7) == (0, 1) && Walk(8) == (1, 3) && Walk(9) == (3, 1) && Walk(10) == (1, 4) && Walk(11) == (4, 4)
    ensures Walk(12) == (4, 0) && Walk(13) == (0, 3) && Walk(14) == (3, 4) && Walk(15) == (4, 3) && Walk(16) == (3, 2) && Walk(17) == (2, 2)
    ensures Walk(18) == (2, 0) && Walk(19) == (0, 4) && Walk(20) == (4, 2) && Walk(21) == (2, 4) && Walk(22) == (4, 1) && Walk(23) == (1, 1)
  {
  }

  lemma Triangles()
    ensures Triangle(0) == 1 && Triangle(1) == 3 && Triangle(2) == 6 && Triangle(3) == 10 && Triangle(4) == 15 && Triangle(5) == 21
    ensures Triangle(6) == 28 && Triangle(7) == 36 && Triangle(8) == 45 && Triangle(9) == 55 && Triangle(10) == 66 && Triangle(11) == 78
    ensures Triangle(12) == 91 && Triangle(13) == 105 && Triangle(14) == 120 && Triangle(15) == 136 && Triangle(16) == 153 && Triangle(17) == 171
    ensures Triangle(18) == 190 && Triangle(19) == 210 && Triangle(20) == 231 && Triangle(21) == 253 && Triangle(22) == 276 && Triangle(23) == 300
  {
  }

  lemma FirstOffsets(t: nat)
    requires t < 12
    ensures RHO[5 * Walk(t).1 + Walk(t).0] == Triangle(t) % 64
  {
    WalkSteps();
    Triangles();
    hide Walk;
    hide Triangle;
    match t
    case 0 => case 1 => case 2 => case 3 => case 4 => case 5 => case 6 => case 7 => case 8 => case 9 => case 10 =>
    case _ =>
  }

  lemma LastOffsets(t: nat)
    requires 12 <= t < 24
    ensures RHO[5 * Walk(t).1 + Walk(t).0] == Triangle(t) % 64
  {
    WalkSteps();
    Triangles();
    hide Walk;
    hide Triangle;
    match t
    case 12 => case 13 => case 14 => case 15 => case 16 => case 17 => case 18 => case 19 => case 20 => case 21 =>
    case 22 => case _ =>
  }

  /** Along the walk the offsets are the triangular numbers modulo 64; lane (0, 0) is not rotated. */
  lemma OffsetsAreTriangular(t: nat)
    ensures RHO[0] == 0 && (t < 24 ==> RHO[5 * Walk(t).1 + Walk(t).0] == Triangle(t) % 64)
  {
    if t < 12 {
      FirstOffsets(t);
    } else if t < 24 {
      LastOffsets(t);
    }
  }

  // ---------------------------------------------------------------- one lane of a round

  /** The lane that theta, rho and pi bring to (x, y): lane ((x + 3y) mod 5, x). */
  function Source(x: nat, y: nat): (i: nat)
    requires x < 5 && y < 5
    ensures i < 25
  {
    var n := x + 3 * y;
    5 * x + (if n < 5 then n else if n < 10 then n - 5 else if n < 15 then n - 10 else n - 15)
  }

  lemma SourceIsPi(x: nat, y: nat)
    requires x < 5 && y < 5
    ensures Source(x, y) == 5 * x + (x + 3 * y) % 5
  {
  }

  /** The state after theta, rho and pi at lane i's destination. */
  function Moved<T>(o: LaneOps<T>, s: seq<T>, i: nat): T
    requires |s| == 25 && i < 25
  {
    o.rol(o.xor(s[i], Effect(o, Parities(o, s), i % 5)), RHO[i])
  }

  lemma MovedAt<T>(o: LaneOps<T>, s: seq<T>, i: nat)
    requires |s| == 25 && i < 25
    ensures Rho(o, Theta(o, s))[i] == Moved(o, s, i)
  {
  }

  lemma Coordinates(x: nat, y: nat)
    requires x < 5 && y < 5
    ensures (5 * y + x) % 5 == x && (5 * y + x) / 5 == y
  {
  }

  lemma PiLaneAt<T>(s: seq<T>, i: nat, x: nat, y: nat)
    requires |s| == 25 && x < 5 && y < 5 && i < 25 && i % 5 == x && i / 5 == y
    ensures Pi(s)[i] == PiLane(s, x, y)
  {
  }

  lemma PiAt<T>(s: seq<T>, x: nat, y: nat)
    requires |s| == 25 && x < 5 && y < 5
    ensures At(Pi(s), x, y) == s[Source(x, y)]
  {
    Coordinates(x, y);
    SourceIsPi(x, y);
    PiLaneAt(s, 5 * y + x, x, y);
  }

  lemma ChiAt<T>(o: LaneOps<T>, s: seq<T>, x: nat, y: nat)
    requires |s| == 25 && x < 5 && y < 5
    ensures At(Chi(o, s), x, y) == o.xor(At(s, x, y), o.andn(At(s, (x + 1) % 5, y), At(s, (x + 2) % 5, y)))
  {
    Coordinates(x, y);
  }

  lemma MovedLane<T>(o: LaneOps<T>, s: seq<T>, x: nat, y: nat)
    requires |s| == 25 && x < 5 && y < 5
    ensures At(Pi(Rho(o, Theta(o, s))), x, y) == Moved(o, s, Source(x, y))
  {
    PiAt(Rho(o, Theta(o, s)), x, y);
    MovedAt(o, s, Source(x, y));
  }

  function RoundLane<T>(o: LaneOps<T>, s: seq<T>, rc: T, x: nat, y: nat): T
    requires |s| == 25 && x < 5 && y < 5
  {
    var e := o.xor(Moved(o, s, Source(x, y)),
                   o.andn(Moved(o, s, Source((x + 1) % 5, y)), Moved(o, s, Source((x + 2) % 5, y))));
    if x == 0 && y == 0 then o.xor(e, rc) else e
  }

  lemma RoundAt<T>(o: LaneOps<T>, s: seq<T>, rc: T, x: nat, y: nat)
    requires |s| == 25 && x < 5 && y < 5
    ensures At(Round(o, s, rc), x, y) == RoundLane(o, s, rc, x, y)
  {
    MovedLane(o, s, x, y);
    MovedLane(o, s, (x + 1) % 5, y);
    MovedLane(o, s, (x + 2) % 5, y);
    ChiAt(o, Pi(Rho(o, Theta(o, s))), x, y);
    IotaAt(o, Chi(o, Pi(Rho(o, Theta(o, s)))), rc, x, y);
  }

  lemma IotaAt<T>(o: LaneOps<T>, s: seq<T>, rc: T, x: nat, y: nat)
    requires |s| == 25 && x < 5 && y < 5
    ensures At(Iota(o, s, rc), x, y) == if x == 0 && y == 0 then o.xor(At(s, x, y), rc) else At(s, x, y)
  {
  }

  // ---------------------------------------------------------------- a round from its lanes

  /** The column parities and the state after theta, lane by lane. */
  ghost predicate ThetaLanes<T>(o: LaneOps<T>, s: seq<T>, c: seq<T>, t: seq<T>) {
    && |s| == |t| == 25 && |c| == 5
    && (forall x {:trigger c[x]} :: 0 <= x < 5 ==> c[x] == o.xor(o.xor(o.xor(o.xor(s[x], s[5 + x]), s[10 + x]), s[15 + x]), s[20 + x]))
    && (forall i {:trigger t[i]} :: 0 <= i < 25 ==> t[i] == o.xor(s[i], o.xor(c[(i % 5 + 4) % 5], o.rol(c[(i % 5 + 1) % 5], 1))))
  }

  /** Rotated, lane (x, y) goes to (y, 2x + 3y). */
  ghost predicate MovedLanes<T>(o: LaneOps<T>, t: seq<T>, b: seq<T>) {
    && |t| == |b| == 25
    && forall i {:trigger t[i]} :: 0 <= i < 25 ==> b[5 * ((2 * (i % 5) + 3 * (i / 5)) % 5) + i / 5] == o.rol(t[i], RHO[i])
  }

  lemma ThetaFrom<T>(o: LaneOps<T>, s: seq<T>, c: seq<T>, t: seq<T>)
    requires ThetaLanes(o, s, c, t)
    ensures t == Theta(o, s)
  {
    ParitiesFrom(o, s, c);
    forall i | 0 <= i < 25
      ensures t[i] == Theta(o, s)[i]
    {
      ThetaLaneFrom(o, s, c, t[i], i, i % 5);
    }
  }

  lemma ParitiesFrom<T>(o: LaneOps<T>, s: seq<T>, c: seq<T>)
    requires |s| == 25 && |c| == 5
    requires forall x {:trigger c[x]} :: 0 <= x < 5 ==> c[x] == o.xor(o.xor(o.xor(o.xor(s[x], s[5 + x]), s[10 + x]), s[15 + x]), s[20 + x])
    ensures c == Parities(o, s)
  {
  }

  lemma ThetaLaneFrom<T>(o: LaneOps<T>, s: seq<T>, c: seq<T>, u: T, i: nat, x: nat)
    requires |s| == 25 && c == Parities(o, s) && i < 25 && x == i % 5
    requires u == o.xor(s[i], o.xor(c[(x + 4) % 5], o.rol(c[(x + 1) % 5], 1)))
    ensures u == Theta(o, s)[i]
  {
    hide Parities;
    assert Effect(o, c, x) == o.xor(c[(x + 4) % 5], o.rol(c[(x + 1) % 5], 1));
    assert Theta(o, s)[i] == o.xor(s[i], Effect(o, Parities(o, s), i % 5));
  }

  lemma Destination(x: nat, y: nat, i: nat)
    requires x < 5 && y < 5 && i == Source(x, y)
    ensures 5 * ((2 * (i % 5) + 3 * (i / 5)) % 5) + i / 5 == 5 * y + x
  {
    hide Source;
    var u, q := (x + 3 * y) % 5, (x + 3 * y) / 5;
    SourceIsPi(x, y);
    Coordinates(u, x);
    FifthOf(2 * u + 3 * x, x + y - 2 * q, y);
  }

  lemma FifthOf(n: int, k: int, y: nat)
    requires n == 5 * k + y && y < 5
    ensures n % 5 == y
  {
  }

  lemma MovedFrom<T>(o: LaneOps<T>, t: seq<T>, b: seq<T>, x: nat, y: nat)
    requires MovedLanes(o, t, b) && x < 5 && y < 5
    ensures b[5 * y + x] == At(Pi(Rho(o, t)), x, y)
  {
    var i := Source(x, y);
    Destination(x, y, i);
    PiAt(Rho(o, t), x, y);
    assert b[5 * ((2 * (i % 5) + 3 * (i / 5)) % 5) + i / 5] == o.rol(t[i], RHO[i]);
  }

  /** A round, lane by lane, from the state c, t, b after its first steps. */
  lemma RoundFromLanes<T>(o: LaneOps<T>, s: seq<T>, c: seq<T>, t: seq<T>, b: seq<T>, rc: T, x: nat, y: nat)
    requires ThetaLanes(o, s, c, t) && MovedLanes(o, t, b) && x < 5 && y < 5
    ensures (var e := o.xor(b[5 * y + x], o.andn(b[5 * y + (x + 1) % 5], b[5 * y + (x + 2) % 5]));
             Round(o, s, rc)[5 * y + x] == if x == 0 && y == 0 then o.xor(e, rc) else e)
  {
    hide Theta;
    hide Pi;
    hide Rho;
    hide Chi;
    hide Iota;
    hide MovedLanes;
    ThetaFrom(o, s, c, t);
    hide ThetaLanes;
    MovedFrom(o, t, b, x, y);
    MovedFrom(o, t, b, (x + 1) % 5, y);
    MovedFrom(o, t, b, (x + 2) % 5, y);
    ChiAt(o, Pi(Rho(o, t)), x, y);
    IotaAt(o, Chi(o, Pi(Rho(o, t))), rc, x, y);
  }

  // ---------------------------------------------------------------- the unrolled rounds

  method MoveLane<T(!new)>(o: LaneOps<T>, a: array<T>, d: seq<T>, i: nat, rot: nat, ghost s: seq<T>) returns (b: T)
    requires IsLaneOps(o) && a.Length == |s| == 25 && |d| == 5 && i < 25 && rot == RHO[i]
    requires a[i] == s[i] && d[i % 5] == Effect(o, Parities(o, s), i % 5)
    modifies a
    ensures b == Moved(o, s, i) && forall k :: 0 <= k < 25 && k != i ==> a[k] == old(a[k])
  {
    a[i] := o.xor(a[i], d[i % 5]);
    b := if rot == 0 then a[i] else o.rol(a[i], rot);
  }

  /** idx and rot name the five source lanes of row y and their rotations. */
  ghost predicate RowOf(y: nat, idx: seq<nat>, rot: seq<nat>) {
    && y < 5 && |idx| == |rot| == 5
    && idx[0] == Source(0, y) && idx[1] == Source(1, y) && idx[2] == Source(2, y)
    && idx[3] == Source(3, y) && idx[4] == Source(4, y)
    && rot[0] == RHO[idx[0]] && rot[1] == RHO[idx[1]] && rot[2] == RHO[idx[2]]
    && rot[3] == RHO[idx[3]] && rot[4] == RHO[idx[4]]
  }

  ghost predicate EffectsOf<T>(o: LaneOps<T>, d: seq<T>, s: seq<T>) {
    |s| == 25 && |d| == 5 && forall x :: 0 <= x < 5 ==> d[x] == Effect(o, Parities(o, s), x)
  }

  ghost predicate InRow(k: nat, y: nat)
    requires y < 5
  {
    k == Source(0, y) || k == Source(1, y) || k == Source(2, y) || k == Source(3, y) || k == Source(4, y)
  }

  /** Row y after theta, rho and pi. */
  method MoveRow<T(!new)>(o: LaneOps<T>, a: array<T>, d: seq<T>, y: nat, idx: seq<nat>, rot: seq<nat>, ghost s: seq<T>)
    returns (b: seq<T>)
    requires IsLaneOps(o) && a.Length == 25 && EffectsOf(o, d, s) && RowOf(y, idx, rot)
    requires forall x :: 0 <= x < 5 ==> a[Source(x, y)] == s[Source(x, y)]
    modifies a
    ensures |b| == 5 && forall x :: 0 <= x < 5 ==> b[x] == Moved(o, s, Source(x, y))
    ensures forall k :: 0 <= k < 25 && !InRow(k, y) ==> a[k] == old(a[k])
  {
    SourcesDiffer(y);
    var b0 := MoveLane(o, a, d, idx[0], rot[0], s);
    var b1 := MoveLane(o, a, d, idx[1], rot[1], s);
    var b2 := MoveLane(o, a, d, idx[2], rot[2], s);
    var b3 := MoveLane(o, a, d, idx[3], rot[3], s);
    var b4 := MoveLane(o, a, d, idx[4], rot[4], s);
    b := [b0, b1, b2, b3, b4];
  }

  lemma SourcesDiffer(y: nat)
    requires y < 5
    ensures forall x, z :: 0 <= x < z < 5 ==> Source(x, y) != Source(z, y)
  {
  }

  /** Chi on one row, the round constant in lane 0, and the row's part of the next column parities. */
  method ChiRow<T>(o: LaneOps<T>, b: seq<T>, rc: T, y: nat, e: array<T>, c: array<T>)
    requires |b| == 5 && y < 5 && e.Length == 25 && c.Length == 5 && e != c
    modifies e, c
    ensures forall k :: 0 <= k < 25 ==> e[k] == if k / 5 == y then ChiOf(o, b, rc, k % 5, y) else old(e[k])
    ensures forall x :: 0 <= x < 5 ==>
              c[x] == if y == 0 then ChiOf(o, b, rc, x, y) else o.xor(old(c[x]), ChiOf(o, b, rc, x, y))
  {
    for x := 0 to 5
      invariant forall k :: 0 <= k < 25 ==>
                  e[k] == if k / 5 == y && k % 5 < x then ChiOf(o, b, rc, k % 5, y) else old(e[k])
      invariant forall z :: 0 <= z < x ==>
                  c[z] == if y == 0 then ChiOf(o, b, rc, z, y) else o.xor(old(c[z]), ChiOf(o, b, rc, z, y))
      invariant forall z :: x <= z < 5 ==> c[z] == old(c[z])
    {
      Coordinates(x, y);
      e[5 * y + x] := o.xor(b[x], o.andn(b[(x + 1) % 5], b[(x + 2) % 5]));
      if x == 0 && y == 0 {
        e[0] := o.xor(e[0], rc);
      }
      c[x] := if y == 0 then e[x] else o.xor(c[x], e[5 * y + x]);
    }
  }

  function ChiOf<T>(o: LaneOps<T>, b: seq<T>, rc: T, x: nat, y: nat): T
    requires |b| == 5 && x < 5
  {
    var e := o.xor(b[x], o.andn(b[(x + 1) % 5], b[(x + 2) % 5]));
    if x == 0 && y == 0 then o.xor(e, rc) else e
  }

  /** The column parity of the first y + 1 rows. */
  function PartialParity<T>(o: LaneOps<T>, r: seq<T>, x: nat, y: nat): T
    requires |r| == 25 && x < 5 && y < 5
  {
    if y == 0 then At(r, x, 0) else o.xor(PartialParity(o, r, x, y - 1), At(r, x, y))
  }

  /** The lanes that rows y and above still need are untouched. */
  ghost predicate Untouched<T>(a: array<T>, s: seq<T>, y: nat)
    requires y <= 5
    reads a
  {
    a.Length == |s| == 25 && forall x, z :: 0 <= x < 5 && y <= z < 5 ==> a[Source(x, z)] == s[Source(x, z)]
  }

  /** The rows below y of the round's result r are in e. */
  ghost predicate RowsIn<T>(r: seq<T>, e: array<T>, y: nat)
    requires |r| == 25 && y <= 5
    reads e
  {
    e.Length == 25 && forall k :: 0 <= k < 5 * y ==> e[k] == r[k]
  }

  /** Their column parities are in c. */
  ghost predicate Carried<T>(o: LaneOps<T>, r: seq<T>, c: array<T>, y: nat)
    requires |r| == 25 && y <= 5
    reads c
  {
    c.Length == 5 && (y > 0 ==> forall x :: 0 <= x < 5 ==> c[x] == PartialParity(o, r, x, y - 1))
  }

  method TakeRow<T(!new)>(o: LaneOps<T>, a: array<T>, d: seq<T>, y: nat, idx: seq<nat>, rot: seq<nat>, ghost s: seq<T>)
    returns (b: seq<T>)
    requires IsLaneOps(o) && EffectsOf(o, d, s) && RowOf(y, idx, rot) && Untouched(a, s, y)
    modifies a
    ensures |b| == 5 && forall x :: 0 <= x < 5 ==> b[x] == Moved(o, s, Source(x, y))
    ensures Untouched(a, s, y + 1)
  {
    SourcesApart(y);
    b := MoveRow(o, a, d, y, idx, rot, s);
  }

  /** No lane feeds two rows. */
  lemma SourcesApart(y: nat)
    requires y < 5
    ensures forall x, z :: 0 <= x < 5 && y < z < 5 ==> !InRow(Source(x, z), y)
  {
  }

  lemma ChiOfMoved<T>(o: LaneOps<T>, s: seq<T>, b: seq<T>, rc: T, x: nat, y: nat)
    requires |s| == 25 && |b| == 5 && x < 5 && y < 5
    requires forall z :: 0 <= z < 5 ==> b[z] == Moved(o, s, Source(z, y))
    ensures ChiOf(o, b, rc, x, y) == RoundLane(o, s, rc, x, y)
  {
  }

  method PutRow<T>(o: LaneOps<T>, b: seq<T>, rc: T, y: nat, e: array<T>, c: array<T>, ghost r: seq<T>)
    requires |r| == 25 && |b| == 5 && y < 5 && e != c
    requires forall x :: 0 <= x < 5 ==> ChiOf(o, b, rc, x, y) == At(r, x, y)
    requires RowsIn(r, e, y) && Carried(o, r, c, y)
    modifies e, c
    ensures RowsIn(r, e, y + 1) && Carried(o, r, c, y + 1)
  {
    ChiRow(o, b, rc, y, e, c);
  }

  method RoundRow<T(!new)>(o: LaneOps<T>, a: array<T>, e: array<T>, c: array<T>, d: seq<T>, rc: T,
                           y: nat, idx: seq<nat>, rot: seq<nat>, ghost s: seq<T>)
    requires IsLaneOps(o) && EffectsOf(o, d, s) && RowOf(y, idx, rot) && a != e && e != c && a != c
    requires Untouched(a, s, y) && RowsIn(Round(o, s, rc), e, y) && Carried(o, Round(o, s, rc), c, y)
    modifies a, e, c
    ensures Untouched(a, s, y + 1) && RowsIn(Round(o, s, rc), e, y + 1) && Carried(o, Round(o, s, rc), c, y + 1)
  {
    var b := TakeRow(o, a, d, y, idx, rot, s);
    ghost var r := Round(o, s, rc);
    forall x | 0 <= x < 5
      ensures ChiOf(o, b, rc, x, y) == At(r, x, y)
    {
      ChiOfMoved(o, s, b, rc, x, y);
      RoundAt(o, s, rc, x, y);
    }
    PutRow(o, b, rc, y, e, c, r);
  }

  /** The source lanes and rotations written out in the code. */
  lemma CodeRow0()
    ensures RowOf(0, [0, 6, 12, 18, 24], [0, 44, 43, 21, 14])
  {
    assert Source(0, 0) == 0 && Source(1, 0) == 6 && Source(2, 0) == 12 && Source(3, 0) == 18 && Source(4, 0) == 24;
  }

  lemma CodeRow1()
    ensures RowOf(1, [3, 9, 10, 16, 22], [28, 20, 3, 45, 61])
  {
    assert Source(0, 1) == 3 && Source(1, 1) == 9 && Source(2, 1) == 10 && Source(3, 1) == 16 && Source(4, 1) == 22;
  }

  lemma CodeRow2()
    ensures RowOf(2, [1, 7, 13, 19, 20], [1, 6, 25, 8, 18])
  {
    assert Source(0, 2) == 1 && Source(1, 2) == 7 && Source(2, 2) == 13 && Source(3, 2) == 19 && Source(4, 2) == 20;
  }

  lemma CodeRow3()
    ensures RowOf(3, [4, 5, 11, 17, 23], [27, 36, 10, 15, 56])
  {
    assert Source(0, 3) == 4 && Source(1, 3) == 5 && Source(2, 3) == 11 && Source(3, 3) == 17 && Source(4, 3) == 23;
  }

  lemma CodeRow4()
    ensures RowOf(4, [2, 8, 14, 15, 21], [62, 55, 39, 41, 2])
  {
    assert Source(0, 4) == 2 && Source(1, 4) == 8 && Source(2, 4) == 14 && Source(3, 4) == 15 && Source(4, 4) == 21;
  }

  lemma WholeParity<T>(o: LaneOps<T>, r: seq<T>, x: nat)
    requires |r| == 25 && x < 5
    ensures PartialParity(o, r, x, 4) == Parity(o, r, x)
  {
    var p1, p2 := PartialParity(o, r, x, 1), PartialParity(o, r, x, 2);
    assert PartialParity(o, r, x, 0) == At(r, x, 0);
    assert p1 == o.xor(At(r, x, 0), At(r, x, 1)) && p2 == o.xor(p1, At(r, x, 2));
  }

  lemma RoundDone<T>(o: LaneOps<T>, r: seq<T>, e: seq<T>, c: seq<T>)
    requires |r| == |e| == 25 && |c| == 5
    requires forall k :: 0 <= k < 25 ==> e[k] == r[k]
    requires forall x :: 0 <= x < 5 ==> c[x] == PartialParity(o, r, x, 4)
    ensures e == r && c == Parities(o, e)
  {
    forall x | 0 <= x < 5
      ensures c[x] == Parity(o, r, x)
    {
      WholeParity(o, r, x);
    }
  }

  /** `thetaRhoPiChiIotaPrepareTheta`: one round from a to e, given a's column parities in c, leaving e's there. */
  method PrepareThetaRound<T(!new)>(o: LaneOps<T>, a: array<T>, e: array<T>, c: array<T>, rc: T)
    requires IsLaneOps(o) && a.Length == e.Length == 25 && c.Length == 5 && a != e && e != c && a != c
    requires c[..] == Parities(o, a[..])
    modifies a, e, c
    ensures e[..] == Round(o, old(a[..]), rc) && c[..] == Parities(o, e[..])
  {
    hide Round;
    ghost var s := a[..];
    var d := [o.xor(c[4], o.rol(c[1], 1)), o.xor(c[0], o.rol(c[2], 1)), o.xor(c[1], o.rol(c[3], 1)),
              o.xor(c[2], o.rol(c[4], 1)), o.xor(c[3], o.rol(c[0], 1))];
    EffectsFromParities(o, d, c[..], s);
    CodeRow0();
    CodeRow1();
    CodeRow2();
    CodeRow3();
    CodeRow4();
    RoundRow(o, a, e, c, d, rc, 0, [0, 6, 12, 18, 24], [0, 44, 43, 21, 14], s);
    RoundRow(o, a, e, c, d, rc, 1, [3, 9, 10, 16, 22], [28, 20, 3, 45, 61], s);
    RoundRow(o, a, e, c, d, rc, 2, [1, 7, 13, 19, 20], [1, 6, 25, 8, 18], s);
    RoundRow(o, a, e, c, d, rc, 3, [4, 5, 11, 17, 23], [27, 36, 10, 15, 56], s);
    RoundRow(o, a, e, c, d, rc, 4, [2, 8, 14, 15, 21], [62, 55, 39, 41, 2], s);
    RoundDone(o, Round(o, s, rc), e[..], c[..]);
  }

  lemma EffectsFromParities<T>(o: LaneOps<T>, d: seq<T>, c: seq<T>, s: seq<T>)
    requires |s| == 25 && c == Parities(o, s)
    requires d == [o.xor(c[4], o.rol(c[1], 1)), o.xor(c[0], o.rol(c[2], 1)), o.xor(c[1], o.rol(c[3], 1)),
                   o.xor(c[2], o.rol(c[4], 1)), o.xor(c[3], o.rol(c[0], 1))]
    ensures EffectsOf(o, d, s)
  {
  }

  lemma {:induction false} RoundsSnoc<T>(o: LaneOps<T>, s: seq<T>, rc: seq<T>, c: T)
    requires |s| == 25
    ensures Rounds(o, s, rc + [c]) == Round(o, Rounds(o, s, rc), c)
    decreases |rc|
  {
    if rc == [] {
      assert rc + [c] == [c];
      assert Rounds(o, Round(o, s, c), []) == Round(o, s, c);
    } else {
      assert (rc + [c])[1..] == rc[1..] + [c];
      RoundsSnoc(o, Round(o, s, rc[0]), rc[1..], c);
    }
  }

  /** a holds the state after k rounds and c its column parities. */
  ghost predicate Reached<T>(o: LaneOps<T>, a: array<T>, c: array<T>, rc: seq<T>, k: nat, s: seq<T>)
    requires |s| == 25 && k <= |rc|
    reads a, c
  {
    a.Length == 25 && c.Length == 5 && a[..] == Rounds(o, s, rc[..k]) && c[..] == Parities(o, a[..])
  }

  method NextRound<T(!new)>(o: LaneOps<T>, a: array<T>, e: array<T>, c: array<T>, rc: seq<T>, k: nat, ghost s: seq<T>)
    requires IsLaneOps(o) && e.Length == |s| == 25 && a != e && e != c && a != c
    requires k < |rc| && Reached(o, a, c, rc, k, s)
    modifies a, e, c
    ensures Reached(o, e, c, rc, k + 1, s)
  {
    PrepareThetaRound(o, a, e, c, rc[k]);
    RoundsSnoc(o, s, rc[..k], rc[k]);
    assert rc[..k] + [rc[k]] == rc[..k + 1];
  }

  /** The rounds alternate between two copies of the state. */
  method TwoRounds<T(!new)>(o: LaneOps<T>, a: array<T>, e: array<T>, c: array<T>, rc: seq<T>, k: nat, ghost s: seq<T>)
    requires IsLaneOps(o) && e.Length == |s| == 25 && a != e && e != c && a != c
    requires k + 1 < |rc| && Reached(o, a, c, rc, k, s)
    modifies a, e, c
    ensures Reached(o, a, c, rc, k + 2, s)
  {
    NextRound(o, a, e, c, rc, k, s);
    NextRound(o, e, a, c, rc, k + 1, s);
  }

  method StartRounds<T>(o: LaneOps<T>, a: array<T>, ghost rc: seq<T>) returns (e: array<T>, c: array<T>)
    requires a.Length == 25
    ensures fresh(e) && fresh(c) && e != c && e.Length == 25 && Reached(o, a, c, rc, 0, a[..])
  {
    e := new T[25](i requires 0 <= i < 25 reads a => a[i]);
    c := new T[5](x requires 0 <= x < 5 reads a => Parity(o, a[..], x));
    assert c[..] == Parities(o, a[..]) && Rounds(o, a[..], rc[..0]) == a[..];
  }

  method TwelveRounds<T(!new)>(o: LaneOps<T>, a: array<T>, e: array<T>, c: array<T>, rc: seq<T>, ghost s: seq<T>)
    requires IsLaneOps(o) && e.Length == |s| == 25 && |rc| == 12 && a != e && e != c && a != c
    requires Reached(o, a, c, rc, 0, s)
    modifies a, e, c
    ensures Reached(o, a, c, rc, 12, s)
  {
    hide Reached;
    hide Rounds;
    TwoRounds(o, a, e, c, rc, 0, s);
    TwoRounds(o, a, e, c, rc, 2, s);
    TwoRounds(o, a, e, c, rc, 4, s);
    TwoRounds(o, a, e, c, rc, 6, s);
    TwoRounds(o, a, e, c, rc, 8, s);
    TwoRounds(o, a, e, c, rc, 10, s);
  }

  /** `rounds12` is twelve rounds of the standard. */
  method Rounds12<T(!new)>(o: LaneOps<T>, a: array<T>, rc: seq<T>)
    requires IsLaneOps(o) && a.Length == 25 && |rc| == 12
    modifies a
    ensures a[..] == Rounds(o, old(a[..]), rc)
  {
    ghost var s := a[..];
    var e, c := StartRounds(o, a, rc);
    TwelveRounds(o, a, e, c, rc, s);
    assert rc[..12] == rc;
  }
}
