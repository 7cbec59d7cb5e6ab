/**
  * `_keccak_f` (scripts/check_deployed_code.py): the five steps of a round as section
  * 3.2 of FIPS 202 defines them, and the loops that run them on a five by five array.
  */
module KeccakRounds {

  import opened KeccakLanes

  type State = s: seq<seq<Lane>> | |s| == 5 && forall x :: 0 <= x < 5 ==> |s[x]| == 5
    witness seq(5, _ => seq(5, _ => Zero()))

  /** Lane (x, y), coordinates modulo 5. */
  function At(s: State, x: int, y: int): Lane { s[x % 5][y % 5] }

  function Make(f: (int, int) -> Lane): (s: State)
    ensures forall x, y :: 0 <= x < 5 && 0 <= y < 5 ==> s[x][y] == f(x, y)
  {
    seq(5, x => seq(5, y => f(x, y)))
  }

  lemma SameState(s: State, t: State)
    requires forall x, y :: 0 <= x < 5 && 0 <= y < 5 ==> s[x][y] == t[x][y]
    ensures s == t
  {
    forall x | 0 <= x < 5 ensures s[x] == t[x] {
      assert forall y :: 0 <= y < 5 ==> s[x][y] == t[x][y];
    }
  }

  // ----- Constants ---------------------------------------------------------

  const ROT: seq<seq<nat>> := [
    [0, 36, 3, 41, 18], [1, 44, 10, 45, 2], [62, 6, 43, 15, 61], [28, 55, 25, 21, 56], [27, 20, 39, 8, 14]]

  const RC: seq<nat> := [
    0x0000000000000001, 0x0000000000008082, 0x800000000000808A, 0x8000000080008000,
    0x000000000000808B, 0x0000000080000001, 0x8000000080008081, 0x8000000000008009,
    0x000000000000008A, 0x0000000000000088, 0x0000000080008009, 0x000000008000000A,
    0x000000008000808B, 0x800000000000008B, 0x8000000000008089, 0x8000000000008003,
    0x8000000000008002, 0x8000000000000080, 0x000000000000800A, 0x800000008000000A,
    0x8000000080008081, 0x8000000000008080, 0x0000000080000001, 0x8000000080008008]

  function Rotation(x: int, y: int): (n: nat)
    ensures n < 64
  {
    ROT[x % 5][y % 5]
  }

  /** The point the walk of section 3.2.2 reaches after `t` moves from (1, 0). */
  function Walk(t: nat): (nat, nat) {
    if t == 0 then (1, 0)
    else var p := Walk(t - 1); (p.1, (2 * p.0 + 3 * p.1) % 5)
  }

  /** The table holds the offsets of that walk: triangular numbers modulo 64. */
  lemma RotationTable(t: nat)
    requires t < 24
    ensures Rotation(0, 0) == 0
    ensures Rotation(Walk(t).0, Walk(t).1) == ((t + 1) * (t + 2) / 2) % 64
  {
    hide Walk;
    if t < 12 { FirstOffsets(t); } else { LastOffsets(t); }
  }

  lemma FirstOffsets(t: nat)
    requires t < 12
    ensures Rotation(Walk(t).0, Walk(t).1) == ((t + 1) * (t + 2) / 2) % 64
  {
    hide Walk, Rotation;
    if t < 6 { FirstSix(t); } else { NextSix(t); }
  }

  lemma FirstSix(t: nat)
    requires t < 6
    ensures Rotation(Walk(t).0, Walk(t).1) == ((t + 1) * (t + 2) / 2) % 64
  {
    hide Walk;
    WalkTo12();
  }

  lemma NextSix(t: nat)
    requires 6 <= t < 12
    ensures Rotation(Walk(t).0, Walk(t).1) == ((t + 1) * (t + 2) / 2) % 64
  {
    hide Walk;
    WalkTo12();
  }

  lemma LastOffsets(t: nat)
    requires 12 <= t < 24
    ensures Rotation(Walk(t).0, Walk(t).1) == ((t + 1) * (t + 2) / 2) % 64
  {
    hide Walk;
    WalkTo24();
  }

  lemma WalkTo12()
    ensures Walk(0) == (1, 0) && Walk(1) == (0, 2) && Walk(2) == (2, 1) && Walk(3) == (1, 2)
    ensures Walk(4) == (2, 3) && Walk(5) == (3, 3) && Walk(6) == (3, 0) && Walk(7) == (0, 1)
    ensures Walk(8) == (1, 3) && Walk(9) == (3, 1) && Walk(10) == (1, 4) && Walk(11) == (4, 4)
  {
  }

  lemma WalkTo24()
    ensures Walk(12) == (4, 0) && Walk(13) == (0, 3) && Walk(14) == (3, 4) && Walk(15) == (4, 3)
    ensures Walk(16) == (3, 2) && Walk(17) == (2, 2) && Walk(18) == (2, 0) && Walk(19) == (0, 4)
    ensures Walk(20) == (4, 2) && Walk(21) == (2, 4) && Walk(22) == (4, 1) && Walk(23) == (1, 1)
  {
    WalkTo12();
    assert Walk(12) == (4, 0);
    assert Walk(13) == (0, 3);
    assert Walk(14) == (3, 4);
    assert Walk(15) == (4, 3);
    assert Walk(16) == (3, 2);
    assert Walk(17) == (2, 2);
    assert Walk(18) == (2, 0);
    assert Walk(19) == (0, 4);
    assert Walk(20) == (4, 2);
    assert Walk(21) == (2, 4);
    assert Walk(22) == (4, 1);
  }

  // ----- The steps ---------------------------------------------------------

  /** A column's parity, for each of the five sheets. */
  type Plane = p: seq<Lane> | |p| == 5 witness seq(5, _ => Zero())

  function Col(p: Plane, x: int): Lane { p[x % 5] }

  function MakePlane(f: int -> Lane): (p: Plane)
    ensures forall x :: 0 <= x < 5 ==> p[x] == f(x)
  {
    seq(5, x => f(x))
  }

  function Parity(s: State): Plane {
    MakePlane(x => Xor(Xor(Xor(Xor(At(s, x, 0), At(s, x, 1)), At(s, x, 2)), At(s, x, 3)), At(s, x, 4)))
  }

  function Effect(c: Plane): Plane {
    MakePlane(x => Xor(Col(c, x - 1), Rol(Col(c, x + 1), 1)))
  }

  function Theta(s: State): State {
    Make((x, y) => Xor(At(s, x, y), Col(Effect(Parity(s)), x)))
  }

  function Rho(s: State): State { Make((x, y) => Rol(At(s, x, y), Rotation(x, y))) }

  function Pi(s: State): State { Make((x, y) => At(s, x + 3 * y, x)) }

  function ChiLane(s: State, x: int, y: int): Lane {
    Xor(At(s, x, y), AndNot(At(s, x + 1, y), At(s, x + 2, y)))
  }

  function Chi(s: State): State { Make((x, y) => ChiLane(s, x, y)) }

  function Iota(s: State, rc: Lane): State {
    Make((x, y) => if x == 0 && y == 0 then Xor(At(s, 0, 0), rc) else At(s, x, y))
  }

  function Round(s: State, rc: Lane): State { Iota(Chi(Pi(Rho(Theta(s)))), rc) }

  function Rounds(s: State, n: nat): State
    requires n <= 24
  {
    if n == 0 then s else Round(Rounds(s, n - 1), ToLane(RC[n - 1]))
  }

  function Keccak(s: State): State { Rounds(s, 24) }

  // ----- The loops ---------------------------------------------------------

  predicate FiveByFive(a: array2<Lane>) { a.Length0 == 5 && a.Length1 == 5 }

  function View(a: array2<Lane>): (s: State)
    requires FiveByFive(a)
    reads a
    ensures forall x, y :: 0 <= x < 5 && 0 <= y < 5 ==> s[x][y] == a[x, y]
  {
    seq(5, x requires 0 <= x < 5 reads a => seq(5, y requires 0 <= y < 5 reads a => a[x, y]))
  }

  /** `c`: the parity of each column. */
  method Columns(a: array2<Lane>) returns (c: Plane)
    requires FiveByFive(a)
    ensures c == Parity(View(a))
  {
    c := seq(5, x requires 0 <= x < 5 reads a =>
      Xor(Xor(Xor(Xor(a[x, 0], a[x, 1]), a[x, 2]), a[x, 3]), a[x, 4]));
  }

  /** One cell replaced. */
  function Put(s: State, u: nat, v: nat, lane: Lane): (t: State)
    requires u < 5 && v < 5
    ensures t[u][v] == lane
    ensures forall x, y :: 0 <= x < 5 && 0 <= y < 5 && (x, y) != (u, v) ==> t[x][y] == s[x][y]
  {
    Make((x, y) => if x == u && y == v then lane else At(s, x, y))
  }

  /** `a[u][v] = lane`. */
  method Store(a: array2<Lane>, u: nat, v: nat, lane: Lane)
    requires FiveByFive(a) && u < 5 && v < 5
    modifies a
    ensures View(a) == Put(old(View(a)), u, v, lane)
  {
    ghost var s := View(a);
    a[u, v] := lane;
    SameState(View(a), Put(s, u, v, lane));
  }

  /** Lane (u, v) comes before lane (x, y) in the loops. */
  predicate Earlier(u: int, v: int, x: int, y: int) {
    0 <= u < 5 && 0 <= v < 5 && (u < x || (u == x && v < y))
  }

  /** The lanes before (x, y) have had `d` added to them, the others not. */
  ghost predicate Added(s: State, d: Plane, t: State, x: nat, y: nat) {
    forall u, v :: 0 <= u < 5 && 0 <= v < 5 ==>
      t[u][v] == if Earlier(u, v, x, y) then Xor(s[u][v], d[u]) else s[u][v]
  }

  lemma AddNext(s: State, d: Plane, t: State, x: nat, y: nat)
    requires x < 5 && y < 5 && Added(s, d, t, x, y)
    ensures t[x][y] == s[x][y]
    ensures Added(s, d, Put(t, x, y, Xor(s[x][y], d[x])), x, y + 1)
  {
    hide Xor;
  }

  lemma NextAdded(s: State, d: Plane, t: State, x: nat)
    requires Added(s, d, t, x, 5)
    ensures Added(s, d, t, x + 1, 0)
  {
    hide Xor;
  }

  lemma AddDone(s: State, t: State)
    requires Added(s, Effect(Parity(s)), t, 5, 0)
    ensures t == Theta(s)
  {
    hide Xor, Effect, Parity;
    forall u, v | 0 <= u < 5 && 0 <= v < 5 ensures t[u][v] == Theta(s)[u][v] {
      assert Earlier(u, v, 5, 0);
    }
    SameState(t, Theta(s));
  }

  lemma AddStarts(s: State, d: Plane)
    ensures Added(s, d, s, 0, 0)
  {
  }

  method ThetaInPlace(a: array2<Lane>)
    requires FiveByFive(a)
    modifies a
    ensures View(a) == Theta(old(View(a)))
  {
    hide Rol, Parity, Effect, View, Added, Put, Theta;
    ghost var s := View(a);
    var c := Columns(a);
    var d := Effect(c);
    AddStarts(s, d);
    for x := 0 to 5
      invariant Added(s, d, View(a), x, 0)
    {
      for y := 0 to 5
        invariant Added(s, d, View(a), x, y)
      {
        AddNext(s, d, View(a), x, y);
        Store(a, x, y, Xor(a[x, y], d[x]));
      }
      NextAdded(s, d, View(a), x);
    }
    AddDone(s, View(a));
  }

  /** Where the scatter loop writes lane (x, y). */
  function Target(x: int, y: int): (int, int) { (y, (2 * x + 3 * y) % 5) }

  /** The lane that ends up at (u, v). */
  function Source(u: int, v: int): (int, int) { ((u + 3 * v) % 5, u) }

  lemma Remainder(a: int, k: int, x: int)
    requires a == x + 5 * k && 0 <= x < 5
    ensures a % 5 == x
  {
  }

  /** Each cell is written once: the two maps are inverse to each other. */
  lemma ScatterOnce(x: int, y: int)
    requires 0 <= x < 5 && 0 <= y < 5
    ensures Source(Target(x, y).0, Target(x, y).1) == (x, y)
    ensures Target(Source(x, y).0, Source(x, y).1) == (x, y)
  {
    var a, b := 2 * x + 3 * y, x + 3 * y;
    Remainder(y + 3 * (a % 5), x + 2 * y - 3 * (a / 5), x);
    Remainder(2 * (b % 5) + 3 * x, x + y - 2 * (b / 5), y);
  }

  /** The lanes before (x, y) are in their places. */
  ghost predicate Scattered(s: State, t: State, x: nat, y: nat) {
    forall u, v :: Earlier(u, v, x, y) ==>
      t[Target(u, v).0][Target(u, v).1] == Rol(s[u][v], Rotation(u, v))
  }

  lemma ScatterNext(s: State, t: State, x: nat, y: nat)
    requires x < 5 && y < 5 && Scattered(s, t, x, y)
    ensures Scattered(s, Put(t, y, (2 * x + 3 * y) % 5, Rol(s[x][y], Rotation(x, y))), x, y + 1)
  {
    hide Rol, Rotation, Source, Put;
    var lane := Rol(s[x][y], Rotation(x, y));
    var t' := Put(t, y, (2 * x + 3 * y) % 5, lane);
    forall u, v | Earlier(u, v, x, y + 1)
      ensures t'[Target(u, v).0][Target(u, v).1] == Rol(s[u][v], Rotation(u, v))
    {
      if (u, v) != (x, y) {
        ScatterOnce(u, v);
        ScatterOnce(x, y);
        assert Target(u, v) != Target(x, y);
      }
    }
  }

  lemma PiRhoAt(s: State, u: nat, v: nat)
    requires u < 5 && v < 5
    ensures var x := (u + 3 * v) % 5; Pi(Rho(s))[u][v] == Rol(s[x][u], Rotation(x, u))
  {
    hide Rol, Rotation;
    assert Pi(Rho(s))[u][v] == At(Rho(s), u + 3 * v, u);
  }

  lemma ScatterDone(s: State, t: State)
    requires Scattered(s, t, 5, 0)
    ensures t == Pi(Rho(s))
  {
    hide Rol, Rotation, Pi, Rho, Scattered;
    forall u, v | 0 <= u < 5 && 0 <= v < 5 ensures t[u][v] == Pi(Rho(s))[u][v] {
      PiRhoAt(s, u, v);
      ScatteredAt(s, t, u, v);
    }
    SameState(t, Pi(Rho(s)));
  }

  lemma ScatteredAt(s: State, t: State, u: nat, v: nat)
    requires Scattered(s, t, 5, 0) && u < 5 && v < 5
    ensures var x := (u + 3 * v) % 5; t[u][v] == Rol(s[x][u], Rotation(x, u))
  {
    hide Rol, Rotation, Target;
    ScatterOnce(u, v);
    var p := Source(u, v);
    assert Earlier(p.0, p.1, 5, 0);
    assert t[Target(p.0, p.1).0][Target(p.0, p.1).1] == Rol(s[p.0][p.1], Rotation(p.0, p.1));
  }

  method Scatter(a: array2<Lane>) returns (b: array2<Lane>)
    requires FiveByFive(a)
    ensures FiveByFive(b) && fresh(b)
    ensures View(b) == Pi(Rho(View(a)))
  {
    hide Rol, Rotation, Put, Scattered, Pi, Rho, View;
    ghost var s := View(a);
    b := new Lane[5, 5]((_, _) => Zero());
    ScatterStarts(s, View(b));
    for x := 0 to 5
      invariant View(a) == s && Scattered(s, View(b), x, 0)
    {
      for y := 0 to 5
        invariant View(a) == s && Scattered(s, View(b), x, y)
      {
        ScatterNext(s, View(b), x, y);
        Store(b, y, (2 * x + 3 * y) % 5, Rol(a[x, y], Rotation(x, y)));
      }
      NextSheet(s, View(b), x);
    }
    ScatterDone(s, View(b));
  }

  lemma ScatterStarts(s: State, t: State)
    ensures Scattered(s, t, 0, 0)
  {
  }

  lemma NextSheet(s: State, t: State, x: nat)
    requires Scattered(s, t, x, 5)
    ensures Scattered(s, t, x + 1, 0)
  {
  }

  ghost predicate Mixed(s: State, t: State, x: nat, y: nat) {
    forall u, v :: Earlier(u, v, x, y) ==> t[u][v] == ChiLane(s, u, v)
  }

  method ChiInto(a: array2<Lane>, b: array2<Lane>)
    requires FiveByFive(a) && FiveByFive(b) && a != b
    modifies a
    ensures View(a) == Chi(View(b)) && View(b) == old(View(b))
  {
    hide View, Mixed, Chi, ChiLane, Put;
    ghost var s := View(b);
    MixStarts(s, View(a));
    for x := 0 to 5
      invariant View(b) == s && Mixed(s, View(a), x, 0)
    {
      for y := 0 to 5
        invariant View(b) == s && Mixed(s, View(a), x, y)
      {
        MixNext(s, View(a), x, y);
        ChiLaneAt(s, x, y);
        Store(a, x, y, Xor(b[x, y], AndNot(b[(x + 1) % 5, y], b[(x + 2) % 5, y])));
      }
      NextMixed(s, View(a), x);
    }
    MixDone(s, View(a));
  }

  lemma ChiLaneAt(s: State, x: nat, y: nat)
    requires x < 5 && y < 5
    ensures ChiLane(s, x, y) == Xor(s[x][y], AndNot(s[(x + 1) % 5][y], s[(x + 2) % 5][y]))
  {
  }

  lemma MixStarts(s: State, t: State)
    ensures Mixed(s, t, 0, 0)
  {
  }

  lemma MixNext(s: State, t: State, x: nat, y: nat)
    requires x < 5 && y < 5 && Mixed(s, t, x, y)
    ensures Mixed(s, Put(t, x, y, ChiLane(s, x, y)), x, y + 1)
  {
    hide ChiLane;
  }

  lemma NextMixed(s: State, t: State, x: nat)
    requires Mixed(s, t, x, 5)
    ensures Mixed(s, t, x + 1, 0)
  {
  }

  lemma MixDone(s: State, t: State)
    requires Mixed(s, t, 5, 0)
    ensures t == Chi(s)
  {
    hide ChiLane;
    forall u, v | 0 <= u < 5 && 0 <= v < 5 ensures t[u][v] == Chi(s)[u][v] {
      assert Earlier(u, v, 5, 0);
    }
    SameState(t, Chi(s));
  }

  /** `_keccak_f`: 24 rounds in place. */
  method KeccakF(a: array2<Lane>)
    requires FiveByFive(a)
    modifies a
    ensures View(a) == Keccak(old(View(a)))
  {
    hide Theta, Rho, Pi, Chi, Iota, ToLane, View;
    for round := 0 to 24
      invariant View(a) == Rounds(old(View(a)), round)
    {
      ThetaInPlace(a);
      var b := Scatter(a);
      ChiInto(a, b);
      IotaPut(View(a), ToLane(RC[round]));
      Store(a, 0, 0, Xor(a[0, 0], ToLane(RC[round])));
    }
  }

  lemma IotaPut(s: State, rc: Lane)
    ensures Put(s, 0, 0, Xor(s[0][0], rc)) == Iota(s, rc)
  {
    SameState(Put(s, 0, 0, Xor(s[0][0], rc)), Iota(s, rc));
  }
}
