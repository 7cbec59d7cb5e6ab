/**
  * Every step of the permutation is invertible, so states that differ never meet.
  */
module KeccakPermutation {

  import opened KeccakLanes
  import opened KeccakRounds

  // ----- The steps, bit by bit ---------------------------------------------

  /** Bit (x, y, z), coordinates modulo 5, 5 and 64. */
  function Bit(s: State, x: int, y: int, z: int): bool { At(s, x, y)[z % 64] }

  function ColumnBit(s: State, x: int, z: int): bool {
    ((((Bit(s, x, 0, z) != Bit(s, x, 1, z)) != Bit(s, x, 2, z)) != Bit(s, x, 3, z)) != Bit(s, x, 4, z))
  }

  lemma ModShift(x: int, k: int)
    ensures (x % 5 + k) % 5 == (x + k) % 5
  {
  }

  /** Coordinates may be reduced before or after they are moved. */
  lemma AtShift(s: State, x: int, y: int, k: int, l: int)
    ensures At(s, x % 5 + k, y % 5 + l) == At(s, x + k, y + l)
  {
    ModShift(x, k);
    ModShift(y, l);
  }

  lemma ColShift(c: Plane, x: int, k: int)
    ensures Col(c, x % 5 + k) == Col(c, x + k)
  {
    ModShift(x, k);
  }

  lemma ParityAt(s: State, x: int)
    ensures Col(Parity(s), x)
         == Xor(Xor(Xor(Xor(At(s, x, 0), At(s, x, 1)), At(s, x, 2)), At(s, x, 3)), At(s, x, 4))
  {
    hide Xor;
    var i := x % 5;
    assert Parity(s)[i]
        == Xor(Xor(Xor(Xor(At(s, i, 0), At(s, i, 1)), At(s, i, 2)), At(s, i, 3)), At(s, i, 4));
  }

  lemma EffectAt(c: Plane, x: int)
    ensures Col(Effect(c), x) == Xor(Col(c, x - 1), Rol(Col(c, x + 1), 1))
  {
    hide Xor, Rol;
    var i := x % 5;
    assert Effect(c)[i] == Xor(Col(c, i - 1), Rol(Col(c, i + 1), 1));
    ColShift(c, x, -1);
    ColShift(c, x, 1);
  }

  /** A state made with one plane added to every lane of its sheet. */
  function Shift(s: State, e: Plane): State { Make((x, y) => Xor(At(s, x, y), Col(e, x))) }

  lemma ShiftAt(s: State, e: Plane, x: int, y: int)
    ensures At(Shift(s, e), x, y) == Xor(At(s, x, y), Col(e, x))
  {
    hide Xor;
    var i, j := x % 5, y % 5;
    assert Shift(s, e)[i][j] == Xor(At(s, i, j), Col(e, i));
    ColShift(e, x, 0);
    AtShift(s, x, y, 0, 0);
  }

  lemma ThetaIsShift(s: State)
    ensures Theta(s) == Shift(s, Effect(Parity(s)))
  {
    hide Effect, Parity, Xor, At, Col;
    SameState(Theta(s), Shift(s, Effect(Parity(s))));
  }

  lemma ParityBit(s: State, x: int, z: int)
    ensures Col(Parity(s), x)[z % 64] == ColumnBit(s, x, z)
  {
    hide Parity, Col, At;
    ParityAt(s, x);
  }

  /** Section 3.2.1 of FIPS 202. */
  lemma ThetaBits(s: State, x: int, y: int, z: int)
    ensures Bit(Theta(s), x, y, z)
         == (Bit(s, x, y, z) != (ColumnBit(s, x - 1, z) != ColumnBit(s, x + 1, z - 1)))
  {
    hide Theta, Shift, Effect, Parity, ColumnBit, Rol, At, Col;
    var c := Parity(s);
    ThetaIsShift(s);
    ShiftAt(s, Effect(c), x, y);
    EffectAt(c, x);
    ParityBit(s, x - 1, z);
    ParityBit(s, x + 1, z - 1);
    RolBit(Col(c, x + 1), 1, z);
  }

  lemma RhoMade(s: State, i: int, j: int)
    requires 0 <= i < 5 && 0 <= j < 5
    ensures Rho(s)[i][j] == Rol(At(s, i, j), Rotation(i, j))
  {
    hide Rol, At, Rotation;
  }

  lemma RotationReduced(x: int, y: int)
    ensures Rotation(x % 5, y % 5) == Rotation(x, y)
  {
  }

  lemma Reduced(s: State, x: int, y: int)
    ensures At(s, x, y) == s[x % 5][y % 5]
  {
  }

  lemma RhoAt(s: State, x: int, y: int)
    ensures At(Rho(s), x, y) == Rol(At(s, x, y), Rotation(x, y))
  {
    hide Rol, At, Rho, Rotation;
    Reduced(Rho(s), x, y);
    RhoMade(s, x % 5, y % 5);
    RotationReduced(x, y);
    AtShift(s, x, y, 0, 0);
  }

  /** Section 3.2.2. */
  lemma RhoBits(s: State, x: int, y: int, z: int)
    ensures Bit(Rho(s), x, y, z) == Bit(s, x, y, z - Rotation(x, y))
  {
    hide Rol, Rho, At, Rotation;
    RhoAt(s, x, y);
    RolBit(At(s, x, y), Rotation(x, y), z);
  }

  lemma PiMod(x: int, y: int)
    ensures (x % 5 + 3 * (y % 5)) % 5 == (x + 3 * y) % 5
  {
    var q, r := x / 5, y / 5;
    assert x % 5 + 3 * (y % 5) == (x + 3 * y) + 5 * (-q - 3 * r);
    var a := x + 3 * y;
    Remainder(a + 5 * (-q - 3 * r), a / 5 - q - 3 * r, a % 5);
  }

  /** Section 3.2.3. */
  lemma PiBits(s: State, x: int, y: int, z: int)
    ensures Bit(Pi(s), x, y, z) == Bit(s, x + 3 * y, x, z)
  {
    var i, j := x % 5, y % 5;
    assert Pi(s)[i][j] == At(s, i + 3 * j, i);
    PiMod(x, y);
  }

  /** Section 3.2.4. */
  lemma ChiBits(s: State, x: int, y: int, z: int)
    ensures Bit(Chi(s), x, y, z)
         == (Bit(s, x, y, z) != (!Bit(s, x + 1, y, z) && Bit(s, x + 2, y, z)))
  {
    hide Chi, At;
    ChiRow(s, x, y);
  }

  // ----- Rho, pi, chi and iota ---------------------------------------------

  function RhoInverse(s: State): State {
    Make((x, y) => Rol(At(s, x, y), (64 - Rotation(x, y)) % 64))
  }

  lemma RhoInverts(s: State)
    ensures RhoInverse(Rho(s)) == s && Rho(RhoInverse(s)) == s
  {
    hide Rol, Rho, RhoInverse, At, Rotation;
    forall x, y | 0 <= x < 5 && 0 <= y < 5
      ensures RhoInverse(Rho(s))[x][y] == s[x][y] && Rho(RhoInverse(s))[x][y] == s[x][y]
    {
      var n := Rotation(x, y);
      RhoAt(s, x, y);
      RhoInverseAt(Rho(s), x, y);
      RhoInverseAt(s, x, y);
      RhoAt(RhoInverse(s), x, y);
      RolTurn(At(s, x, y), n, (64 - n) % 64);
      RolTurn(At(s, x, y), (64 - n) % 64, n);
      Direct(s, x, y);
      Direct(RhoInverse(Rho(s)), x, y);
      Direct(Rho(RhoInverse(s)), x, y);
    }
    SameState(RhoInverse(Rho(s)), s);
    SameState(Rho(RhoInverse(s)), s);
  }

  lemma Direct(s: State, x: int, y: int)
    requires 0 <= x < 5 && 0 <= y < 5
    ensures At(s, x, y) == s[x][y]
  {
  }

  lemma RhoInverseMade(s: State, i: int, j: int)
    requires 0 <= i < 5 && 0 <= j < 5
    ensures RhoInverse(s)[i][j] == Rol(At(s, i, j), (64 - Rotation(i, j)) % 64)
  {
    hide Rol, At, Rotation;
  }

  lemma RhoInverseAt(s: State, x: int, y: int)
    ensures At(RhoInverse(s), x, y) == Rol(At(s, x, y), (64 - Rotation(x, y)) % 64)
  {
    hide Rol, At, RhoInverse, Rotation;
    Reduced(RhoInverse(s), x, y);
    RhoInverseMade(s, x % 5, y % 5);
    RotationReduced(x, y);
    AtShift(s, x, y, 0, 0);
  }

  function PiInverse(s: State): State { Make((x, y) => At(s, y, 2 * x + 3 * y)) }

  lemma PiInverts(s: State)
    ensures PiInverse(Pi(s)) == s && Pi(PiInverse(s)) == s
  {
    hide Source, Target;
    forall x, y | 0 <= x < 5 && 0 <= y < 5
      ensures PiInverse(Pi(s))[x][y] == s[x][y] && Pi(PiInverse(s))[x][y] == s[x][y]
    {
      PiThere(s, x, y);
      PiBack(s, x, y);
    }
    SameState(PiInverse(Pi(s)), s);
    SameState(Pi(PiInverse(s)), s);
  }

  lemma PiMade(s: State, i: nat, j: nat)
    requires i < 5 && j < 5
    ensures Pi(s)[i][j] == s[(i + 3 * j) % 5][i]
    ensures PiInverse(s)[i][j] == s[j][(2 * i + 3 * j) % 5]
  {
  }

  lemma PiThere(s: State, x: nat, y: nat)
    requires x < 5 && y < 5
    ensures PiInverse(Pi(s))[x][y] == s[x][y]
  {
    hide Pi, PiInverse;
    PiMade(Pi(s), x, y);
    PiMade(s, y, (2 * x + 3 * y) % 5);
    ScatterOnce(x, y);
  }

  lemma PiBack(s: State, x: nat, y: nat)
    requires x < 5 && y < 5
    ensures Pi(PiInverse(s))[x][y] == s[x][y]
  {
    hide Pi, PiInverse;
    PiMade(PiInverse(s), x, y);
    PiMade(s, (x + 3 * y) % 5, x);
    ScatterOnce(x, y);
  }

  /** The inverse of chi on the five lanes of a row. */
  function Unmix(b0: Lane, b1: Lane, b2: Lane, b3: Lane, b4: Lane): Lane {
    Xor(b0, AndNot(b1, Xor(b2, AndNot(b3, b4))))
  }

  function Mix(a0: Lane, a1: Lane, a2: Lane): Lane { Xor(a0, AndNot(a1, a2)) }

  lemma RowUnmixed(a0: Lane, a1: Lane, a2: Lane, a3: Lane, a4: Lane)
    ensures Unmix(Mix(a0, a1, a2), Mix(a1, a2, a3), Mix(a2, a3, a4), Mix(a3, a4, a0), Mix(a4, a0, a1)) == a0
    ensures Mix(Unmix(a0, a1, a2, a3, a4), Unmix(a1, a2, a3, a4, a0), Unmix(a2, a3, a4, a0, a1)) == a0
  {
  }

  function ChiInverse(s: State): State {
    Make((x, y) => Unmix(At(s, x, y), At(s, x + 1, y), At(s, x + 2, y), At(s, x + 3, y), At(s, x + 4, y)))
  }

  lemma ChiRow(s: State, x: int, y: int)
    ensures At(Chi(s), x, y) == Mix(At(s, x, y), At(s, x + 1, y), At(s, x + 2, y))
  {
    hide Xor, AndNot;
    var i, j := x % 5, y % 5;
    assert Chi(s)[i][j] == ChiLane(s, i, j);
    AtShift(s, x, y, 0, 0);
    AtShift(s, x, y, 1, 0);
    AtShift(s, x, y, 2, 0);
  }

  lemma ChiInverseMade(s: State, i: int, j: int)
    requires 0 <= i < 5 && 0 <= j < 5
    ensures ChiInverse(s)[i][j]
         == Unmix(At(s, i, j), At(s, i + 1, j), At(s, i + 2, j), At(s, i + 3, j), At(s, i + 4, j))
  {
    hide Unmix, At;
  }

  lemma UnchiRow(s: State, x: int, y: int)
    ensures At(ChiInverse(s), x, y)
         == Unmix(At(s, x, y), At(s, x + 1, y), At(s, x + 2, y), At(s, x + 3, y), At(s, x + 4, y))
  {
    hide Unmix, At, ChiInverse;
    Reduced(ChiInverse(s), x, y);
    ChiInverseMade(s, x % 5, y % 5);
    AtShift(s, x, y, 0, 0);
    AtShift(s, x, y, 1, 0);
    AtShift(s, x, y, 2, 0);
    AtShift(s, x, y, 3, 0);
    AtShift(s, x, y, 4, 0);
  }

  lemma ChiInverts(s: State)
    ensures ChiInverse(Chi(s)) == s && Chi(ChiInverse(s)) == s
  {
    hide Chi, ChiInverse, Mix, Unmix;
    forall x, y | 0 <= x < 5 && 0 <= y < 5
      ensures ChiInverse(Chi(s))[x][y] == s[x][y] && Chi(ChiInverse(s))[x][y] == s[x][y]
    {
      ChiThere(s, x, y);
      ChiBack(s, x, y);
    }
    SameState(ChiInverse(Chi(s)), s);
    SameState(Chi(ChiInverse(s)), s);
  }

  /** Coordinates beyond 4 are the ones five below. */
  lemma Wrap(s: State, x: int, y: int)
    ensures At(s, x + 5, y) == At(s, x, y)
  {
  }

  lemma ChiThere(s: State, x: int, y: int)
    ensures At(ChiInverse(Chi(s)), x, y) == At(s, x, y)
  {
    hide Chi, ChiInverse, Mix, Unmix, At;
    UnchiRow(Chi(s), x, y);
    ChiRow(s, x, y);
    ChiRow(s, x + 1, y);
    ChiRow(s, x + 2, y);
    ChiRow(s, x + 3, y);
    ChiRow(s, x + 4, y);
    Wrap(s, x, y);
    Wrap(s, x + 1, y);
    RowUnmixed(At(s, x, y), At(s, x + 1, y), At(s, x + 2, y), At(s, x + 3, y), At(s, x + 4, y));
  }

  lemma ChiBack(s: State, x: int, y: int)
    ensures At(Chi(ChiInverse(s)), x, y) == At(s, x, y)
  {
    hide Chi, ChiInverse, Mix, Unmix, At;
    ChiRow(ChiInverse(s), x, y);
    UnchiRow(s, x, y);
    UnchiRow(s, x + 1, y);
    UnchiRow(s, x + 2, y);
    Wrap(s, x, y);
    Wrap(s, x + 1, y);
    RowUnmixed(At(s, x, y), At(s, x + 1, y), At(s, x + 2, y), At(s, x + 3, y), At(s, x + 4, y));
  }

  lemma XorTwice(a: Lane, b: Lane)
    ensures Xor(Xor(a, b), b) == a
  {
  }

  lemma IotaMade(s: State, rc: Lane, x: int, y: int)
    requires 0 <= x < 5 && 0 <= y < 5
    ensures Iota(s, rc)[x][y] == if x == 0 && y == 0 then Xor(s[0][0], rc) else s[x][y]
  {
    hide Xor;
  }

  lemma IotaInverts(s: State, rc: Lane)
    ensures Iota(Iota(s, rc), rc) == s
  {
    hide Xor, Iota;
    XorTwice(s[0][0], rc);
    forall x, y | 0 <= x < 5 && 0 <= y < 5 ensures Iota(Iota(s, rc), rc)[x][y] == s[x][y] {
      IotaMade(s, rc, x, y);
      IotaMade(Iota(s, rc), rc, x, y);
      IotaMade(s, rc, 0, 0);
    }
    SameState(Iota(Iota(s, rc), rc), s);
  }

  // ----- Theta -------------------------------------------------------------

  function PlaneBit(c: Plane, x: int, z: int): bool { Col(c, x)[z % 64] }

  lemma SamePlane(c: Plane, d: Plane)
    requires forall x, z :: 0 <= x < 5 && 0 <= z < 64 ==> PlaneBit(c, x, z) == PlaneBit(d, x, z)
    ensures c == d
  {
    forall x | 0 <= x < 5 ensures c[x] == d[x] {
      forall z | 0 <= z < 64 ensures c[x][z] == d[x][z] {
        assert PlaneBit(c, x, z) == PlaneBit(d, x, z);
      }
    }
  }

  /** The plane plus itself `i` sheets on plus itself `j` sheets and `k` bits on. */
  function Spread(c: Plane, i: int, j: int, k: nat): Plane
    requires k < 64
  {
    MakePlane(x => SpreadLane(c, i, j, k, x))
  }

  function SpreadLane(c: Plane, i: int, j: int, k: nat, x: int): Lane
    requires k < 64
  {
    Xor(Xor(Col(c, x), Col(c, x - i)), Rol(Col(c, x - j), k))
  }

  lemma SpreadMade(c: Plane, i: int, j: int, k: nat, x: int)
    requires k < 64
    ensures Col(Spread(c, i, j, k), x) == SpreadLane(c, i, j, k, x % 5)
  {
    hide SpreadLane;
  }

  lemma SpreadAt(c: Plane, i: int, j: int, k: nat, x: int)
    requires k < 64
    ensures Col(Spread(c, i, j, k), x) == Xor(Xor(Col(c, x), Col(c, x - i)), Rol(Col(c, x - j), k))
  {
    hide Rol, Xor, Spread, Col;
    SpreadMade(c, i, j, k, x);
    ColShift(c, x, 0);
    ColShift(c, x, -i);
    ColShift(c, x, -j);
  }

  lemma SpreadBit(c: Plane, i: int, j: int, k: nat, x: int, z: int)
    requires k < 64
    ensures PlaneBit(Spread(c, i, j, k), x, z)
         == ((PlaneBit(c, x, z) != PlaneBit(c, x - i, z)) != PlaneBit(c, x - j, z - k))
  {
    hide Rol, Col, Spread;
    SpreadAt(c, i, j, k, x);
    RolBit(Col(c, x - j), k, z);
  }

  /** Spreading twice doubles the three offsets: the cross terms cancel. */
  lemma SpreadTwice(c: Plane, i: int, j: int, k: nat, k2: nat)
    requires k < 64 && k2 == (2 * k) % 64
    ensures Spread(Spread(c, i, j, k), i, j, k) == Spread(c, 2 * i, 2 * j, k2)
  {
    hide Spread, PlaneBit;
    var d := Spread(c, i, j, k);
    forall x, z | 0 <= x < 5 && 0 <= z < 64
      ensures PlaneBit(Spread(d, i, j, k), x, z) == PlaneBit(Spread(c, 2 * i, 2 * j, k2), x, z)
    {
      SpreadBit(d, i, j, k, x, z);
      SpreadBit(c, i, j, k, x, z);
      SpreadBit(c, i, j, k, x - i, z);
      SpreadBit(c, i, j, k, x - j, z - k);
      SpreadBit(c, 2 * i, 2 * j, k2, x, z);
      assert PlaneBit(c, x - 2 * j, z - 2 * k) == PlaneBit(c, x - 2 * j, z - k2) by { Turn(c, x - 2 * j, z, k, k2); }
    }
    SamePlane(Spread(d, i, j, k), Spread(c, 2 * i, 2 * j, k2));
  }

  lemma Turn(c: Plane, x: int, z: int, k: nat, k2: nat)
    requires k < 64 && k2 == (2 * k) % 64
    ensures PlaneBit(c, x, z - 2 * k) == PlaneBit(c, x, z - k2)
  {
    assert (z - 2 * k) % 64 == (z - k2) % 64;
  }

  lemma Around(c: Plane, x: int, z: int, n: int)
    ensures PlaneBit(c, x - 5 * n, z) == PlaneBit(c, x, z)
  {
    assert (x - 5 * n) % 5 == x % 5 by { ModShift(x - 5 * n, 0); Remainder(x - 5 * n, x / 5 - n, x % 5); }
  }

  /** After six doublings no bit offset is left, and three such spreads are none. */
  lemma ThreeSpreads(c: Plane)
    ensures Spread(Spread(Spread(c, 64, 256, 0), 64, 256, 0), 64, 256, 0) == c
  {
    hide Spread, PlaneBit;
    SpreadTwice(c, 64, 256, 0, 0);
    var d := Spread(c, 128, 512, 0);
    var q := Spread(c, 64, 256, 0);
    assert Spread(q, 64, 256, 0) == d;
    forall x, z | 0 <= x < 5 && 0 <= z < 64
      ensures PlaneBit(Spread(d, 64, 256, 0), x, z) == PlaneBit(c, x, z)
    {
      SpreadBit(d, 64, 256, 0, x, z);
      SpreadBit(c, 128, 512, 0, x, z);
      SpreadBit(c, 128, 512, 0, x - 64, z);
      SpreadBit(c, 128, 512, 0, x - 256, z);
      // Nine bits, eight of which fall on the same sheets in pairs.
      Around(c, x - 3, z, 25);    // x - 128
      Around(c, x - 2, z, 102);   // x - 512
      Around(c, x - 4, z, 12);    // x - 64
      Around(c, x - 2, z, 38);    // x - 192
      Around(c, x - 1, z, 115);   // x - 576
      Around(c, x - 1, z, 51);    // x - 256
      Around(c, x - 4, z, 76);    // x - 384
      Around(c, x - 3, z, 153);   // x - 768
    }
    SamePlane(Spread(d, 64, 256, 0), c);
  }

  /** What theta does to the parities. */
  function Column(c: Plane): Plane { Spread(c, 1, 4, 1) }

  /** Its inverse. */
  function Uncolumn(c: Plane): Plane {
    Spread(Spread(Spread(Spread(Spread(Spread(
      Spread(Spread(c, 64, 256, 0), 64, 256, 0),
      32, 128, 32), 16, 64, 16), 8, 32, 8), 4, 16, 4), 2, 8, 2), 1, 4, 1)
  }

  lemma ColumnOfUncolumn(c: Plane)
    ensures Column(Uncolumn(c)) == c
  {
    hide Spread;
    var q := Spread(Spread(c, 64, 256, 0), 64, 256, 0);
    var p5 := Spread(q, 32, 128, 32);
    var p4 := Spread(p5, 16, 64, 16);
    var p3 := Spread(p4, 8, 32, 8);
    var p2 := Spread(p3, 4, 16, 4);
    var p1 := Spread(p2, 2, 8, 2);
    SpreadTwice(p1, 1, 4, 1, 2);
    SpreadTwice(p2, 2, 8, 2, 4);
    SpreadTwice(p3, 4, 16, 4, 8);
    SpreadTwice(p4, 8, 32, 8, 16);
    SpreadTwice(p5, 16, 64, 16, 32);
    SpreadTwice(q, 32, 128, 32, 0);
    ThreeSpreads(c);
  }

  lemma DoubledAgree(c: Plane, d: Plane, i: int, j: int, k: nat, k2: nat)
    requires k < 64 && k2 == (2 * k) % 64
    requires Spread(c, i, j, k) == Spread(d, i, j, k)
    ensures Spread(c, 2 * i, 2 * j, k2) == Spread(d, 2 * i, 2 * j, k2)
  {
    hide Spread;
    SpreadTwice(c, i, j, k, k2);
    SpreadTwice(d, i, j, k, k2);
  }

  lemma ColumnInjective(c: Plane, d: Plane)
    requires Column(c) == Column(d)
    ensures c == d
  {
    hide Spread;
    DoubledAgree(c, d, 1, 4, 1, 2);
    DoubledAgree(c, d, 2, 8, 2, 4);
    DoubledAgree(c, d, 4, 16, 4, 8);
    DoubledAgree(c, d, 8, 32, 8, 16);
    DoubledAgree(c, d, 16, 64, 16, 32);
    DoubledAgree(c, d, 32, 128, 32, 0);
    ThreeSpreads(c);
    ThreeSpreads(d);
  }

  lemma UncolumnOfColumn(c: Plane)
    ensures Uncolumn(Column(c)) == c
  {
    hide Column, Uncolumn;
    ColumnOfUncolumn(Column(c));
    ColumnInjective(Uncolumn(Column(c)), c);
  }

  function PlaneXor(c: Plane, e: Plane): Plane { MakePlane(x => Xor(Col(c, x), Col(e, x))) }

  lemma ShiftTwice(s: State, e: Plane)
    ensures Shift(Shift(s, e), e) == s
  {
    hide Xor, Shift, At, Col;
    forall x, y | 0 <= x < 5 && 0 <= y < 5 ensures Shift(Shift(s, e), e)[x][y] == s[x][y] {
      ShiftAt(s, e, x, y);
      ShiftAt(Shift(s, e), e, x, y);
      XorTwice(At(s, x, y), Col(e, x));
      Direct(s, x, y);
      Direct(Shift(Shift(s, e), e), x, y);
    }
    SameState(Shift(Shift(s, e), e), s);
  }

  lemma XorFive(a: Lane, b: Lane, c: Lane, d: Lane, f: Lane, e: Lane)
    ensures Xor(Xor(Xor(Xor(Xor(a, e), Xor(b, e)), Xor(c, e)), Xor(d, e)), Xor(f, e))
         == Xor(Xor(Xor(Xor(Xor(a, b), c), d), f), e)
  {
  }

  lemma ParityShifts(s: State, e: Plane)
    ensures Parity(Shift(s, e)) == PlaneXor(Parity(s), e)
  {
    hide Xor, Shift, At, Col, Parity;
    var t := Shift(s, e);
    forall x | 0 <= x < 5 ensures Parity(t)[x] == PlaneXor(Parity(s), e)[x] {
      ParityAt(t, x);
      ParityAt(s, x);
      ShiftAt(s, e, x, 0);
      ShiftAt(s, e, x, 1);
      ShiftAt(s, e, x, 2);
      ShiftAt(s, e, x, 3);
      ShiftAt(s, e, x, 4);
      XorFive(At(s, x, 0), At(s, x, 1), At(s, x, 2), At(s, x, 3), At(s, x, 4), Col(e, x));
      DirectCol(Parity(t), x);
    }
  }

  lemma DirectCol(c: Plane, x: int)
    requires 0 <= x < 5
    ensures Col(c, x) == c[x]
  {
  }

  lemma XorMoves(a: Lane, b: Lane, c: Lane)
    ensures Xor(Xor(a, b), c) == Xor(a, Xor(b, c))
  {
  }

  lemma ColumnIsXor(c: Plane)
    ensures Column(c) == PlaneXor(c, Effect(c))
  {
    hide Xor, Rol, Spread, Effect, Col;
    forall x | 0 <= x < 5 ensures Column(c)[x] == PlaneXor(c, Effect(c))[x] {
      SpreadAt(c, 1, 4, 1, x);
      EffectAt(c, x);
      FourBack(c, x);
      XorMoves(Col(c, x), Col(c, x - 1), Rol(Col(c, x + 1), 1));
      DirectCol(Column(c), x);
    }
  }

  lemma FourBack(c: Plane, x: int)
    ensures Col(c, x - 4) == Col(c, x + 1)
  {
    assert (x - 4) % 5 == (x + 1) % 5;
  }

  lemma PlaneXorAt(c: Plane, e: Plane, x: int)
    requires 0 <= x < 5
    ensures PlaneXor(c, e)[x] == Xor(c[x], e[x])
  {
    hide Xor;
  }

  lemma PlaneXorTwice(c: Plane, e: Plane)
    ensures PlaneXor(PlaneXor(c, e), e) == c
  {
    hide Xor, PlaneXor;
    forall x | 0 <= x < 5 ensures PlaneXor(PlaneXor(c, e), e)[x] == c[x] {
      PlaneXorAt(c, e, x);
      PlaneXorAt(PlaneXor(c, e), e, x);
      XorTwice(c[x], e[x]);
    }
  }

  function ThetaInverse(s: State): State { Shift(s, Effect(Uncolumn(Parity(s)))) }

  lemma ThetaInverts(s: State)
    ensures ThetaInverse(Theta(s)) == s && Theta(ThetaInverse(s)) == s
  {
    hide Shift, Effect, Parity, Column, Uncolumn, PlaneXor, Theta;
    var c := Parity(s);
    ThetaIsShift(s);
    ParityShifts(s, Effect(c));
    ColumnIsXor(c);
    UncolumnOfColumn(c);
    ShiftTwice(s, Effect(c));
    var p := Uncolumn(c);
    var t := ThetaInverse(s);
    ColumnOfUncolumn(c);
    ColumnIsXor(p);
    ParityShifts(s, Effect(p));
    PlaneXorTwice(p, Effect(p));
    ThetaIsShift(t);
    ShiftTwice(s, Effect(p));
  }

  // ----- The whole permutation ---------------------------------------------

  function RoundInverse(s: State, rc: Lane): State {
    ThetaInverse(RhoInverse(PiInverse(ChiInverse(Iota(s, rc)))))
  }

  lemma RoundInverts(s: State, rc: Lane)
    ensures RoundInverse(Round(s, rc), rc) == s && Round(RoundInverse(s, rc), rc) == s
  {
    hide Theta, Rho, Pi, Chi, Iota, ThetaInverse, RhoInverse, PiInverse, ChiInverse;
    var t := Theta(s);
    ThetaInverts(s);
    RhoInverts(t);
    PiInverts(Rho(t));
    ChiInverts(Pi(Rho(t)));
    IotaInverts(Chi(Pi(Rho(t))), rc);
    var u := Iota(s, rc);
    IotaInverts(s, rc);
    ChiInverts(u);
    PiInverts(ChiInverse(u));
    RhoInverts(PiInverse(ChiInverse(u)));
    ThetaInverts(RhoInverse(PiInverse(ChiInverse(u))));
  }

  /** The last `n` rounds undone, last one first. */
  function Unrounds(s: State, n: nat): State
    requires n <= 24
    decreases n
  {
    if n == 0 then s else Unrounds(RoundInverse(s, ToLane(RC[n - 1])), n - 1)
  }

  lemma {:induction false} RoundsInvert(s: State, n: nat)
    requires n <= 24
    ensures Unrounds(Rounds(s, n), n) == s && Rounds(Unrounds(s, n), n) == s
    decreases n
  {
    hide Round, RoundInverse, ToLane;
    if n > 0 {
      var rc := ToLane(RC[n - 1]);
      RoundInverts(Rounds(s, n - 1), rc);
      RoundsInvert(s, n - 1);
      RoundInverts(s, rc);
      RoundsInvert(RoundInverse(s, rc), n - 1);
    }
  }

  /** Keccak-f is a permutation: it is undone, and every state is reached. */
  lemma KeccakIsPermutation(s: State)
    ensures Unrounds(Keccak(s), 24) == s && Keccak(Unrounds(s, 24)) == s
  {
    hide Rounds, Unrounds;
    RoundsInvert(s, 24);
  }

  lemma KeccakInjective(s: State, t: State)
    requires Keccak(s) == Keccak(t)
    ensures s == t
  {
    hide Keccak, Unrounds;
    KeccakIsPermutation(s);
    KeccakIsPermutation(t);
  }
}
