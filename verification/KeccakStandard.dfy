/**
  * Keccak-256 on strings of bits, as FIPS 202 and the Keccak reference define it, and that
  * `keccak256` (scripts/check_deployed_code.py) computes it.
  */
module KeccakStandard {

  import opened KeccakLanes
  import opened KeccakRounds
  import opened KeccakPermutation
  import opened KeccakConstants
  import opened KeccakSponge

  // ----- The state array, section 3.1.2 ------------------------------------

  type Bits1600 = s: Bits | |s| == 1600 witness seq(1600, _ => false)

  /** A[x, y, z], coordinates modulo 5, 5 and 64. */
  function Get(s: Bits1600, x: int, y: int, z: int): bool { s[64 * (5 * (y % 5) + x % 5) + z % 64] }

  predicate InRange(x: int, y: int, z: int) { 0 <= x < 5 && 0 <= y < 5 && 0 <= z < 64 }

  // ----- The steps, section 3.2 --------------------------------------------

  function One(b: bool): nat { if b then 1 else 0 }

  /** An odd number of the column's bits are set. */
  predicate ColumnSum(s: Bits1600, x: int, z: int) {
    (One(Get(s, x, 0, z)) + One(Get(s, x, 1, z)) + One(Get(s, x, 2, z)) + One(Get(s, x, 3, z)) + One(Get(s, x, 4, z)))
    % 2 == 1
  }

  ghost predicate IsTheta(s: Bits1600, t: Bits1600) {
    forall x, y, z :: InRange(x, y, z) ==>
      Get(t, x, y, z) == (Get(s, x, y, z) != (ColumnSum(s, x - 1, z) != ColumnSum(s, x + 1, z - 1)))
  }

  /** The lane at (0, 0) stays; along the walk the offsets are the triangular numbers. */
  ghost predicate IsRho(s: Bits1600, t: Bits1600) {
    && (forall z :: InRange(0, 0, z) ==> Get(t, 0, 0, z) == Get(s, 0, 0, z))
    && (forall n: nat, z :: n < 24 && InRange(0, 0, z) ==>
          Get(t, Walk(n).0, Walk(n).1, z) == Get(s, Walk(n).0, Walk(n).1, z - (n + 1) * (n + 2) / 2))
  }

  ghost predicate IsPi(s: Bits1600, t: Bits1600) {
    forall x, y, z :: InRange(x, y, z) ==> Get(t, x, y, z) == Get(s, x + 3 * y, x, z)
  }

  ghost predicate IsChi(s: Bits1600, t: Bits1600) {
    forall x, y, z :: InRange(x, y, z) ==>
      Get(t, x, y, z) == (Get(s, x, y, z) != (!Get(s, x + 1, y, z) && Get(s, x + 2, y, z)))
  }

  /** Bit 2^j - 1 of the round constant is the register's first bit after j + 7i turns from 1. */
  function ConstantBit(i: nat, z: int): bool {
    match z
    case 0 => Turns(1, 7 * i) & 1 == 1
    case 1 => Turns(1, 7 * i + 1) & 1 == 1
    case 3 => Turns(1, 7 * i + 2) & 1 == 1
    case 7 => Turns(1, 7 * i + 3) & 1 == 1
    case 15 => Turns(1, 7 * i + 4) & 1 == 1
    case 31 => Turns(1, 7 * i + 5) & 1 == 1
    case 63 => Turns(1, 7 * i + 6) & 1 == 1
    case _ => false
  }

  ghost predicate IsIota(s: Bits1600, t: Bits1600, i: nat) {
    forall x, y, z :: InRange(x, y, z) ==>
      Get(t, x, y, z) == (Get(s, x, y, z) != (x == 0 && y == 0 && ConstantBit(i, z)))
  }

  ghost predicate IsRound(s: Bits1600, t: Bits1600, i: nat) {
    exists a, b, c, d :: IsTheta(s, a) && IsRho(a, b) && IsPi(b, c) && IsChi(c, d) && IsIota(d, t, i)
  }

  /** 24 rounds, the first with constant 0. */
  ghost predicate IsKeccakF(s: Bits1600, t: Bits1600) {
    exists states: seq<Bits1600> ::
      && |states| == 25 && states[0] == s && states[24] == t
      && forall i :: 0 <= i < 24 ==> IsRound(states[i], states[i + 1], i)
  }

  // ----- The sponge, section 4, with the padding 10*1 ----------------------

  /** The message, a one, `j` zeros, a one. */
  function Marked(message: Bits, j: nat): Bits { message + [true] + seq(j, _ => false) + [true] }

  /** As few zeros as fill the last block of 1088 bits. */
  ghost predicate IsPadding(message: Bits, padded: Bits) {
    exists j: nat :: padded == Marked(message, j) && j < 1088 && |padded| % 1088 == 0
  }

  /** The block number `n` added to the first 1088 bits of the state. */
  predicate IsAdded(s: Bits1600, padded: Bits, n: nat, t: Bits1600)
    requires 1088 * (n + 1) <= |padded|
  {
    forall k :: 0 <= k < 1600 ==> t[k] == if k < 1088 then s[k] != padded[1088 * n + k] else s[k]
  }

  ghost predicate IsRead(s: Bits1600, padded: Bits, n: nat, t: Bits1600)
    requires 1088 * (n + 1) <= |padded|
  {
    exists added :: IsAdded(s, padded, n, added) && IsKeccakF(added, t)
  }

  /** From the state of zeros, the first `n` blocks one after the other. */
  ghost predicate IsAbsorbed(padded: Bits, n: nat, s: Bits1600)
    requires 1088 * n <= |padded|
  {
    exists states: seq<Bits1600> ::
      && |states| == n + 1 && states[n] == s && (forall k :: 0 <= k < 1600 ==> !states[0][k])
      && forall i :: 0 <= i < n ==> IsRead(states[i], padded, i, states[i + 1])
  }

  /** The first 256 bits of the state after all blocks. */
  ghost predicate IsKeccak256(message: Bits, digest: Bits) {
    exists padded, s: Bits1600 ::
      IsPadding(message, padded) && IsAbsorbed(padded, |padded| / 1088, s) && digest == s[..256]
  }

  // ----- From lanes to strings ---------------------------------------------

  function Str(s: State): (r: Bits1600)
    ensures forall k :: 0 <= k < 1600 ==> r[k] == s[k / 64 % 5][k / 320][k % 64]
  {
    seq(1600, k requires 0 <= k < 1600 => s[k / 64 % 5][k / 320][k % 64])
  }

  lemma GetStr(s: State, x: int, y: int, z: int)
    ensures Get(Str(s), x, y, z) == Bit(s, x, y, z)
  {
    var i, j, l := x % 5, y % 5, z % 64;
    var k := 64 * (5 * j + i) + l;
    assert k / 64 == 5 * j + i && k / 320 == j && k % 64 == l;
    assert (5 * j + i) % 5 == i;
  }

  /** The bits of bytes, each byte's lowest bit first. */
  function Flat(bytes: seq<Byte>): (r: Bits)
    ensures |r| == 8 * |bytes|
    ensures forall k :: 0 <= k < |r| ==> r[k] == bytes[k / 8][k % 8]
  {
    seq(8 * |bytes|, k requires 0 <= k < 8 * |bytes| => bytes[k / 8][k % 8])
  }

  // ----- Round constants ---------------------------------------------------

  /** The number whose bits these are, the lowest first. */
  function Number(b: Bits): nat { if b == [] then 0 else One(b[0]) + 2 * Number(b[1..]) }

  lemma Multiple(k: int, d: int)
    requires d > 0
    ensures k >= 1 ==> k * d >= d
    ensures k <= -1 ==> k * d <= -d
  {
    if k >= 1 { assert (k - 1) * d >= 0; }
    if k <= -1 { assert (-k - 1) * d >= 0; }
  }

  lemma Quotient(n: nat, q: nat, d: nat, r: nat)
    requires d > 0 && n == q * d + r && r < d
    ensures n / d == q
  {
    var a, b := n / d, n % d;
    assert n == a * d + b;
    Multiple(q - a, d);
    assert (q - a) * d == q * d - a * d;
  }

  lemma HalfOf(c: nat, m: nat, p: nat)
    requires c < 2 && p > 0
    ensures (c + 2 * m) / (2 * p) == m / p
  {
    var q, r := m / p, m % p;
    assert q * (2 * p) == 2 * (q * p);
    Quotient(c + 2 * m, q, 2 * p, c + 2 * r);
  }

  lemma {:induction false} BitOfNumber(b: Bits, z: nat)
    requires z < |b|
    ensures (Number(b) / Power(z)) % 2 == 1 <==> b[z]
  {
    if z > 0 {
      BitOfNumber(b[1..], z - 1);
      HalfOf(One(b[0]), Number(b[1..]), Power(z - 1));
    }
  }

  lemma LaneOfNumber(lane: Lane)
    ensures ToLane(Number(lane)) == lane
  {
    hide Number, Power;
    forall z | 0 <= z < 64 ensures ToLane(Number(lane))[z] == lane[z] { BitOfNumber(lane, z); }
  }

  lemma NextBit(b: Bits, a: nat)
    requires a < |b|
    ensures Number(b[a..]) == One(b[a]) + 2 * Number(b[a + 1..])
  {
    assert b[a..][1..] == b[a + 1..];
  }

  lemma Twice(p: nat, m: nat)
    ensures 2 * (p * m) == (2 * p) * m
  {
  }

  lemma {:induction false} NoBits(b: Bits, a: nat, n: nat)
    requires a + n <= |b| && forall k :: a <= k < a + n ==> !b[k]
    ensures Number(b[a..]) == Power(n) * Number(b[a + n..])
    decreases n
  {
    hide Number;
    if n > 0 {
      NextBit(b, a);
      NoBits(b, a + 1, n - 1);
      Twice(Power(n - 1), Number(b[a + n..]));
    }
  }

  lemma {:induction false} PowerAdds(a: nat, b: nat)
    ensures Power(a + b) == Power(a) * Power(b)
  {
    if a > 0 { PowerAdds(a - 1, b); }
  }

  lemma Powers()
    ensures Power(1) == 2 && Power(3) == 8 && Power(7) == 128 && Power(15) == 0x8000 && Power(31) == 0x80000000
  {
    assert Power(1) == 2;
    assert Power(3) == 8;
    hide Power;
    PowerAdds(3, 3);
    PowerAdds(6, 1);
    PowerAdds(7, 7);
    PowerAdds(14, 1);
    PowerAdds(15, 15);
    PowerAdds(30, 1);
  }

  /** The bits a register stands for, in their places. */
  function ConstantLane(r: Register): (lane: Lane)
    ensures forall z :: 0 <= z < 64 ==> lane[z] == RegisterBit(r, z)
  {
    seq(64, z requires 0 <= z < 64 => RegisterBit(r, z))
  }

  function RegisterBit(r: Register, z: int): bool {
    match z
    case 0 => Turns(r, 0) & 1 == 1
    case 1 => Turns(r, 1) & 1 == 1
    case 3 => Turns(r, 2) & 1 == 1
    case 7 => Turns(r, 3) & 1 == 1
    case 15 => Turns(r, 4) & 1 == 1
    case 31 => Turns(r, 5) & 1 == 1
    case 63 => Turns(r, 6) & 1 == 1
    case _ => false
  }

  lemma LowBits(b: Bits)
    requires |b| == 64
    requires !b[2] && forall z :: 4 <= z < 7 ==> !b[z]
    ensures Number(b) == One(b[0]) + 2 * One(b[1]) + 8 * One(b[3]) + 128 * Number(b[7..])
  {
    hide Number, Power;
    Powers();
    assert b[0..] == b;
    NextBit(b, 0);
    NextBit(b, 1);
    NoBits(b, 2, 1);
    NextBit(b, 3);
    NoBits(b, 4, 3);
  }

  lemma HighBits(b: Bits)
    requires |b| == 64
    requires forall z :: 8 <= z < 64 && z != 15 && z != 31 && z != 63 ==> !b[z]
    ensures Number(b[7..])
         == One(b[7]) + 0x100 * One(b[15]) + 0x1000000 * One(b[31]) + 0x100000000000000 * One(b[63])
  {
    hide Number, Power;
    Powers();
    NextBit(b, 7);
    NoBits(b, 8, 7);
    NextBit(b, 15);
    NoBits(b, 16, 15);
    NextBit(b, 31);
    NoBits(b, 32, 31);
    NextBit(b, 63);
    assert b[64..] == [];
    assert Number([]) == 0 by { NumberOfNone(); }
  }

  lemma ReadOffLane(r: Register)
    ensures ReadOff(r) == Number(ConstantLane(r))
  {
    hide Number, Turns;
    LowBits(ConstantLane(r));
    HighBits(ConstantLane(r));
  }

  lemma NumberOfNone()
    ensures Number([]) == 0
  {
  }

  lemma {:induction false} TurnsAdd(r: Register, a: nat, b: nat)
    ensures Turns(Turns(r, a), b) == Turns(r, a + b)
  {
    hide Next;
    if b > 0 { TurnsAdd(r, a, b - 1); }
  }

  lemma {:induction false} RegisterTurns(i: nat)
    ensures At7(i) == Turns(1, 7 * i)
  {
    hide Next, Turns;
    if i == 0 {
      NoTurn(1);
    } else {
      RegisterTurns(i - 1);
      TurnsAdd(1, 7 * (i - 1), 7);
    }
  }

  lemma NoTurn(r: Register)
    ensures Turns(r, 0) == r
  {
  }

  lemma ConstantBits(i: nat, z: nat)
    requires i < 24 && z < 64
    ensures ToLane(RC[i])[z] == ConstantBit(i, z)
  {
    hide Turns, Number, ToLane, ReadOff, At7;
    RoundConstants(i);
    ReadOffLane(At7(i));
    LaneOfNumber(ConstantLane(At7(i)));
    RegisterTurns(i);
    forall j: nat | j < 7 ensures Turns(At7(i), j) == Turns(1, 7 * i + j) { TurnsAdd(1, 7 * i, j); }
    NoTurn(At7(i));
    assert ToLane(RC[i])[z] == RegisterBit(At7(i), z);
  }

  // ----- The permutation ---------------------------------------------------

  lemma ThetaString(s: State)
    ensures IsTheta(Str(s), Str(Theta(s)))
  {
    hide Theta, Bit, Str, Get;
    forall x, y, z | InRange(x, y, z)
      ensures Get(Str(Theta(s)), x, y, z)
           == (Get(Str(s), x, y, z) != (ColumnSum(Str(s), x - 1, z) != ColumnSum(Str(s), x + 1, z - 1)))
    {
      GetStr(Theta(s), x, y, z);
      GetStr(s, x, y, z);
      ThetaBits(s, x, y, z);
      SumString(s, x - 1, z);
      SumString(s, x + 1, z - 1);
    }
  }

  lemma SumString(s: State, x: int, z: int)
    ensures ColumnSum(Str(s), x, z) == ColumnBit(s, x, z)
  {
    hide Bit, Str, Get;
    forall y | 0 <= y < 5 ensures Get(Str(s), x, y, z) == Bit(s, x, y, z) { GetStr(s, x, y, z); }
  }

  lemma RhoString(s: State)
    ensures IsRho(Str(s), Str(Rho(s)))
  {
    hide Rho, Bit, Str, Get, Walk, Rotation;
    forall z | InRange(0, 0, z) ensures Get(Str(Rho(s)), 0, 0, z) == Get(Str(s), 0, 0, z) {
      RotationTable(0);
      RhoMoves(s, 0, 0, z, 0);
    }
    forall n: nat, z | n < 24 && InRange(0, 0, z)
      ensures Get(Str(Rho(s)), Walk(n).0, Walk(n).1, z)
           == Get(Str(s), Walk(n).0, Walk(n).1, z - (n + 1) * (n + 2) / 2)
    {
      RotationTable(n);
      RhoMoves(s, Walk(n).0, Walk(n).1, z, (n + 1) * (n + 2) / 2);
    }
  }

  lemma RhoMoves(s: State, x: int, y: int, z: int, offset: nat)
    requires Rotation(x, y) == offset % 64
    ensures Get(Str(Rho(s)), x, y, z) == Get(Str(s), x, y, z - offset)
  {
    hide Rho, Str, Get, Rotation;
    GetStr(Rho(s), x, y, z);
    GetStr(s, x, y, z - offset);
    RhoBits(s, x, y, z);
    assert (z - offset % 64) % 64 == (z - offset) % 64;
  }

  lemma PiString(s: State)
    ensures IsPi(Str(s), Str(Pi(s)))
  {
    hide Pi, Bit, Str, Get;
    forall x, y, z | InRange(x, y, z) ensures Get(Str(Pi(s)), x, y, z) == Get(Str(s), x + 3 * y, x, z) {
      GetStr(Pi(s), x, y, z);
      GetStr(s, x + 3 * y, x, z);
      PiBits(s, x, y, z);
    }
  }

  lemma ChiString(s: State)
    ensures IsChi(Str(s), Str(Chi(s)))
  {
    hide Chi, Bit, Str, Get;
    forall x, y, z | InRange(x, y, z)
      ensures Get(Str(Chi(s)), x, y, z)
           == (Get(Str(s), x, y, z) != (!Get(Str(s), x + 1, y, z) && Get(Str(s), x + 2, y, z)))
    {
      GetStr(Chi(s), x, y, z);
      GetStr(s, x, y, z);
      GetStr(s, x + 1, y, z);
      GetStr(s, x + 2, y, z);
      ChiBits(s, x, y, z);
    }
  }

  lemma IotaString(s: State, i: nat)
    requires i < 24
    ensures IsIota(Str(s), Str(Iota(s, ToLane(RC[i]))), i)
  {
    hide Iota, Bit, Str, Get, ToLane, ConstantBit;
    var t := Iota(s, ToLane(RC[i]));
    forall x, y, z | InRange(x, y, z)
      ensures Get(Str(t), x, y, z) == (Get(Str(s), x, y, z) != (x == 0 && y == 0 && ConstantBit(i, z)))
    {
      GetStr(t, x, y, z);
      GetStr(s, x, y, z);
      ConstantBits(i, z);
      IotaBit(s, ToLane(RC[i]), x, y, z);
    }
  }

  lemma IotaBit(s: State, rc: Lane, x: int, y: int, z: int)
    requires InRange(x, y, z)
    ensures Bit(Iota(s, rc), x, y, z) == (Bit(s, x, y, z) != (x == 0 && y == 0 && rc[z]))
  {
    assert Iota(s, rc)[x][y] == if x == 0 && y == 0 then Xor(At(s, 0, 0), rc) else At(s, x, y);
  }

  lemma RoundString(s: State, i: nat)
    requires i < 24
    ensures IsRound(Str(s), Str(Round(s, ToLane(RC[i]))), i)
  {
    hide Theta, Rho, Pi, Chi, Iota, Str, ToLane, IsTheta, IsRho, IsPi, IsChi, IsIota;
    ThetaString(s);
    RhoString(Theta(s));
    PiString(Rho(Theta(s)));
    ChiString(Pi(Rho(Theta(s))));
    IotaString(Chi(Pi(Rho(Theta(s)))), i);
  }

  lemma KeccakString(s: State)
    ensures IsKeccakF(Str(s), Str(Keccak(s)))
  {
    hide Round, Str, ToLane, IsRound;
    var states: seq<Bits1600> := seq(25, n requires 0 <= n < 25 => Str(Rounds(s, n)));
    forall i | 0 <= i < 24 ensures IsRound(states[i], states[i + 1], i) { RoundString(Rounds(s, i), i); }
    assert states[0] == Str(s) && states[24] == Str(Keccak(s));
  }

  // ----- The sponge --------------------------------------------------------

  /** The padding loop is 10*1 on bits, in whole bytes. */
  lemma PaddingBits(data: seq<Byte>)
    ensures IsPadding(Flat(data), Flat(Padded(data)))
  {
    hide Flat;
    var missing := RATE - |data| % RATE;
    var j := 8 * missing - 2;
    PaddedLength(data);
    assert 8 * |Padded(data)| == 1088 * (|data| / RATE + 1);
    forall k | 0 <= k < 8 * |Padded(data)| ensures Flat(Padded(data))[k] == Marked(Flat(data), j)[k] {
      PaddedBit(data, k);
    }
    assert |Flat(Padded(data))| == |Marked(Flat(data), j)|;
    assert Flat(Padded(data)) == Marked(Flat(data), j);
  }

  lemma PaddedBit(data: seq<Byte>, k: nat)
    requires k < 8 * |Padded(data)|
    ensures |Marked(Flat(data), 8 * (RATE - |data| % RATE) - 2)| == 8 * |Padded(data)|
    ensures Padded(data)[k / 8][k % 8] == Marked(Flat(data), 8 * (RATE - |data| % RATE) - 2)[k]
  {
    PaddedLength(data);
    var i := k / 8;
    if i > |data| && i < |Padded(data)| - 1 { assert Padded(data)[i] == NO_BITS; }
  }

  lemma AddedString(s: State, msg: seq<Byte>, n: nat)
    requires RATE * (n + 1) <= |msg|
    ensures IsAdded(Str(s), Flat(msg), n, Str(XorBlock(s, BlockAt(msg, n))))
  {
    hide Str, Flat, XorBlock;
    forall k | 0 <= k < 1600
      ensures Str(XorBlock(s, BlockAt(msg, n)))[k]
           == if k < 1088 then Str(s)[k] != Flat(msg)[1088 * n + k] else Str(s)[k]
    {
      AddedBit(s, msg, n, k);
    }
  }

  lemma AddedBit(s: State, msg: seq<Byte>, n: nat, k: nat)
    requires RATE * (n + 1) <= |msg| && k < 1600
    ensures 1088 * n + 1088 <= |Flat(msg)|
    ensures Str(XorBlock(s, BlockAt(msg, n)))[k]
         == if k < 1088 then Str(s)[k] != Flat(msg)[1088 * n + k] else Str(s)[k]
  {
    hide XorBlock, Xor, BlockLane, BlockAt;
    var x, y, z := k / 64 % 5, k / 320, k % 64;
    assert x + 5 * y == k / 64;
    XorBlockAt(s, BlockAt(msg, n), x, y);
    if k < 1088 {
      BlockBit(msg, n, k);
      SumBit(s[x][y], BlockLane(BlockAt(msg, n), k / 64), z);
    }
  }

  lemma SumBit(a: Lane, b: Lane, z: nat)
    requires z < 64
    ensures Xor(a, b)[z] == (a[z] != b[z])
  {
  }

  lemma BlockBit(msg: seq<Byte>, n: nat, k: nat)
    requires RATE * (n + 1) <= |msg| && k < 1088
    ensures 1088 * n + k < |Flat(msg)|
    ensures BlockLane(BlockAt(msg, n), k / 64)[k % 64] == Flat(msg)[1088 * n + k]
  {
    var i, z := k / 64, k % 64;
    var block := BlockAt(msg, n);
    assert block[8 * i..8 * i + 8][z / 8] == block[8 * i + z / 8];
    assert 8 * i + z / 8 == k / 8 && z % 8 == k % 8;
    assert (1088 * n + k) / 8 == RATE * n + k / 8 && (1088 * n + k) % 8 == k % 8;
  }

  lemma ReadString(msg: seq<Byte>, i: nat)
    requires RATE * (i + 1) <= |msg|
    ensures IsRead(Str(Absorbed(msg, i)), Flat(msg), i, Str(Absorbed(msg, i + 1)))
  {
    hide Flat, Str, XorBlock, Keccak, IsAdded, IsKeccakF;
    var s := Absorbed(msg, i);
    AddedString(s, msg, i);
    KeccakString(XorBlock(s, BlockAt(msg, i)));
  }

  lemma AbsorbedString(msg: seq<Byte>, n: nat)
    requires RATE * n <= |msg|
    ensures IsAbsorbed(Flat(msg), n, Str(Absorbed(msg, n)))
  {
    hide Flat, Str, Absorbed, IsRead;
    var states: seq<Bits1600> := seq(n + 1, i requires 0 <= i <= n => Str(Absorbed(msg, i)));
    NothingAbsorbed(msg);
    forall i | 0 <= i < n ensures IsRead(states[i], Flat(msg), i, states[i + 1]) { ReadString(msg, i); }
    assert states[n] == Str(Absorbed(msg, n));
  }

  lemma NothingAbsorbed(msg: seq<Byte>)
    ensures forall k :: 0 <= k < 1600 ==> !Str(Absorbed(msg, 0))[k]
  {
    EmptyState();
  }

  lemma EmptyState()
    ensures forall k :: 0 <= k < 1600 ==> !Str(Initial())[k]
  {
  }

  lemma DigestBits(s: State)
    ensures Flat(Digest(s)) == Str(s)[..256]
  {
    hide Str, Flat, Digest;
    forall k | 0 <= k < 256 ensures Flat(Digest(s))[k] == Str(s)[k] { DigestBit(s, k); }
  }

  lemma DigestBit(s: State, k: nat)
    requires k < 256
    ensures Flat(Digest(s))[k] == Str(s)[k]
  {
    hide Digest;
    var i, m := k / 64, k % 64;
    DigestBytes(s, i, m / 8);
    assert k / 8 == 8 * i + m / 8 && k % 8 == m % 8;
    assert ToBytes(s[i][0])[m / 8] == s[i][0][8 * (m / 8)..8 * (m / 8) + 8];
  }

  lemma DigestBytes(s: State, i: nat, j: nat)
    requires i < 4 && j < 8
    ensures Digest(s)[8 * i + j] == ToBytes(s[i][0])[j]
  {
    hide ToBytes;
  }

  /** The digest's bits are those of Keccak-256 of the message's bits. */
  lemma DigestIsStandard(data: seq<Byte>)
    ensures IsKeccak256(Flat(data), Flat(Digest(FinalState(data))))
  {
    hide Flat, Str, Absorbed, Digest, IsAbsorbed, IsPadding, Padded;
    PaddedLength(data);
    PaddingBits(data);
    var msg := Padded(data);
    assert |Flat(msg)| == 1088 * (|data| / RATE + 1);
    assert |Flat(msg)| / 1088 == |data| / RATE + 1;
    AbsorbedString(msg, |data| / RATE + 1);
    DigestBits(FinalState(data));
  }
}
