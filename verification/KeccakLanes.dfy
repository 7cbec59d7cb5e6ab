/**
  * The integers of the Keccak-256 in scripts/check_deployed_code.py, as bits.
  *
  * An integer of the source is a sequence of bits, least significant first; a lane is
  * one masked to 64 bits, as section 3.1.2 of FIPS 202 numbers them.
  */
module KeccakLanes {

  type Bits = seq<bool>

  type Lane = b: Bits | |b| == 64 witness seq(64, _ => false)

  function Zero(): Lane { seq(64, _ => false) }

  // ----- Integer operations ------------------------------------------------

  function ShiftLeft(x: Bits, n: nat): Bits { seq(n, _ => false) + x }

  function ShiftRight(x: Bits, n: nat): Bits { if n <= |x| then x[n..] else [] }

  function BitOf(x: Bits, i: nat): bool { i < |x| && x[i] }

  function Or(x: Bits, y: Bits): Bits {
    seq(if |x| < |y| then |y| else |x|, i => i >= 0 && (BitOf(x, i) || BitOf(y, i)))
  }

  /** `& _MASK`. */
  function Mask(x: Bits): Lane { seq(64, i => i >= 0 && BitOf(x, i)) }

  function Xor(a: Lane, b: Lane): (r: Lane)
    ensures forall z :: 0 <= z < 64 ==> r[z] == (a[z] != b[z])
  {
    seq(64, z requires 0 <= z < 64 => a[z] != b[z])
  }

  /** `(~b) & c`. */
  function AndNot(b: Lane, c: Lane): (r: Lane)
    ensures forall z :: 0 <= z < 64 ==> r[z] == (!b[z] && c[z])
  {
    seq(64, z requires 0 <= z < 64 => !b[z] && c[z])
  }

  /** `_rol`. */
  function Rol(x: Lane, n: nat): Lane
    requires n < 64
  {
    if n != 0 then Mask(Or(ShiftLeft(x, n), ShiftRight(x, 64 - n))) else x
  }

  lemma RolAt(x: Lane, n: nat, k: nat)
    requires 0 < n < 64 && k < 64
    ensures Rol(x, n)[k] == if k < n then x[k - n + 64] else x[k - n]
  {
    var left, right := ShiftLeft(x, n), ShiftRight(x, 64 - n);
    assert BitOf(left, k) == (k >= n && x[k - n]);
    assert BitOf(right, k) == (k < n && x[k + (64 - n)]);
    assert Mask(Or(left, right))[k] == BitOf(Or(left, right), k);
  }

  /** A rotation moves bit `z - n` to `z`, counted modulo 64. */
  lemma RolBit(x: Lane, n: nat, z: int)
    requires n < 64
    ensures Rol(x, n)[z % 64] == x[(z - n) % 64]
  {
    hide Mask, Or, ShiftLeft, ShiftRight;
    var k := z % 64;
    assert (z - n) % 64 == if k < n then k - n + 64 else k - n;
    if n > 0 { RolAt(x, n, k); }
  }

  /** Two rotations that add up to a whole turn. */
  lemma RolTurn(x: Lane, m: nat, n: nat)
    requires m < 64 && n < 64 && (m + n) % 64 == 0
    ensures Rol(Rol(x, m), n) == x
  {
    hide Rol;
    forall z | 0 <= z < 64 ensures Rol(Rol(x, m), n)[z] == x[z] {
      RolBit(Rol(x, m), n, z);
      RolBit(x, m, z - n);
    }
  }

  // ----- Bytes -------------------------------------------------------------

  type Byte = b: Bits | |b| == 8 witness seq(8, _ => false)

  const NO_BITS: Byte := [false, false, false, false, false, false, false, false]
  /** `0x01` and `0x80`. */
  const FIRST_BIT: Byte := [true, false, false, false, false, false, false, false]
  const LAST_BIT: Byte := [false, false, false, false, false, false, false, true]

  /** `byte | 0x80`. */
  function SetLast(b: Byte): Byte { b[..7] + [true] }

  /** `int.from_bytes(bytes, "little")` of eight bytes. */
  function FromBytes(bytes: seq<Byte>): (r: Lane)
    requires |bytes| == 8
    ensures forall z :: 0 <= z < 64 ==> r[z] == bytes[z / 8][z % 8]
  {
    seq(64, z requires 0 <= z < 64 => bytes[z / 8][z % 8])
  }

  /** `lane.to_bytes(8, "little")`. */
  function ToBytes(lane: Lane): (r: seq<Byte>)
    ensures |r| == 8
  {
    seq(8, i requires 0 <= i < 8 => lane[8 * i..8 * i + 8])
  }

  lemma BytesRoundTrip(bytes: seq<Byte>)
    requires |bytes| == 8
    ensures ToBytes(FromBytes(bytes)) == bytes
  {
    forall i | 0 <= i < 8 ensures ToBytes(FromBytes(bytes))[i] == bytes[i] {
      var b := ToBytes(FromBytes(bytes))[i];
      forall j | 0 <= j < 8 ensures b[j] == bytes[i][j] {
        assert b[j] == FromBytes(bytes)[8 * i + j];
        assert (8 * i + j) / 8 == i && (8 * i + j) % 8 == j;
      }
      assert b == bytes[i];
    }
  }

  /** The bits of a constant. */
  function ToLane(n: nat): Lane { seq(64, z => z >= 0 && (n / Power(z)) % 2 == 1) }

  function Power(n: nat): (p: nat)
    ensures p > 0
  {
    if n == 0 then 1 else 2 * Power(n - 1)
  }
}
