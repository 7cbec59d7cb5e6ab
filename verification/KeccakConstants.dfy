/**
  * The round constants of the Keccak-256 in scripts/check_deployed_code.py, from the
  * shift register of section 3.2.5 of FIPS 202.
  */
module KeccakConstants {

  import opened KeccakRounds

  /** The eight bits of the register, the first one lowest. */
  type Register = bv8

  /** One turn: shift by one, the bit that falls out added at places 0, 4, 5 and 6. */
  function Next(r: Register): Register {
    if r & 0x80 == 0 then r << 1 else (r << 1) ^ 0x71
  }

  function Turns(r: Register, n: nat): Register {
    if n == 0 then r else Next(Turns(r, n - 1))
  }

  /** The register after seven turns for each of the first `i` rounds. */
  function At7(i: nat): Register {
    if i == 0 then 1 else Turns(At7(i - 1), 7)
  }

  /** What the register's first bit after `j` more turns is worth at bit `2^j - 1`. */
  function Worth(r: Register, j: nat, n: nat): nat { if Turns(r, j) & 1 == 1 then n else 0 }

  /** The round constant read off a register. */
  function ReadOff(r: Register): nat {
    Worth(r, 0, 0x1) + Worth(r, 1, 0x2) + Worth(r, 2, 0x8) + Worth(r, 3, 0x80)
    + Worth(r, 4, 0x8000) + Worth(r, 5, 0x80000000) + Worth(r, 6, 0x8000000000000000)
  }

  /** The register before each round, as a table. */
  const REGISTERS: seq<Register> := [
    0x01, 0x80, 0xD8, 0x1A, 0xDF, 0x09, 0x35, 0x4F, 0xCA, 0x70, 0x41, 0xEC,
    0xD5, 0xCD, 0x63, 0xAB, 0xAA, 0x2A, 0xF2, 0xE8, 0x37, 0x3E, 0x0B, 0x44]

  /** What each register is after seven turns. */
  lemma Turned()
    ensures Turns(0x01, 7) == 0x80
    ensures Turns(0x80, 7) == 0xD8
    ensures Turns(0xD8, 7) == 0x1A
    ensures Turns(0x1A, 7) == 0xDF
    ensures Turns(0xDF, 7) == 0x09
    ensures Turns(0x09, 7) == 0x35
    ensures Turns(0x35, 7) == 0x4F
    ensures Turns(0x4F, 7) == 0xCA
    ensures Turns(0xCA, 7) == 0x70
    ensures Turns(0x70, 7) == 0x41
    ensures Turns(0x41, 7) == 0xEC
    ensures Turns(0xEC, 7) == 0xD5
    ensures Turns(0xD5, 7) == 0xCD
    ensures Turns(0xCD, 7) == 0x63
    ensures Turns(0x63, 7) == 0xAB
    ensures Turns(0xAB, 7) == 0xAA
    ensures Turns(0xAA, 7) == 0x2A
    ensures Turns(0x2A, 7) == 0xF2
    ensures Turns(0xF2, 7) == 0xE8
    ensures Turns(0xE8, 7) == 0x37
    ensures Turns(0x37, 7) == 0x3E
    ensures Turns(0x3E, 7) == 0x0B
    ensures Turns(0x0B, 7) == 0x44
  {
  }

  /** What is read off each register. */
  lemma Constants()
    ensures ReadOff(0x01) == 0x0000000000000001
    ensures ReadOff(0x80) == 0x0000000000008082
    ensures ReadOff(0xD8) == 0x800000000000808A
    ensures ReadOff(0x1A) == 0x8000000080008000
    ensures ReadOff(0xDF) == 0x000000000000808B
    ensures ReadOff(0x09) == 0x0000000080000001
    ensures ReadOff(0x35) == 0x8000000080008081
    ensures ReadOff(0x4F) == 0x8000000000008009
    ensures ReadOff(0xCA) == 0x000000000000008A
    ensures ReadOff(0x70) == 0x0000000000000088
    ensures ReadOff(0x41) == 0x0000000080008009
    ensures ReadOff(0xEC) == 0x000000008000000A
    ensures ReadOff(0xD5) == 0x000000008000808B
    ensures ReadOff(0xCD) == 0x800000000000008B
    ensures ReadOff(0x63) == 0x8000000000008089
    ensures ReadOff(0xAB) == 0x8000000000008003
    ensures ReadOff(0xAA) == 0x8000000000008002
    ensures ReadOff(0x2A) == 0x8000000000000080
    ensures ReadOff(0xF2) == 0x000000000000800A
    ensures ReadOff(0xE8) == 0x800000008000000A
    ensures ReadOff(0x37) == 0x8000000080008081
    ensures ReadOff(0x3E) == 0x8000000000008080
    ensures ReadOff(0x0B) == 0x0000000080000001
    ensures ReadOff(0x44) == 0x8000000080008008
  {
  }

  function Tabled(i: nat): Register
    requires i < 24
  {
    REGISTERS[i]
  }

  lemma TurnedAt(i: nat)
    requires i < 23
    ensures Turns(Tabled(i), 7) == Tabled(i + 1)
  {
    hide Turns;
    Turned();
    assert forall k :: 0 <= k < 23 ==> Turns(REGISTERS[k], 7) == REGISTERS[k + 1];
  }

  lemma {:induction false} RegisterAt(i: nat)
    requires i < 24
    ensures At7(i) == Tabled(i)
  {
    hide Turns, At7, Tabled;
    if i > 0 {
      RegisterAt(i - 1);
      TurnedAt(i - 1);
      OneRound(i);
    } else {
      Beginning();
    }
  }

  lemma Beginning()
    ensures At7(0) == Tabled(0)
  {
  }

  lemma OneRound(i: nat)
    requires i > 0
    ensures At7(i) == Turns(At7(i - 1), 7)
  {
    hide Turns;
  }

  /** The table of constants is what the register yields. */
  lemma RoundConstants(i: nat)
    requires i < 24
    ensures RC[i] == ReadOff(At7(i))
  {
    hide At7, ReadOff;
    RegisterAt(i);
    Constants();
  }
}
