/**
  * `keccak256` (scripts/check_deployed_code.py): the padding loop, the absorbing loop
  * and the digest, around the permutation.
  */
module KeccakSponge {

  import opened Wrappers
  import opened KeccakLanes
  import opened KeccakRounds
  import opened KeccakPermutation

  const RATE: nat := 136

  // ----- Padding -----------------------------------------------------------

  function Zeros(n: nat): (z: seq<Byte>)
    ensures |z| == n && forall i :: 0 <= i < n ==> z[i] == NO_BITS
  {
    seq(n, _ => NO_BITS)
  }

  /** The two set bits merge into one byte when just one byte is missing. */
  function Padded(data: seq<Byte>): seq<Byte> {
    var missing := RATE - |data| % RATE;
    if missing == 1 then data + [SetLast(FIRST_BIT)]
    else data + [FIRST_BIT] + Zeros(missing - 2) + [LAST_BIT]
  }

  /** The padding loop. */
  method Pad(data: seq<Byte>) returns (msg: seq<Byte>)
    ensures msg == Padded(data)
  {
    msg := data + [FIRST_BIT];
    ghost var missing := RATE - |data| % RATE;
    ghost var added := 0;
    PaddedLength(data);
    while |msg| % RATE != 0
      invariant 0 <= added <= missing - 1
      invariant msg == data + [FIRST_BIT] + Zeros(added)
      decreases missing - added
    {
      Multiple(|data|, added);
      msg := msg + [NO_BITS];
      added := added + 1;
    }
    Multiple(|data|, added);
    assert added == missing - 1;
    SetLastBit(data, missing);
    msg := msg[|msg| - 1 := SetLast(msg[|msg| - 1])];
  }

  /** A full block is reached exactly when nothing is missing. */
  lemma Multiple(n: nat, added: nat)
    requires added <= RATE - n % RATE - 1
    ensures (n + 1 + added) % RATE == 0 <==> added == RATE - n % RATE - 1
  {
    var q, r := n / RATE, n % RATE;
    assert n + 1 + added == q * RATE + (r + 1 + added);
    if r + 1 + added == RATE {
      assert n + 1 + added == (q + 1) * RATE;
    } else {
      assert (n + 1 + added) / RATE == q;
    }
  }

  lemma SetLastBit(data: seq<Byte>, missing: nat)
    requires missing == RATE - |data| % RATE
    ensures var msg := data + [FIRST_BIT] + Zeros(missing - 1);
            msg[|msg| - 1 := SetLast(msg[|msg| - 1])] == Padded(data)
  {
    var msg := data + [FIRST_BIT] + Zeros(missing - 1);
    if missing > 1 {
      assert SetLast(NO_BITS) == LAST_BIT;
    }
  }

  /** Section 5.1 of FIPS 202, in whole bytes: always at least one byte, up to the next block. */
  lemma PaddedLength(data: seq<Byte>)
    ensures |Padded(data)| == RATE * (|data| / RATE + 1)
    ensures data <= Padded(data)
  {
  }

  /** Reading the padding from the end. */
  function Unpad(msg: seq<Byte>): Option<seq<Byte>> {
    if msg == [] || |msg| % RATE != 0 then None
    else
      var last := msg[|msg| - 1];
      if last == SetLast(FIRST_BIT) then Some(msg[..|msg| - 1])
      else if last != LAST_BIT then None
      else
        var n := TrailingZeros(msg[..|msg| - 1]);
        var front := msg[..|msg| - 1 - n];
        if n + 2 > RATE || front == [] || front[|front| - 1] != FIRST_BIT then None
        else Some(front[..|front| - 1])
  }

  function TrailingZeros(msg: seq<Byte>): (n: nat)
    ensures n <= |msg|
  {
    if msg != [] && msg[|msg| - 1] == NO_BITS then 1 + TrailingZeros(msg[..|msg| - 1]) else 0
  }

  lemma {:induction false} TrailingZerosOf(front: seq<Byte>, n: nat)
    requires front != [] && front[|front| - 1] != NO_BITS
    ensures TrailingZeros(front + Zeros(n)) == n
  {
    if n > 0 {
      assert (front + Zeros(n))[..|front| + n - 1] == front + Zeros(n - 1);
      TrailingZerosOf(front, n - 1);
    } else {
      assert front + Zeros(0) == front;
    }
  }

  lemma {:induction false} EndsInZeros(msg: seq<Byte>)
    ensures msg == msg[..|msg| - TrailingZeros(msg)] + Zeros(TrailingZeros(msg))
  {
    var n := TrailingZeros(msg);
    if n > 0 {
      var init := msg[..|msg| - 1];
      EndsInZeros(init);
      assert msg == init + [NO_BITS];
      assert Zeros(n) == Zeros(n - 1) + [NO_BITS];
    }
  }

  /** The bytes that mark the padding are told apart by their bits. */
  lemma MarksDiffer()
    ensures FIRST_BIT != NO_BITS && LAST_BIT != NO_BITS
    ensures FIRST_BIT[7] == false && LAST_BIT[7] && LAST_BIT[0] == false
    ensures SetLast(FIRST_BIT) != LAST_BIT
  {
    assert NO_BITS[0] == false && FIRST_BIT[0] && SetLast(FIRST_BIT)[0];
    assert NO_BITS[7] == false;
  }

  /** The message is recovered, also when the two marks share a byte. */
  lemma PaddingReadBack(data: seq<Byte>)
    ensures Unpad(Padded(data)) == Some(data)
  {
    hide TrailingZeros, SetLast;
    MarksDiffer();
    PaddedLength(data);
    var m := Padded(data);
    var missing := RATE - |data| % RATE;
    assert |m| % RATE == 0;
    if missing == 1 {
      assert m[..|m| - 1] == data;
    } else {
      var front := data + [FIRST_BIT];
      assert m[..|m| - 1] == front + Zeros(missing - 2);
      TrailingZerosOf(front, missing - 2);
      assert m[..|m| - 1 - (missing - 2)] == front;
      assert front[..|front| - 1] == data;
    }
  }

  /** Nothing else reads back: what is accepted is what the padding of it prints. */
  lemma PaddingExact(msg: seq<Byte>, data: seq<Byte>)
    ensures Unpad(msg) == Some(data) <==> msg == Padded(data)
  {
    hide TrailingZeros, Padded, SetLast;
    if msg == Padded(data) { PaddingReadBack(data); }
    if Unpad(msg) == Some(data) { UnpadAccepts(msg, data); }
  }

  lemma UnpadAccepts(msg: seq<Byte>, data: seq<Byte>)
    requires Unpad(msg) == Some(data)
    ensures msg == Padded(data)
  {
    hide TrailingZeros, SetLast;
    var last := msg[|msg| - 1];
    if last == SetLast(FIRST_BIT) {
      Missing(|data|, 0, |msg|);
      assert msg == data + [last];
    } else {
      var init := msg[..|msg| - 1];
      var n := TrailingZeros(init);
      EndsInZeros(init);
      assert init[..|init| - n] == msg[..|msg| - 1 - n];
      Missing(|data|, n + 1, |msg|);
      assert msg == init + [LAST_BIT];
      assert msg[..|msg| - 1 - n] == data + [FIRST_BIT];
    }
  }

  lemma Missing(n: nat, more: nat, total: nat)
    requires total == n + 1 + more && total % RATE == 0 && more + 1 <= RATE
    ensures RATE - n % RATE == more + 1
  {
    var q := total / RATE;
    assert n == RATE * (q - 1) + (RATE - 1 - more);
    assert n / RATE == q - 1;
  }

  /** So no two messages are padded to the same blocks. */
  lemma PaddingInjective(data: seq<Byte>, other: seq<Byte>)
    requires Padded(data) == Padded(other)
    ensures data == other
  {
    PaddingReadBack(data);
    PaddingReadBack(other);
  }

  // ----- Absorbing ---------------------------------------------------------

  type Block = b: seq<Byte> | |b| == 136 witness seq(136, _ => NO_BITS)

  function BlockLane(block: Block, i: nat): Lane
    requires i < 17
  {
    FromBytes(block[8 * i..8 * i + 8])
  }

  /** The block's 17 lanes, added in the order (0, 0), (1, 0), … */
  function XorBlock(s: State, block: Block): State {
    Make((x, y) => XorBlockLane(s, block, x, y))
  }

  function XorBlockLane(s: State, block: Block, x: int, y: int): Lane {
    if 0 <= x < 5 && 0 <= y && x + 5 * y < 17 then Xor(At(s, x, y), BlockLane(block, x + 5 * y)) else At(s, x, y)
  }

  function Initial(): (s: State)
    ensures forall x, y :: 0 <= x < 5 && 0 <= y < 5 ==> s[x][y] == Zero()
  {
    Make((x, y) => Zero())
  }

  /** The state after the first `n` blocks. */
  function Absorbed(msg: seq<Byte>, n: nat): State
    requires RATE * n <= |msg|
  {
    if n == 0 then Initial() else Keccak(XorBlock(Absorbed(msg, n - 1), BlockAt(msg, n - 1)))
  }

  function BlockAt(msg: seq<Byte>, n: nat): Block
    requires RATE * (n + 1) <= |msg|
  {
    msg[RATE * n..RATE * (n + 1)]
  }

  /** The first 32 bytes of the state, lane by lane. */
  function Digest(s: State): (d: seq<Byte>)
    ensures |d| == 32
  {
    ToBytes(s[0][0]) + ToBytes(s[1][0]) + ToBytes(s[2][0]) + ToBytes(s[3][0])
  }

  function FinalState(data: seq<Byte>): State {
    PaddedLength(data);
    Absorbed(Padded(data), |data| / RATE + 1)
  }

  /** The first `n` lanes of a block are added. */
  ghost predicate PartlyAdded(s: State, block: Block, t: State, n: nat)
    requires n <= 17
  {
    forall x, y :: 0 <= x < 5 && 0 <= y < 5 ==>
      t[x][y] == if x + 5 * y < n then Xor(s[x][y], BlockLane(block, x + 5 * y)) else s[x][y]
  }

  lemma AddLane(s: State, block: Block, t: State, n: nat)
    requires n < 17 && PartlyAdded(s, block, t, n)
    ensures n / 5 < 5 && t[n % 5][n / 5] == s[n % 5][n / 5]
    ensures PartlyAdded(s, block, Put(t, n % 5, n / 5, Xor(s[n % 5][n / 5], BlockLane(block, n))), n + 1)
  {
    hide Xor, BlockLane;
    var u, v := n % 5, n / 5;
    assert n == u + 5 * v;
    var t' := Put(t, u, v, Xor(s[u][v], BlockLane(block, n)));
    forall x, y | 0 <= x < 5 && 0 <= y < 5
      ensures t'[x][y] == if x + 5 * y < n + 1 then Xor(s[x][y], BlockLane(block, x + 5 * y)) else s[x][y]
    {
      if x + 5 * y == n { assert x == u && y == v; }
    }
  }

  lemma XorBlockAt(s: State, block: Block, x: int, y: int)
    requires 0 <= x < 5 && 0 <= y < 5
    ensures XorBlock(s, block)[x][y]
         == if x + 5 * y < 17 then Xor(s[x][y], BlockLane(block, x + 5 * y)) else s[x][y]
  {
    hide Xor, BlockLane, At;
    assert XorBlock(s, block)[x][y] == XorBlockLane(s, block, x, y);
    assert At(s, x, y) == s[x][y] by { Direct(s, x, y); }
  }

  lemma AllAdded(s: State, block: Block, t: State)
    requires PartlyAdded(s, block, t, 17)
    ensures t == XorBlock(s, block)
  {
    hide Xor, BlockLane, XorBlock, Make, PartlyAdded;
    forall x, y | 0 <= x < 5 && 0 <= y < 5 ensures t[x][y] == XorBlock(s, block)[x][y] {
      XorBlockAt(s, block, x, y);
      AddedAt(s, block, t, x, y);
    }
    SameState(t, XorBlock(s, block));
  }

  lemma AddedAt(s: State, block: Block, t: State, x: int, y: int)
    requires PartlyAdded(s, block, t, 17) && 0 <= x < 5 && 0 <= y < 5
    ensures t[x][y] == if x + 5 * y < 17 then Xor(s[x][y], BlockLane(block, x + 5 * y)) else s[x][y]
  {
    hide Xor, BlockLane;
  }

  lemma NoneAdded(s: State, block: Block)
    ensures PartlyAdded(s, block, s, 0)
  {
  }

  method AbsorbBlock(a: array2<Lane>, block: Block)
    requires FiveByFive(a)
    modifies a
    ensures View(a) == Keccak(XorBlock(old(View(a)), block))
  {
    hide View, PartlyAdded, XorBlock, BlockLane, Keccak, Put, Xor;
    ghost var s := View(a);
    NoneAdded(s, block);
    for i := 0 to 17
      invariant PartlyAdded(s, block, View(a), i)
    {
      AddLane(s, block, View(a), i);
      Store(a, i % 5, i / 5, Xor(a[i % 5, i / 5], BlockLane(block, i)));
    }
    AllAdded(s, block, View(a));
    KeccakF(a);
  }

  /** `keccak256`. */
  method Keccak256(data: seq<Byte>) returns (out: seq<Byte>)
    ensures out == Digest(FinalState(data))
  {
    hide Absorbed, View, Digest, Keccak, XorBlock;
    var a := new Lane[5, 5]((_, _) => Zero());
    var msg := Pad(data);
    PaddedLength(data);
    FirstState(msg, View(a));
    var off := 0;
    ghost var n := 0;
    while off < |msg|
      invariant off == RATE * n <= |msg| == RATE * (|data| / RATE + 1)
      invariant View(a) == Absorbed(msg, n)
      decreases |msg| - off
    {
      OneMoreBlock(msg, n);
      AbsorbBlock(a, msg[off..off + RATE]);
      off, n := off + RATE, n + 1;
    }
    DigestOf(View(a));
    out := ToBytes(a[0, 0]) + ToBytes(a[1, 0]) + ToBytes(a[2, 0]) + ToBytes(a[3, 0]);
  }

  lemma FirstState(msg: seq<Byte>, s: State)
    requires forall x, y :: 0 <= x < 5 && 0 <= y < 5 ==> s[x][y] == Zero()
    ensures Absorbed(msg, 0) == s
  {
    SameState(s, Initial());
  }

  lemma OneMoreBlock(msg: seq<Byte>, n: nat)
    requires RATE * (n + 1) <= |msg|
    ensures Absorbed(msg, n + 1) == Keccak(XorBlock(Absorbed(msg, n), BlockAt(msg, n)))
  {
    hide Keccak, XorBlock;
  }

  lemma DigestOf(s: State)
    ensures Digest(s) == ToBytes(s[0][0]) + ToBytes(s[1][0]) + ToBytes(s[2][0]) + ToBytes(s[3][0])
  {
  }

  // ----- What absorbing keeps apart ----------------------------------------

  /** The eight lanes that no block is added to. */
  ghost predicate SameCapacity(s: State, t: State) {
    forall x, y :: 0 <= x < 5 && 0 <= y < 5 && x + 5 * y >= 17 ==> s[x][y] == t[x][y]
  }

  lemma XorCancels(a: Lane, b: Lane, c: Lane)
    requires Xor(a, b) == Xor(a, c)
    ensures b == c
  {
    forall z | 0 <= z < 64 ensures b[z] == c[z] {
      assert Xor(a, b)[z] == Xor(a, c)[z];
    }
  }

  lemma CapacityUntouched(s: State, block: Block, t: State, other: Block)
    requires XorBlock(s, block) == XorBlock(t, other)
    ensures SameCapacity(s, t)
  {
    hide XorBlock;
    forall x, y | 0 <= x < 5 && 0 <= y < 5 && x + 5 * y >= 17 ensures s[x][y] == t[x][y] {
      XorBlockAt(s, block, x, y);
      XorBlockAt(t, other, x, y);
    }
  }

  lemma SameLaneBytes(block: Block, other: Block, i: nat)
    requires i < 17 && BlockLane(block, i) == BlockLane(other, i)
    ensures block[8 * i..8 * i + 8] == other[8 * i..8 * i + 8]
  {
    hide FromBytes, ToBytes;
    BytesRoundTrip(block[8 * i..8 * i + 8]);
    BytesRoundTrip(other[8 * i..8 * i + 8]);
  }

  /** Different blocks change a state differently. */
  lemma BlocksApart(s: State, block: Block, other: Block)
    requires XorBlock(s, block) == XorBlock(s, other)
    ensures block == other
  {
    hide XorBlock, Xor, BlockLane;
    forall k | 0 <= k < 136 ensures block[k] == other[k] {
      var i := k / 8;
      LaneApart(s, block, other, i);
      SameLaneBytes(block, other, i);
      assert block[8 * i..8 * i + 8][k - 8 * i] == other[8 * i..8 * i + 8][k - 8 * i];
    }
  }

  lemma LaneApart(s: State, block: Block, other: Block, i: nat)
    requires i < 17 && XorBlock(s, block) == XorBlock(s, other)
    ensures BlockLane(block, i) == BlockLane(other, i)
  {
    hide XorBlock, Xor, BlockLane;
    var x, y := i % 5, i / 5;
    assert x + 5 * y == i;
    XorBlockAt(s, block, x, y);
    XorBlockAt(s, other, x, y);
    XorCancels(s[x][y], BlockLane(block, i), BlockLane(other, i));
  }

  /** Before block `k` the two states agree on the capacity, and block `k` differs. */
  ghost predicate MeetsAt(msg: seq<Byte>, other: seq<Byte>, k: nat)
    requires RATE * (k + 1) <= |msg| == |other|
  {
    SameCapacity(Absorbed(msg, k), Absorbed(other, k)) && BlockAt(msg, k) != BlockAt(other, k)
  }

  /**
    * Two messages of as many blocks that end in the same state already agreed, before
    * some block in which they differ, on the part of the state no block can reach.
    */
  lemma {:induction false} MeetInside(msg: seq<Byte>, other: seq<Byte>, n: nat)
    requires RATE * n <= |msg| == |other|
    requires Absorbed(msg, n) == Absorbed(other, n)
    requires msg[..RATE * n] != other[..RATE * n]
    ensures exists k: nat :: k < n && RATE * (k + 1) <= |msg| && MeetsAt(msg, other, k)
  {
    hide Keccak, XorBlock, SameCapacity;
    var s, t := Absorbed(msg, n - 1), Absorbed(other, n - 1);
    var b, c := BlockAt(msg, n - 1), BlockAt(other, n - 1);
    KeccakInjective(XorBlock(s, b), XorBlock(t, c));
    CapacityUntouched(s, b, t, c);
    if b != c {
      assert MeetsAt(msg, other, n - 1);
    } else {
      assert msg[..RATE * n] == msg[..RATE * (n - 1)] + b;
      assert other[..RATE * n] == other[..RATE * (n - 1)] + c;
      SameBefore(s, t, b);
      MeetInside(msg, other, n - 1);
    }
  }

  lemma SameBefore(s: State, t: State, block: Block)
    requires XorBlock(s, block) == XorBlock(t, block)
    ensures s == t
  {
    hide XorBlock, Xor, BlockLane;
    forall x, y | 0 <= x < 5 && 0 <= y < 5 ensures s[x][y] == t[x][y] {
      XorBlockAt(s, block, x, y);
      XorBlockAt(t, block, x, y);
      if x + 5 * y < 17 { XorCancelsRight(s[x][y], t[x][y], BlockLane(block, x + 5 * y)); }
    }
    SameState(s, t);
  }

  lemma XorCancelsRight(a: Lane, b: Lane, c: Lane)
    requires Xor(a, c) == Xor(b, c)
    ensures a == b
  {
    XorTwice(a, c);
    XorTwice(b, c);
  }

  /** The same for whole messages, padding included. */
  lemma SameStateMeets(data: seq<Byte>, other: seq<Byte>)
    requires data != other && |data| / RATE == |other| / RATE
    requires FinalState(data) == FinalState(other)
    ensures |Padded(data)| == |Padded(other)| == RATE * (|data| / RATE + 1)
    ensures exists k: nat :: k <= |data| / RATE && MeetsAt(Padded(data), Padded(other), k)
  {
    hide Absorbed, MeetsAt;
    var n := |data| / RATE + 1;
    PaddedLength(data);
    PaddedLength(other);
    var a, b := Padded(data), Padded(other);
    if a == b { PaddingInjective(data, other); }
    assert a[..RATE * n] == a && b[..RATE * n] == b;
    MeetInside(a, b, n);
  }

  /** Messages shorter than a block never leave the same state. */
  lemma ShortMessagesApart(data: seq<Byte>, other: seq<Byte>)
    requires |data| < RATE && |other| < RATE && FinalState(data) == FinalState(other)
    ensures data == other
  {
    hide Keccak, XorBlock;
    PaddedLength(data);
    PaddedLength(other);
    var a, b := Padded(data), Padded(other);
    OneMoreBlock(a, 0);
    OneMoreBlock(b, 0);
    assert a[0..RATE] == a && b[0..RATE] == b;
    KeccakInjective(XorBlock(Initial(), a), XorBlock(Initial(), b));
    BlocksApart(Initial(), a, b);
    PaddingInjective(data, other);
  }
}
