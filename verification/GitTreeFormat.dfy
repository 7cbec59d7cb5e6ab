/**
  * The byte strings a tree id is made of (scripts/generate_ux2.py), as Git reads them: the
  * header of an object, and the records of a tree with their octal modes.
  */
module GitTreeFormat {

  import opened Sequences
  import opened Wrappers
  import opened LexOrder
  import opened Utf8
  import opened GitTree
  import opened GitTreeBinding
  import Decimal

  // ----- Numbers -----------------------------------------------------------

  /** The value of digits in ASCII. */
  function Value(digits: seq<byte>, base: nat): int {
    if digits == [] then 0 else base * Value(digits[..|digits| - 1], base) + (digits[|digits| - 1] as int - 0x30)
  }

  /** Digits without a leading zero, but for zero itself. */
  predicate Numeral(digits: seq<byte>, base: nat) {
    && digits != [] && (|digits| > 1 ==> digits[0] != 0x30)
    && forall i :: 0 <= i < |digits| ==> 0x30 <= digits[i] < 0x30 + base
  }

  // ----- Objects -----------------------------------------------------------

  const BLOB: seq<byte> := [0x62, 0x6C, 0x6F, 0x62]
  const TREE: seq<byte> := [0x74, 0x72, 0x65, 0x65]

  /** The word, a space, the decimal length of what follows, a NUL, and what follows. */
  ghost predicate IsObject(kind: seq<byte>, payload: seq<byte>, s: seq<byte>) {
    exists size :: Numeral(size, 10) && Value(size, 10) == |payload| && s == kind + [0x20] + size + [0] + payload
  }

  // ----- Records -----------------------------------------------------------

  /** A record of a tree as Git reads it. */
  datatype Record = Record(mode: int, name: Str, digest: Digest)

  const DIRECTORY: int := 0x4000        // 0o40000
  const PLAIN: int := 0x8000 + 0x1A4    // 0o100644
  const PROGRAM: int := 0x8000 + 0x1ED  // 0o100755

  /** An octal mode, a space, the name in UTF-8, a NUL and the digest; then the next record. */
  ghost predicate Holds(payload: seq<byte>, rs: seq<Record>)
    decreases |rs|
  {
    if rs == [] then payload == []
    else exists mode, name, rest ::
      && Numeral(mode, 8) && Value(mode, 8) == rs[0].mode && ReadsAs(name, rs[0].name) && 0 !in name
      && payload == mode + [0x20] + name + [0] + rs[0].digest + rest
      && Holds(rest, rs[1..])
  }

  /** The bytes Git compares: a directory's name counts as if it ended in a slash. */
  function Compared(r: Record): seq<byte> {
    Encode(if r.mode == DIRECTORY then r.name + [0x2F] else r.name)
  }

  predicate Ascending(rs: seq<Record>) {
    forall i, j :: 0 <= i < j < |rs| ==> Less(Compared(rs[i]), Compared(rs[j]))
  }

  // ----- The tree of a directory -------------------------------------------

  /** The bit 0o100: what is left of the mode below 0o200 is 0o100 or more. */
  predicate OwnerMayExecute(mode: nat) { mode % 128 >= 64 }

  /** The record of a child: its name, its mode, and the id of the blob or tree it stands for. */
  ghost predicate Stands(sha1: Hash, c: Child, r: Record)
    decreases c, 0
  {
    r.name == c.name &&
    match c.node
    case Symlink => false
    case File(mode, data) =>
      && r.mode == (if OwnerMayExecute(mode) then PROGRAM else PLAIN)
      && exists s :: IsObject(BLOB, data, s) && r.digest == sha1(s)
    case Directory(children) =>
      && r.mode == DIRECTORY
      && exists s :: IsTree(sha1, children, s) && r.digest == sha1(s)
  }

  /** `s` is the tree object of the directory: a record for each child that has one, in Git's order. */
  ghost predicate IsTree(sha1: Hash, cs: seq<Child>, s: seq<byte>)
    decreases cs, 1
  {
    exists payload, rs :: IsObject(TREE, payload, s) && Holds(payload, rs) && Ascending(rs) && Lists(sha1, cs, rs)
  }

  /** The records are those of the children below which there is a file. */
  ghost predicate Lists(sha1: Hash, cs: seq<Child>, rs: seq<Record>)
    decreases cs, 0
  {
    && (forall r :: r in rs ==> exists i :: 0 <= i < |cs| && Stands(sha1, cs[i], r))
    && (forall i :: 0 <= i < |cs| && HoldsFile(cs[i].node) ==> exists r :: r in rs && Stands(sha1, cs[i], r))
  }

  // ----- Numbers as they are written ---------------------------------------

  lemma {:induction false} SizeWritten(n: nat)
    ensures Numeral(Ascii(Decimal.Print(n)), 10) && Value(Ascii(Decimal.Print(n)), 10) == n
    ensures n > 0 ==> Ascii(Decimal.Print(n))[0] != 0x30
  {
    var d := Ascii(Decimal.Print(n));
    if n < 10 {
      assert d[..0] == [];
    } else {
      SizeWritten(n / 10);
      assert d[..|d| - 1] == Ascii(Decimal.Print(n / 10));
    }
  }

  lemma ObjectWritten(kind: string, payload: seq<byte>)
    requires forall i :: 0 <= i < |kind| ==> 0 < kind[i] as int < 128
    ensures IsObject(Ascii(kind), payload, Header(kind, |payload|) + payload)
  {
    hide Ascii, Header, Numeral, Value;
    SizeWritten(|payload|);
    HeaderWritten(kind, |payload|);
    var size := Ascii(Decimal.Print(|payload|));
    assert Header(kind, |payload|) + payload == Ascii(kind) + [0x20] + size + [0] + payload;
  }

  lemma HeaderWritten(kind: string, n: nat)
    requires forall i :: 0 <= i < |kind| ==> 0 < kind[i] as int < 128
    ensures Header(kind, n) == Ascii(kind) + [0x20] + Ascii(Decimal.Print(n)) + [0]
  {
    hide Decimal.Print;
    assert Ascii(kind + " " + Decimal.Print(n)) == Ascii(kind) + [0x20] + Ascii(Decimal.Print(n));
  }

  lemma ModeWritten(m: Mode)
    ensures Numeral(ModeBytes(m), 8)
    ensures Value(ModeBytes(m), 8) == match m case Tree40000 => DIRECTORY case Plain100644 => PLAIN
                                              case Executable100755 => PROGRAM
  {
    var b := ModeBytes(m);
    FiveDigits(b[..5]);
    if |b| == 5 { assert b[..5] == b; }
    if |b| == 6 { assert Value(b, 8) == 8 * Value(b[..5], 8) + (b[5] as int - 0x30); }
  }

  lemma FiveDigits(d: seq<byte>)
    requires |d| == 5
    ensures Value(d, 8) == (d[0] as int - 0x30) * 0x1000 + (d[1] as int - 0x30) * 0x200
                           + (d[2] as int - 0x30) * 0x40 + (d[3] as int - 0x30) * 8 + (d[4] as int - 0x30)
  {
    assert d[..1][..0] == [];
    assert d[..2][..1] == d[..1] && d[..3][..2] == d[..2] && d[..4][..3] == d[..3];
    assert Value(d[..1], 8) == d[0] as int - 0x30;
    assert Value(d[..2], 8) == 8 * Value(d[..1], 8) + (d[1] as int - 0x30);
    assert Value(d[..3], 8) == 8 * Value(d[..2], 8) + (d[2] as int - 0x30);
  }

  // ----- What is hashed ----------------------------------------------------

  /** The record an entry is written as. */
  function RecordOf(e: Entry): Record {
    Record(Value(ModeBytes(e.mode), 8), e.name, e.digest)
  }

  function RecordsOf(es: seq<Entry>): (rs: seq<Record>)
    ensures |rs| == |es| && forall i :: 0 <= i < |es| ==> rs[i] == RecordOf(es[i])
  {
    seq(|es|, i requires 0 <= i < |es| => RecordOf(es[i]))
  }

  lemma {:induction false} BodyHolds(es: seq<Entry>)
    requires forall i :: 0 <= i < |es| ==> 0 !in es[i].name
    ensures Holds(Body(es), RecordsOf(es))
  {
    hide Encode, ReadsAs, Value, ModeBytes, Numeral;
    if es != [] {
      var e := es[0];
      BodyHolds(es[1..]);
      assert RecordsOf(es)[1..] == RecordsOf(es[1..]);
      ModeWritten(e.mode);
      EncodeForm(e.name);
      EncodeNul(e.name);
      assert 0 !in es[0].name;
      assert Body(es) == ModeBytes(e.mode) + [0x20] + Encode(e.name) + [0] + e.digest + Body(es[1..]);
    }
  }

  lemma KeysCompared(es: seq<Entry>)
    requires forall i :: 0 <= i < |es| ==> GoodEntry(es[i])
    requires forall i, j :: 0 <= i < j < |es| ==> Less(Encode(es[i].key), Encode(es[j].key))
    ensures Ascending(RecordsOf(es))
  {
    hide Value, Encode;
    forall i | 0 <= i < |es| ensures Compared(RecordsOf(es)[i]) == Encode(es[i].key) { ModeWritten(es[i].mode); }
  }

  /** Every entry comes from a child, and stands for it. */
  lemma {:induction false} EntryStands(sha1: Hash, c: Child)
    requires c.node.Directory? ==> WellFormed(c.node.children)
    requires ChildEntry(sha1, c).Ok? && ChildEntry(sha1, c).value.Some?
    ensures Stands(sha1, c, RecordOf(ChildEntry(sha1, c).value.value))
    decreases c, 0
  {
    hide IsTree, IsObject, Value, ModeBytes, TreeId, WellFormed, OwnerExecutable, OwnerMayExecute;
    match c.node
    case File(mode, data) =>
      ModeWritten(FileMode(mode));
      ObjectWritten("blob", data);
      assert Ascii("blob") == BLOB;
      SameBit(mode);
      assert IsObject(BLOB, data, BlobObject(data));
    case Directory(children) =>
      ModeWritten(Tree40000);
      IdIsTree(sha1, children);
  }

  lemma SameBit(mode: nat)
    ensures OwnerMayExecute(mode) == OwnerExecutable(mode)
  {
    var high, low := mode / 128, mode % 128;
    assert mode == 128 * high + low;
    if low >= 64 { assert mode / 64 == 2 * high + 1; } else { assert mode / 64 == 2 * high; }
  }

  /** What is hashed for a directory is its tree object, as Git would read it. */
  lemma {:induction false} TreeWritten(sha1: Hash, cs: seq<Child>)
    requires WellFormed(cs) && Entries(sha1, cs).Ok?
    ensures IsTree(sha1, cs, TreeObject(Body(Sort(Entries(sha1, cs).value))))
    decreases cs, 1
  {
    hide Sort, Body, Stands, Holds, IsObject, Entries, ChildEntry, HoldsFile, WellFormed;
    var entries := Entries(sha1, cs).value;
    var es := Sort(entries);
    SortCorrect(entries);
    ObjectWritten("tree", Body(es));
    assert Ascii("tree") == TREE;
    NamesHaveNoNul(sha1, cs);
    BodyHolds(es);
    SortedAscends(sha1, cs);
    assert Lists(sha1, cs, RecordsOf(es)) by { SortedLists(sha1, cs); }
  }

  /** So its id is the digest of such an object. */
  lemma {:induction false} IdIsTree(sha1: Hash, cs: seq<Child>)
    requires WellFormed(cs) && TreeId(sha1, cs).Ok? && TreeId(sha1, cs).value.Some?
    ensures exists s :: IsTree(sha1, cs, s) && TreeId(sha1, cs).value.value == sha1(s)
    decreases cs, 2
  {
    hide Sort, Body, Entries, WellFormed, IsTree;
    TreeWritten(sha1, cs);
  }

  /** Every byte string the computation hashes is a blob of a file below, or the tree of a directory below. */
  lemma {:induction false} HashedReads(sha1: Hash, cs: seq<Child>, s: seq<byte>)
    requires WellFormed(cs) && Hashes(sha1, cs, s)
    ensures IsTree(sha1, cs, s) || exists i :: 0 <= i < |cs| && IsBelow(sha1, cs[i].node, s)
    decreases cs, 2
  {
    hide Sort, Body, Entries, WellFormed, IsTree, IsBelow;
    if Entries(sha1, cs).Ok? && s == TreeObject(Body(Sort(Entries(sha1, cs).value))) {
      TreeWritten(sha1, cs);
    } else {
      var i :| 0 <= i < |cs| && NodeHashes(sha1, cs[i].node, s);
      ChildWellFormed(cs, i);
      NodeReads(sha1, cs[i].node, s);
    }
  }

  ghost predicate IsBelow(sha1: Hash, n: Node, s: seq<byte>)
    decreases n
  {
    match n
    case Symlink => false
    case File(_, data) => IsObject(BLOB, data, s)
    case Directory(children) =>
      IsTree(sha1, children, s) || exists i :: 0 <= i < |children| && IsBelow(sha1, children[i].node, s)
  }

  lemma {:induction false} NodeReads(sha1: Hash, n: Node, s: seq<byte>)
    requires (n.Directory? ==> WellFormed(n.children)) && NodeHashes(sha1, n, s)
    ensures IsBelow(sha1, n, s)
    decreases n, 3
  {
    hide IsTree, Hashes, IsObject, Header;
    match n {
      case Symlink =>
      case File(_, data) =>
        ObjectWritten("blob", data);
        assert Ascii("blob") == BLOB;
      case Directory(children) => HashedReads(sha1, children, s);
    }
  }

  lemma NamesHaveNoNul(sha1: Hash, cs: seq<Child>)
    requires WellFormed(cs) && Entries(sha1, cs).Ok?
    ensures forall i :: 0 <= i < |Sort(Entries(sha1, cs).value)| ==>
              GoodEntry(Sort(Entries(sha1, cs).value)[i]) && 0 !in Sort(Entries(sha1, cs).value)[i].name
  {
    hide Sort, Entries, WellFormed;
    var entries := Entries(sha1, cs).value;
    SortCorrect(entries);
    forall i | 0 <= i < |Sort(entries)| ensures GoodEntry(Sort(entries)[i]) && 0 !in Sort(entries)[i].name {
      assert Sort(entries)[i] in multiset(Sort(entries));
      EntriesGood(sha1, cs, Sort(entries)[i]);
    }
  }

  lemma SortedAscends(sha1: Hash, cs: seq<Child>)
    requires WellFormed(cs) && Entries(sha1, cs).Ok?
    ensures Ascending(RecordsOf(Sort(Entries(sha1, cs).value)))
  {
    hide Sort, Entries, WellFormed, GoodEntry, Encode;
    var entries := Entries(sha1, cs).value;
    NamesHaveNoNul(sha1, cs);
    SortCorrect(entries);
    assert |multiset(Sort(entries))| == |multiset(entries)|;
    forall i, j | 0 <= i < j < |Sort(entries)|
      ensures Less(Encode(Sort(entries)[i].key), Encode(Sort(entries)[j].key))
    {
      RecordsInGitOrder(sha1, cs, i, j);
    }
    KeysCompared(Sort(entries));
  }

  lemma {:induction false} SortedLists(sha1: Hash, cs: seq<Child>)
    requires WellFormed(cs) && Entries(sha1, cs).Ok?
    ensures Lists(sha1, cs, RecordsOf(Sort(Entries(sha1, cs).value)))
    decreases cs, 0
  {
    hide Sort, Entries, ChildEntry, Stands, HoldsFile, RecordOf, WellFormed;
    var entries := Entries(sha1, cs).value;
    var es := Sort(entries);
    SortCorrect(entries);
    assert forall e :: e in multiset(es) <==> e in es;
    assert forall e :: e in multiset(entries) <==> e in entries;
    assert forall e :: e in es <==> e in entries;
    forall r | r in RecordsOf(es) ensures exists i :: 0 <= i < |cs| && Stands(sha1, cs[i], r) {
      var k :| 0 <= k < |es| && RecordsOf(es)[k] == r;
      var i := EntryOrigin(sha1, cs, es[k]);
      ChildWellFormed(cs, i);
      EntryStands(sha1, cs[i]);
    }
    forall i | 0 <= i < |cs| && HoldsFile(cs[i].node)
      ensures exists r :: r in RecordsOf(es) && Stands(sha1, cs[i], r)
    {
      ChildrenPass(sha1, cs, i);
      NoEntryIffNoFile(sha1, cs[i]);
      ChildWellFormed(cs, i);
      EntryStands(sha1, cs[i]);
      var e := ChildEntry(sha1, cs[i]).value.value;
      var k :| 0 <= k < |es| && es[k] == e;
      assert RecordsOf(es)[k] == RecordOf(e);
    }
  }

  lemma ChildWellFormed(cs: seq<Child>, i: nat)
    requires WellFormed(cs) && i < |cs|
    ensures cs[i].node.Directory? ==> WellFormed(cs[i].node.children)
  {
  }
}
