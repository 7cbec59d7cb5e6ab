/** The Git tree id of a directory, computed without a Git object store
    (scripts/generate_ux2.py). The hash is an uninterpreted parameter. */
module GitTree {
  import opened Wrappers
  import opened LexOrder
  import opened Utf8
  import Decimal

  // ---------------------------------------------------------------- data model

  type Digest = s: seq<byte> | |s| == 20 witness seq(20, _ => 0)
  type Hash = seq<byte> -> Digest

  datatype Node =
    | File(mode: nat, data: seq<byte>)
    | Directory(children: seq<Child>)
    | Symlink

  /** One item of `directory.iterdir()`. */
  datatype Child = Child(name: Str, node: Node)

  datatype Refusal = SymlinkRefused | NameNotEncodable

  datatype Mode = Tree40000 | Plain100644 | Executable100755

  datatype Entry = Entry(key: Str, mode: Mode, name: Str, digest: Digest)

  const SLASH: CodePoint := 0x2F
  const SPACE: byte := 0x20

  /** What a file system guarantees of a name: not empty, no slash, no NUL. */
  predicate ValidName(name: Str) { name != [] && SLASH !in name && 0 !in name }

  ghost predicate WellFormed(cs: seq<Child>) {
    && (forall i :: 0 <= i < |cs| ==> ValidName(cs[i].name))
    && (forall i, j :: 0 <= i < j < |cs| ==> cs[i].name != cs[j].name)
    && (forall i :: 0 <= i < |cs| && cs[i].node.Directory? ==> WellFormed(cs[i].node.children))
  }

  // ---------------------------------------------------------------- serialising

  function Ascii(s: string): (r: seq<byte>)
    requires forall i :: 0 <= i < |s| ==> s[i] as int < 128
    ensures |r| == |s| && forall i :: 0 <= i < |s| ==> r[i] == s[i] as int
  {
    seq(|s|, i requires 0 <= i < |s| => s[i] as int)
  }

  /** `b"blob %d\0"` and `b"tree %d\0"`. */
  function Header(kind: string, size: nat): (r: seq<byte>)
    requires forall i :: 0 <= i < |kind| ==> 0 < kind[i] as int < 128
    ensures |r| > 0 && r[|r| - 1] == 0 && 0 !in r[..|r| - 1]
  {
    Ascii(kind + " " + Decimal.Print(size)) + [0]
  }

  function BlobObject(data: seq<byte>): seq<byte> { Header("blob", |data|) + data }

  function TreeObject(body: seq<byte>): seq<byte> { Header("tree", |body|) + body }

  predicate OwnerExecutable(mode: nat) { mode / 0x40 % 2 == 1 }

  function FileMode(mode: nat): Mode {
    if OwnerExecutable(mode) then Executable100755 else Plain100644
  }

  function ModeBytes(m: Mode): (r: seq<byte>)
    ensures SPACE !in r
  {
    match m
    case Tree40000 => [0x34, 0x30, 0x30, 0x30, 0x30]
    case Plain100644 => [0x31, 0x30, 0x30, 0x36, 0x34, 0x34]
    case Executable100755 => [0x31, 0x30, 0x30, 0x37, 0x35, 0x35]
  }

  function EntryBytes(e: Entry): seq<byte> {
    ModeBytes(e.mode) + [SPACE] + Encode(e.name) + [0] + e.digest
  }

  function Body(es: seq<Entry>): seq<byte> {
    if es == [] then [] else EntryBytes(es[0]) + Body(es[1..])
  }

  // ---------------------------------------------------------------- sorting

  predicate Sorted(es: seq<Entry>) {
    forall i, j :: 0 <= i < j < |es| ==> !Less(es[j].key, es[i].key)
  }

  predicate DistinctKeys(es: seq<Entry>) {
    forall i, j :: 0 <= i < j < |es| ==> es[i].key != es[j].key
  }

  /** Puts `e` after every entry whose key is not greater: the stable position. */
  function Insert(e: Entry, es: seq<Entry>): seq<Entry> {
    if es == [] then [e]
    else if Less(e.key, es[|es| - 1].key) then Insert(e, es[..|es| - 1]) + [es[|es| - 1]]
    else es + [e]
  }

  /** `entries.sort(key=lambda entry: entry[0])`. */
  function Sort(es: seq<Entry>): seq<Entry> {
    if es == [] then [] else Insert(es[|es| - 1], Sort(es[..|es| - 1]))
  }

  lemma {:induction false} InsertContents(e: Entry, es: seq<Entry>)
    ensures multiset(Insert(e, es)) == multiset(es) + multiset{e}
  {
    if es != [] && Less(e.key, es[|es| - 1].key) {
      InsertContents(e, es[..|es| - 1]);
      assert es == es[..|es| - 1] + [es[|es| - 1]];
    }
  }

  lemma {:induction false} InsertSorted(e: Entry, es: seq<Entry>)
    requires Sorted(es)
    ensures Sorted(Insert(e, es))
  {
    if es != [] {
      var init, last := es[..|es| - 1], es[|es| - 1];
      if Less(e.key, last.key) {
        InsertSorted(e, init);
        InsertContents(e, init);
        var r := Insert(e, init);
        forall i | 0 <= i < |r| ensures !Less(last.key, r[i].key) {
          assert r[i] in multiset(r);
          if r[i] == e { Asymmetric(e.key, last.key); } else { assert r[i] in init; }
        }
      } else {
        forall i | 0 <= i < |es| ensures !Less(e.key, es[i].key) {
          if Less(e.key, es[i].key) && i < |es| - 1 {
            Trichotomy(es[i].key, last.key);
            if Less(es[i].key, last.key) { Transitive(e.key, es[i].key, last.key); }
          }
        }
      }
    }
  }

  lemma {:induction false} SortCorrect(es: seq<Entry>)
    ensures Sorted(Sort(es)) && multiset(Sort(es)) == multiset(es)
  {
    if es != [] {
      SortCorrect(es[..|es| - 1]);
      InsertSorted(es[|es| - 1], Sort(es[..|es| - 1]));
      InsertContents(es[|es| - 1], Sort(es[..|es| - 1]));
      assert es == es[..|es| - 1] + [es[|es| - 1]];
    }
  }

  // ---------------------------------------------------------------- the tree id

  function ChildEntry(sha1: Hash, c: Child): Result<Option<Entry>, Refusal>
    decreases c, 0
  {
    match c.node
    case Symlink => Err(SymlinkRefused)
    case File(mode, data) =>
      Ok(Some(Entry(c.name, FileMode(mode), c.name, sha1(BlobObject(data)))))
    case Directory(children) =>
      match TreeId(sha1, children)
      case Err(e) => Err(e)
      case Ok(None) => Ok(None)
      case Ok(Some(d)) => Ok(Some(Entry(c.name + [SLASH], Tree40000, c.name, d)))
  }

  /** The `entries` list after the loop over `cs`, or the first refusal. */
  function Entries(sha1: Hash, cs: seq<Child>): Result<seq<Entry>, Refusal>
    decreases cs, 1
  {
    if cs == [] then Ok([])
    else
      match Entries(sha1, cs[..|cs| - 1])
      case Err(e) => Err(e)
      case Ok(es) =>
        match ChildEntry(sha1, cs[|cs| - 1])
        case Err(e) => Err(e)
        case Ok(None) => Ok(es)
        case Ok(Some(e)) => Ok(es + [e])
  }

  /** Serialising encodes every entry's name, which fails on a lone surrogate. */
  predicate NamesEncodable(es: seq<Entry>) {
    forall i :: 0 <= i < |es| ==> Encodable(es[i].name)
  }

  function TreeId(sha1: Hash, cs: seq<Child>): Result<Option<Digest>, Refusal>
    decreases cs, 2
  {
    match Entries(sha1, cs)
    case Err(e) => Err(e)
    case Ok(es) =>
      if es == [] then Ok(None)
      else if !NamesEncodable(es) then Err(NameNotEncodable)
      else Ok(Some(sha1(TreeObject(Body(Sort(es))))))
  }

  /** `git_tree`: one pass over the directory that appends to `entries`. */
  method GitTree(sha1: Hash, directory: seq<Child>) returns (id: Result<Option<Digest>, Refusal>)
    ensures id == TreeId(sha1, directory)
    decreases directory
  {
    hide Entries, TreeId, Sort, Body, NamesEncodable;
    var entries: seq<Entry> := [];
    NoEntries(sha1);
    for k := 0 to |directory|
      invariant Entries(sha1, directory[..k]) == Ok(entries)
      invariant forall j :: 0 <= j < k ==> ChildEntry(sha1, directory[j]).Ok?
    {
      var child := directory[k];
      NextEntry(sha1, directory, k);
      match child.node {
        case Symlink =>
          FirstRefusal(sha1, directory, k + 1);
          IdOfEntries(sha1, directory);
          return Err(SymlinkRefused);
        case File(mode, data) =>
          entries := entries + [Entry(child.name, FileMode(mode), child.name, sha1(BlobObject(data)))];
        case Directory(children) =>
          var subtree := GitTree(sha1, children);
          if subtree.Err? {
            FirstRefusal(sha1, directory, k + 1);
            IdOfEntries(sha1, directory);
            return Err(subtree.error);
          }
          if subtree.value.Some? {
            entries := entries + [Entry(child.name + [SLASH], Tree40000, child.name, subtree.value.value)];
          }
      }
    }
    assert directory[..|directory|] == directory;
    IdOfEntries(sha1, directory);
    if entries == [] { return Ok(None); }
    if !NamesEncodable(entries) { return Err(NameNotEncodable); }
    id := Ok(Some(sha1(TreeObject(Body(Sort(entries))))));
  }

  lemma NoEntries(sha1: Hash)
    ensures Entries(sha1, []) == Ok([])
  {
  }

  /** The list after one more child. */
  lemma NextEntry(sha1: Hash, cs: seq<Child>, k: nat)
    requires k < |cs|
    ensures Entries(sha1, cs[..k + 1])
         == match Entries(sha1, cs[..k])
            case Err(e) => Err(e)
            case Ok(es) =>
              match ChildEntry(sha1, cs[k])
              case Err(e) => Err(e)
              case Ok(None) => Ok(es)
              case Ok(Some(e)) => Ok(es + [e])
  {
    hide ChildEntry;
    assert cs[..k + 1][..k] == cs[..k];
  }

  lemma IdOfEntries(sha1: Hash, cs: seq<Child>)
    ensures TreeId(sha1, cs)
         == match Entries(sha1, cs)
            case Err(e) => Err(e)
            case Ok(es) =>
              if es == [] then Ok(None)
              else if !NamesEncodable(es) then Err(NameNotEncodable)
              else Ok(Some(sha1(TreeObject(Body(Sort(es))))))
  {
    hide Entries, Sort, Body, NamesEncodable;
  }

  lemma {:induction false} FirstRefusal(sha1: Hash, cs: seq<Child>, k: nat)
    requires k <= |cs| && Entries(sha1, cs[..k]).Err?
    ensures Entries(sha1, cs) == Entries(sha1, cs[..k])
  {
    if k < |cs| {
      assert cs[..|cs| - 1][..k] == cs[..k];
      FirstRefusal(sha1, cs[..|cs| - 1], k);
    } else {
      assert cs[..k] == cs;
    }
  }
}
