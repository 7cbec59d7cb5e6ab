/** A Git tree id commits to exactly the files below the directory: their paths,
    executable bits and contents. Listing order and empty directories do not
    matter, and two trees with different files can share an id only if two of the
    byte strings the two computations hash are a collision. */
module GitTreeBinding {
  import opened Sequences
  import opened Wrappers
  import opened LexOrder
  import opened Utf8
  import opened GitTree

  // ---------------------------------------------------------------- what a tree holds

  /** `cs` has a regular file with this owner-execute bit and content at `path`. */
  ghost predicate HasFile(cs: seq<Child>, path: seq<Str>, executable: bool, data: seq<byte>)
    decreases |path|, 0
  {
    path != [] && exists i :: 0 <= i < |cs| && cs[i].name == path[0] && NodeHas(cs[i].node, path[1..], executable, data)
  }

  ghost predicate NodeHas(n: Node, rest: seq<Str>, executable: bool, data: seq<byte>)
    decreases |rest|, 1
  {
    match n
    case File(mode, content) => rest == [] && executable == OwnerExecutable(mode) && data == content
    case Directory(children) => HasFile(children, rest, executable, data)
    case Symlink => false
  }

  ghost predicate HoldsFile(n: Node) {
    exists rest, executable, data :: NodeHas(n, rest, executable, data)
  }

  ghost predicate SameFiles(a: seq<Child>, b: seq<Child>) {
    forall path, executable, data :: HasFile(a, path, executable, data) <==> HasFile(b, path, executable, data)
  }

  /** `s` is one of the byte strings the computation of `TreeId(sha1, cs)` hashes. */
  ghost predicate Hashes(sha1: Hash, cs: seq<Child>, s: seq<byte>)
    decreases cs, 1
  {
    || (match Entries(sha1, cs)
        case Ok(es) => es != [] && s == TreeObject(Body(Sort(es)))
        case Err(_) => false)
    || exists i :: 0 <= i < |cs| && NodeHashes(sha1, cs[i].node, s)
  }

  ghost predicate NodeHashes(sha1: Hash, n: Node, s: seq<byte>)
    decreases n, 0
  {
    match n
    case File(_, data) => s == BlobObject(data)
    case Directory(children) => Hashes(sha1, children, s)
    case Symlink => false
  }

  ghost predicate Collide(sha1: Hash, a: seq<Child>, b: seq<Child>) {
    exists s, t :: Hashes(sha1, a, s) && Hashes(sha1, b, t) && s != t && sha1(s) == sha1(t)
  }

  // ---------------------------------------------------------------- entries

  /** The sort key Git uses, determined by the name and the mode. */
  predicate GoodEntry(e: Entry) {
    ValidName(e.name) && e.key == if e.mode.Tree40000? then e.name + [SLASH] else e.name
  }

  function Present(e: Option<Entry>): seq<Entry> {
    match e case None => [] case Some(x) => [x]
  }

  lemma EntriesStep(sha1: Hash, cs: seq<Child>)
    requires cs != [] && Entries(sha1, cs).Ok?
    ensures Entries(sha1, cs[..|cs| - 1]).Ok? && ChildEntry(sha1, cs[|cs| - 1]).Ok?
    ensures Entries(sha1, cs).value ==
            Entries(sha1, cs[..|cs| - 1]).value + Present(ChildEntry(sha1, cs[|cs| - 1]).value)
  {
  }

  lemma {:induction false} ChildrenPass(sha1: Hash, cs: seq<Child>, i: nat)
    requires Entries(sha1, cs).Ok? && i < |cs|
    ensures ChildEntry(sha1, cs[i]).Ok?
    ensures ChildEntry(sha1, cs[i]).value.Some? ==> ChildEntry(sha1, cs[i]).value.value in Entries(sha1, cs).value
  {
    EntriesStep(sha1, cs);
    if i < |cs| - 1 { ChildrenPass(sha1, cs[..|cs| - 1], i); }
  }

  lemma {:induction false} EntryOrigin(sha1: Hash, cs: seq<Child>, e: Entry) returns (i: nat)
    requires Entries(sha1, cs).Ok? && e in Entries(sha1, cs).value
    ensures i < |cs| && ChildEntry(sha1, cs[i]) == Ok(Some(e)) && cs[i].name == e.name
  {
    EntriesStep(sha1, cs);
    if e in Entries(sha1, cs[..|cs| - 1]).value {
      i := EntryOrigin(sha1, cs[..|cs| - 1], e);
    } else {
      i := |cs| - 1;
    }
  }

  lemma {:induction false} EntriesGood(sha1: Hash, cs: seq<Child>, e: Entry)
    requires WellFormed(cs) && Entries(sha1, cs).Ok? && e in Entries(sha1, cs).value
    ensures GoodEntry(e)
  {
    var i := EntryOrigin(sha1, cs, e);
  }

  lemma {:induction false} EntriesDistinct(sha1: Hash, cs: seq<Child>)
    requires WellFormed(cs) && Entries(sha1, cs).Ok?
    ensures DistinctKeys(Entries(sha1, cs).value)
  {
    if cs == [] {
      assert Entries(sha1, cs).value == [];
    } else {
      hide ChildEntry, Entries, GoodEntry;
      EntriesStep(sha1, cs);
      EntriesDistinct(sha1, cs[..|cs| - 1]);
      if ChildEntry(sha1, cs[|cs| - 1]).value.Some? { NewKeyApart(sha1, cs); }
    }
  }

  /** The last child's key is not among the keys before it. */
  lemma NewKeyApart(sha1: Hash, cs: seq<Child>)
    requires WellFormed(cs) && cs != [] && Entries(sha1, cs).Ok?
    requires Entries(sha1, cs[..|cs| - 1]).Ok? && ChildEntry(sha1, cs[|cs| - 1]).Ok?
    requires ChildEntry(sha1, cs[|cs| - 1]).value.Some?
    ensures var es, e := Entries(sha1, cs[..|cs| - 1]).value, ChildEntry(sha1, cs[|cs| - 1]).value.value;
      forall i :: 0 <= i < |es| ==> es[i].key != e.key
  {
    hide Entries, GoodEntry;
    var init, last := cs[..|cs| - 1], cs[|cs| - 1];
    var es, e := Entries(sha1, init).value, ChildEntry(sha1, last).value.value;
    ChildrenPass(sha1, cs, |cs| - 1);
    EntriesGood(sha1, cs, e);
    forall i | 0 <= i < |es| ensures es[i].key != e.key {
      var k := EntryOrigin(sha1, init, es[i]);
      EntriesGood(sha1, init, es[i]);
      assert init[k].name != last.name;
      KeysApart(es[i], e);
    }
  }

  lemma KeysApart(e: Entry, f: Entry)
    requires GoodEntry(e) && GoodEntry(f) && e.name != f.name
    ensures e.key != f.key
  {
    assert SLASH in e.name + [SLASH] && SLASH in f.name + [SLASH];
    assert (e.name + [SLASH])[..|e.name|] == e.name && (f.name + [SLASH])[..|f.name|] == f.name;
  }

  // ---------------------------------------------------------------- sorting is canonical

  lemma {:induction false} InsertDistinct(e: Entry, es: seq<Entry>)
    requires DistinctKeys(es) && forall i :: 0 <= i < |es| ==> es[i].key != e.key
    ensures DistinctKeys(Insert(e, es))
  {
    if es != [] && Less(e.key, es[|es| - 1].key) {
      var init, last := es[..|es| - 1], es[|es| - 1];
      InsertDistinct(e, init);
      InsertContents(e, init);
      var r := Insert(e, init);
      forall i | 0 <= i < |r| ensures r[i].key != last.key {
        assert r[i] in multiset(r);
        assert r[i] == e || r[i] in init;
      }
    }
  }

  lemma {:induction false} SortDistinct(es: seq<Entry>)
    requires DistinctKeys(es)
    ensures DistinctKeys(Sort(es)) && forall e :: e in Sort(es) <==> e in es
  {
    SortCorrect(es);
    if es != [] {
      var init, last := es[..|es| - 1], es[|es| - 1];
      SortDistinct(init);
      forall i | 0 <= i < |Sort(init)| ensures Sort(init)[i].key != last.key {
        assert Sort(init)[i] in init;
      }
      InsertDistinct(last, Sort(init));
    }
    forall e ensures e in Sort(es) <==> e in es {
      assert e in Sort(es) <==> e in multiset(Sort(es));
    }
  }

  lemma {:induction false} SortedUnique(a: seq<Entry>, b: seq<Entry>)
    requires Sorted(a) && Sorted(b) && DistinctKeys(a) && DistinctKeys(b)
    requires forall e :: e in a <==> e in b
    ensures a == b
  {
    assert a != [] ==> a[0] in a;
    assert b != [] ==> b[0] in b;
    if a != [] && b != [] {
      SameHead(a, b);
      forall e ensures e in a[1..] <==> e in b[1..] {
        TailMember(a, e);
        TailMember(b, e);
      }
      SortedUnique(a[1..], b[1..]);
      assert a == [a[0]] + a[1..] && b == [b[0]] + b[1..];
    }
  }

  lemma SameHead(a: seq<Entry>, b: seq<Entry>)
    requires a != [] && b != [] && Sorted(a) && Sorted(b)
    requires DistinctKeys(a)
    requires forall e :: e in a <==> e in b
    ensures a[0] == b[0]
  {
    assert a[0] in b && b[0] in a;
    HeadIsLeast(a, b[0]);
    HeadIsLeast(b, a[0]);
    Trichotomy(a[0].key, b[0].key);
  }

  lemma HeadIsLeast(a: seq<Entry>, e: Entry)
    requires Sorted(a) && e in a
    ensures e == a[0] || !Less(e.key, a[0].key)
  {
    var i :| 0 <= i < |a| && a[i] == e;
  }

  lemma TailMember(a: seq<Entry>, e: Entry)
    requires a != [] && DistinctKeys(a)
    ensures e in a[1..] <==> e in a && e != a[0]
  {
    if e in a[1..] {
      var k :| 0 <= k < |a[1..]| && a[1..][k] == e;
      assert a[k + 1] == e;
    }
  }

  // ---------------------------------------------------------------- unique decoding

  lemma ObjectPayload(h: seq<byte>, u: seq<byte>, g: seq<byte>, v: seq<byte>)
    requires h != [] && h[|h| - 1] == 0 && 0 !in h[..|h| - 1]
    requires g != [] && g[|g| - 1] == 0 && 0 !in g[..|g| - 1]
    requires h + u == g + v
    ensures u == v
  {
    var p, q := h[..|h| - 1], g[..|g| - 1];
    assert h == p + [0] && g == q + [0];
    FirstDelimiter(p, u, q, v, 0);
  }

  lemma ModeInjective(m: Mode, n: Mode)
    requires ModeBytes(m) == ModeBytes(n)
    ensures m == n
  {
    assert ModeBytes(m)[0] == ModeBytes(n)[0];
    assert |ModeBytes(m)| == 6 ==> ModeBytes(m)[3] == ModeBytes(n)[3];
  }

  lemma EntryFields(e: Entry, u: seq<byte>)
    ensures EntryBytes(e) + u == ModeBytes(e.mode) + [SPACE] + (Encode(e.name) + [0] + (e.digest + u))
  {
  }

  lemma EntryDecode(e: Entry, u: seq<byte>, f: Entry, v: seq<byte>)
    requires 0 !in e.name && 0 !in f.name
    requires EntryBytes(e) + u == EntryBytes(f) + v
    ensures e.mode == f.mode && e.name == f.name && e.digest == f.digest && u == v
  {
    var re, rf := Encode(e.name) + [0] + (e.digest + u), Encode(f.name) + [0] + (f.digest + v);
    EntryFields(e, u);
    EntryFields(f, v);
    FirstDelimiter(ModeBytes(e.mode), re, ModeBytes(f.mode), rf, SPACE);
    ModeInjective(e.mode, f.mode);
    EncodeNul(e.name);
    EncodeNul(f.name);
    FirstDelimiter(Encode(e.name), e.digest + u, Encode(f.name), f.digest + v, 0);
    EncodeInjective(e.name, f.name);
    assert (e.digest + u)[..20] == e.digest && (f.digest + v)[..20] == f.digest;
    assert (e.digest + u)[20..] == u && (f.digest + v)[20..] == v;
  }

  lemma BodyEmpty(es: seq<Entry>)
    ensures Body(es) == [] <==> es == []
  {
    if es != [] { assert |EntryBytes(es[0])| > 0; }
  }

  lemma BodyFirst(es: seq<Entry>)
    requires es != []
    ensures Body(es) == EntryBytes(es[0]) + Body(es[1..])
  {
    hide EntryBytes;
  }

  /** The concatenated records of a tree object decode in one way only. */
  lemma {:induction false} BodyInjective(a: seq<Entry>, b: seq<Entry>)
    requires forall e :: e in a || e in b ==> GoodEntry(e)
    requires Body(a) == Body(b)
    ensures a == b
  {
    hide EntryBytes;
    BodyEmpty(a);
    BodyEmpty(b);
    if a != [] && b != [] {
      assert a[0] in a && b[0] in b;
      BodyFirst(a);
      BodyFirst(b);
      EntryDecode(a[0], Body(a[1..]), b[0], Body(b[1..]));
      BodyInjective(a[1..], b[1..]);
      assert a == [a[0]] + a[1..] && b == [b[0]] + b[1..];
    }
  }

  // ---------------------------------------------------------------- ids and files

  lemma Lookup(cs: seq<Child>, i: nat, rest: seq<Str>, executable: bool, data: seq<byte>)
    requires WellFormed(cs) && i < |cs|
    ensures HasFile(cs, [cs[i].name] + rest, executable, data) <==> NodeHas(cs[i].node, rest, executable, data)
  {
    var path := [cs[i].name] + rest;
    assert path[0] == cs[i].name && path[1..] == rest;
  }

  lemma LookupChild(cs: seq<Child>, path: seq<Str>, executable: bool, data: seq<byte>) returns (i: nat)
    requires HasFile(cs, path, executable, data)
    ensures i < |cs| && path != [] && cs[i].name == path[0] && NodeHas(cs[i].node, path[1..], executable, data)
  {
    i :| 0 <= i < |cs| && cs[i].name == path[0] && NodeHas(cs[i].node, path[1..], executable, data);
  }

  lemma FileBelow(cs: seq<Child>, i: nat)
    requires i < |cs| && HoldsFile(cs[i].node)
    ensures HoldsFile(Directory(cs))
  {
    var rest, executable, data :| NodeHas(cs[i].node, rest, executable, data);
    var path := [cs[i].name] + rest;
    assert path[0] == cs[i].name && path[1..] == rest;
    assert HasFile(cs, path, executable, data);
    assert NodeHas(Directory(cs), path, executable, data);
  }

  lemma FileAbove(cs: seq<Child>) returns (i: nat)
    requires HoldsFile(Directory(cs))
    ensures i < |cs| && HoldsFile(cs[i].node)
  {
    var path, executable, data :| NodeHas(Directory(cs), path, executable, data);
    i := LookupChild(cs, path, executable, data);
  }

  /** A directory yields no tree exactly when no file lies below it. */
  lemma {:induction false} NoTreeIffNoFile(sha1: Hash, cs: seq<Child>)
    requires TreeId(sha1, cs).Ok?
    ensures TreeId(sha1, cs).value.None? <==> !HoldsFile(Directory(cs))
    decreases cs
  {
    if Entries(sha1, cs).value != [] {
      var i := EntryOrigin(sha1, cs, Entries(sha1, cs).value[0]);
      NoEntryIffNoFile(sha1, cs[i]);
      FileBelow(cs, i);
    } else if HoldsFile(Directory(cs)) {
      var i := FileAbove(cs);
      ChildrenPass(sha1, cs, i);
      NoEntryIffNoFile(sha1, cs[i]);
    }
  }

  lemma NoEntryIffNoFile(sha1: Hash, c: Child)
    requires ChildEntry(sha1, c).Ok?
    ensures ChildEntry(sha1, c).value.None? <==> !HoldsFile(c.node)
    decreases c
  {
    match c.node {
      case File(mode, data) => assert NodeHas(c.node, [], OwnerExecutable(mode), data);
      case Directory(children) => NoTreeIffNoFile(sha1, children);
    }
  }

  lemma SortedEntries(sha1: Hash, a: seq<Child>)
    requires WellFormed(a) && Entries(sha1, a).Ok?
    ensures forall e :: e in Sort(Entries(sha1, a).value) <==> e in Entries(sha1, a).value
    ensures forall e :: e in Sort(Entries(sha1, a).value) ==> GoodEntry(e)
  {
    EntriesDistinct(sha1, a);
    SortDistinct(Entries(sha1, a).value);
    forall e | e in Sort(Entries(sha1, a).value) ensures GoodEntry(e) {
      EntriesGood(sha1, a, e);
    }
  }

  lemma TreePayload(u: seq<byte>, v: seq<byte>)
    requires TreeObject(u) == TreeObject(v)
    ensures u == v
  {
    ObjectPayload(Header("tree", |u|), u, Header("tree", |v|), v);
  }

  lemma TreeObjectInjective(a: seq<Entry>, b: seq<Entry>)
    requires forall e :: e in a ==> GoodEntry(e)
    requires forall e :: e in b ==> GoodEntry(e)
    requires TreeObject(Body(a)) == TreeObject(Body(b))
    ensures a == b
  {
    TreePayload(Body(a), Body(b));
    BodyInjective(a, b);
  }

  /** Equal ids without a collision leave no freedom in the entries. */
  lemma SameEntries(sha1: Hash, a: seq<Child>, b: seq<Child>, e: Entry)
    requires WellFormed(a) && WellFormed(b) && !Collide(sha1, a, b)
    requires TreeId(sha1, a).Ok? && TreeId(sha1, a) == TreeId(sha1, b) && TreeId(sha1, a).value.Some?
    requires e in Entries(sha1, a).value
    ensures e in Entries(sha1, b).value
  {
    var sa, sb := Sort(Entries(sha1, a).value), Sort(Entries(sha1, b).value);
    assert Hashes(sha1, a, TreeObject(Body(sa))) && Hashes(sha1, b, TreeObject(Body(sb)));
    SortedEntries(sha1, a);
    SortedEntries(sha1, b);
    TreeObjectInjective(sa, sb);
  }

  lemma NoCollisionInDirectories(sha1: Hash, a: seq<Child>, i: nat, b: seq<Child>, j: nat)
    requires !Collide(sha1, a, b) && i < |a| && j < |b|
    requires a[i].node.Directory? && b[j].node.Directory?
    ensures !Collide(sha1, a[i].node.children, b[j].node.children)
  {
    var x, y := a[i].node.children, b[j].node.children;
    if Collide(sha1, x, y) {
      var s, t :| Hashes(sha1, x, s) && Hashes(sha1, y, t) && s != t && sha1(s) == sha1(t);
      HashedBelow(sha1, a, i, s);
      HashedBelow(sha1, b, j, t);
    }
  }

  lemma HashedBelow(sha1: Hash, a: seq<Child>, i: nat, s: seq<byte>)
    requires i < |a| && NodeHashes(sha1, a[i].node, s)
    ensures Hashes(sha1, a, s)
  {
  }

  lemma BlobPayload(u: seq<byte>, v: seq<byte>)
    requires BlobObject(u) == BlobObject(v)
    ensures u == v
  {
    ObjectPayload(Header("blob", |u|), u, Header("blob", |v|), v);
  }

  lemma NoCollisionInBlobs(sha1: Hash, a: seq<Child>, i: nat, b: seq<Child>, j: nat)
    requires !Collide(sha1, a, b) && i < |a| && j < |b|
    requires a[i].node.File? && b[j].node.File?
    requires sha1(BlobObject(a[i].node.data)) == sha1(BlobObject(b[j].node.data))
    ensures a[i].node.data == b[j].node.data
  {
    var d, e := a[i].node.data, b[j].node.data;
    HashedBelow(sha1, a, i, BlobObject(d));
    HashedBelow(sha1, b, j, BlobObject(e));
    assert sha1(BlobObject(d)) == sha1(BlobObject(e)) ==> BlobObject(d) == BlobObject(e);
    BlobPayload(d, e);
  }

  lemma Partner(sha1: Hash, a: seq<Child>, i: nat, b: seq<Child>) returns (j: nat)
    requires WellFormed(a) && WellFormed(b) && !Collide(sha1, a, b)
    requires TreeId(sha1, a).Ok? && TreeId(sha1, a) == TreeId(sha1, b)
    requires i < |a| && HoldsFile(a[i].node)
    ensures j < |b| && ChildEntry(sha1, a[i]).Ok? && ChildEntry(sha1, a[i]).value.Some?
    ensures ChildEntry(sha1, b[j]) == ChildEntry(sha1, a[i])
  {
    FileBelow(a, i);
    NoTreeIffNoFile(sha1, a);
    var e := EntryOfHolder(sha1, a, i);
    SameEntries(sha1, a, b, e);
    j := EntryOrigin(sha1, b, e);
  }

  /** Equal records come from files with the same bit and blob, or from
      directories with the same id. */
  lemma SameRecord(sha1: Hash, c: Child, d: Child)
    requires ChildEntry(sha1, c).Ok? && ChildEntry(sha1, c).value.Some? && ChildEntry(sha1, c) == ChildEntry(sha1, d)
    ensures c.name == d.name
    ensures c.node.File? ==> d.node.File? && OwnerExecutable(c.node.mode) == OwnerExecutable(d.node.mode) &&
                             sha1(BlobObject(c.node.data)) == sha1(BlobObject(d.node.data))
    ensures c.node.Directory? ==> d.node.Directory? && TreeId(sha1, c.node.children).Ok? &&
                                  TreeId(sha1, c.node.children) == TreeId(sha1, d.node.children)
    ensures !c.node.Symlink?
  {
  }

  lemma {:induction false} FilesTransfer(sha1: Hash, a: seq<Child>, b: seq<Child>,
                                         path: seq<Str>, executable: bool, data: seq<byte>)
    requires WellFormed(a) && WellFormed(b) && !Collide(sha1, a, b)
    requires TreeId(sha1, a).Ok? && TreeId(sha1, a) == TreeId(sha1, b)
    requires HasFile(a, path, executable, data)
    ensures HasFile(b, path, executable, data)
    decreases |path|
  {
    var i := LookupChild(a, path, executable, data);
    var j := Partner(sha1, a, i, b);
    SameRecord(sha1, a[i], b[j]);
    if a[i].node.Directory? {
      NoCollisionInDirectories(sha1, a, i, b, j);
      FilesTransfer(sha1, a[i].node.children, b[j].node.children, path[1..], executable, data);
    } else {
      NoCollisionInBlobs(sha1, a, i, b, j);
    }
    Lookup(b, j, path[1..], executable, data);
    assert path == [path[0]] + path[1..];
  }

  // ---------------------------------------------------------------- files determine the id

  lemma EntryOfHolder(sha1: Hash, cs: seq<Child>, i: nat) returns (f: Entry)
    requires Entries(sha1, cs).Ok? && i < |cs| && HoldsFile(cs[i].node)
    ensures ChildEntry(sha1, cs[i]) == Ok(Some(f)) && f in Entries(sha1, cs).value && f.name == cs[i].name
  {
    ChildrenPass(sha1, cs, i);
    NoEntryIffNoFile(sha1, cs[i]);
    f := ChildEntry(sha1, cs[i]).value.value;
  }

  lemma SameBelow(a: seq<Child>, i: nat, b: seq<Child>, j: nat)
    requires WellFormed(a) && WellFormed(b) && SameFiles(a, b)
    requires i < |a| && j < |b| && a[i].name == b[j].name
    ensures SameBelowNodes(a[i].node, b[j].node)
  {
    forall rest, executable, data
      ensures NodeHas(a[i].node, rest, executable, data) <==> NodeHas(b[j].node, rest, executable, data)
    {
      Lookup(a, i, rest, executable, data);
      Lookup(b, j, rest, executable, data);
    }
  }

  lemma Counterpart(a: seq<Child>, i: nat, b: seq<Child>) returns (j: nat)
    requires WellFormed(a) && WellFormed(b) && SameFiles(a, b)
    requires i < |a| && HoldsFile(a[i].node)
    ensures j < |b| && b[j].name == a[i].name && HoldsFile(b[j].node)
  {
    var rest, executable, data :| NodeHas(a[i].node, rest, executable, data);
    Lookup(a, i, rest, executable, data);
    j := LookupChild(b, [a[i].name] + rest, executable, data);
  }

  lemma SameFilesSymmetric(a: seq<Child>, b: seq<Child>)
    requires SameFiles(a, b)
    ensures SameFiles(b, a)
  {
  }

  ghost predicate SameBelowNodes(m: Node, n: Node) {
    forall rest, executable, data :: NodeHas(m, rest, executable, data) <==> NodeHas(n, rest, executable, data)
  }

  lemma SameKind(m: Node, n: Node)
    requires HoldsFile(m) && SameBelowNodes(m, n)
    ensures m.File? ==> n.File? && n.data == m.data && OwnerExecutable(n.mode) == OwnerExecutable(m.mode)
    ensures m.Directory? ==> n.Directory? && SameFiles(m.children, n.children)
    ensures !m.Symlink?
  {
    var rest, executable, data :| NodeHas(m, rest, executable, data);
    assert NodeHas(n, rest, executable, data);
    if m.Directory? {
      forall r, x, d ensures HasFile(m.children, r, x, d) <==> HasFile(n.children, r, x, d) {
        assert NodeHas(m, r, x, d) <==> NodeHas(n, r, x, d);
      }
    }
  }

  lemma {:induction false} RecordsAgree(sha1: Hash, c: Child, d: Child)
    requires c.name == d.name && HoldsFile(c.node) && SameBelowNodes(c.node, d.node)
    requires c.node.Directory? ==> WellFormed(c.node.children)
    requires d.node.Directory? ==> WellFormed(d.node.children)
    requires ChildEntry(sha1, c).Ok? && ChildEntry(sha1, d).Ok?
    ensures ChildEntry(sha1, c) == ChildEntry(sha1, d)
    decreases c, 0
  {
    SameKind(c.node, d.node);
    if c.node.Directory? { FilesDetermineId(sha1, c.node.children, d.node.children); }
  }

  lemma {:induction false} EntriesAgree(sha1: Hash, a: seq<Child>, b: seq<Child>, i: nat, j: nat)
    requires WellFormed(a) && WellFormed(b) && SameFiles(a, b)
    requires Entries(sha1, a).Ok? && Entries(sha1, b).Ok?
    requires i < |a| && j < |b| && a[i].name == b[j].name && HoldsFile(a[i].node)
    ensures ChildEntry(sha1, a[i]) == ChildEntry(sha1, b[j])
    decreases a, 0
  {
    SameBelow(a, i, b, j);
    ChildrenPass(sha1, a, i);
    ChildrenPass(sha1, b, j);
    RecordsAgree(sha1, a[i], b[j]);
  }

  lemma {:induction false} SameEntrySet(sha1: Hash, a: seq<Child>, b: seq<Child>, e: Entry)
    requires WellFormed(a) && WellFormed(b) && SameFiles(a, b)
    requires Entries(sha1, a).Ok? && Entries(sha1, b).Ok?
    ensures e in Entries(sha1, a).value <==> e in Entries(sha1, b).value
    decreases a, 1
  {
    if e in Entries(sha1, a).value {
      var i := EntryOrigin(sha1, a, e);
      NoEntryIffNoFile(sha1, a[i]);
      var j := Counterpart(a, i, b);
      EntriesAgree(sha1, a, b, i, j);
      ChildrenPass(sha1, b, j);
    }
    if e in Entries(sha1, b).value {
      var j := EntryOrigin(sha1, b, e);
      NoEntryIffNoFile(sha1, b[j]);
      SameFilesSymmetric(a, b);
      var i := Counterpart(b, j, a);
      EntriesAgree(sha1, a, b, i, j);
      ChildrenPass(sha1, a, i);
    }
  }

  lemma {:induction false} FilesDetermineId(sha1: Hash, a: seq<Child>, b: seq<Child>)
    requires WellFormed(a) && WellFormed(b) && SameFiles(a, b)
    requires TreeId(sha1, a).Ok? && TreeId(sha1, b).Ok?
    ensures TreeId(sha1, a) == TreeId(sha1, b)
    decreases a, 2
  {
    var ea, eb := Entries(sha1, a).value, Entries(sha1, b).value;
    forall e ensures e in ea <==> e in eb { SameEntrySet(sha1, a, b, e); }
    EntriesDistinct(sha1, a);
    EntriesDistinct(sha1, b);
    SameSort(ea, eb);
    assert ea != [] ==> ea[0] in ea;
    assert eb != [] ==> eb[0] in eb;
  }

  lemma SameSort(ea: seq<Entry>, eb: seq<Entry>)
    requires DistinctKeys(ea) && DistinctKeys(eb) && forall e :: e in ea <==> e in eb
    ensures Sort(ea) == Sort(eb)
  {
    SortDistinct(ea);
    SortDistinct(eb);
    SortCorrect(ea);
    SortCorrect(eb);
    SortedUnique(Sort(ea), Sort(eb));
  }

  // ---------------------------------------------------------------- main results

  /** Equal ids mean equal files, or exhibit two distinct byte strings, one hashed
      by each computation, with the same digest; equal files always mean equal ids,
      whatever the listing order and whatever empty directories there are. */
  lemma IdBindsFiles(sha1: Hash, a: seq<Child>, b: seq<Child>)
    requires WellFormed(a) && WellFormed(b)
    requires TreeId(sha1, a).Ok? && TreeId(sha1, b).Ok?
    ensures SameFiles(a, b) ==> TreeId(sha1, a) == TreeId(sha1, b)
    ensures TreeId(sha1, a) == TreeId(sha1, b) ==> SameFiles(a, b) || Collide(sha1, a, b)
  {
    if SameFiles(a, b) { FilesDetermineId(sha1, a, b); }
    if TreeId(sha1, a) == TreeId(sha1, b) && !Collide(sha1, a, b) {
      assert !Collide(sha1, b, a);
      forall path, executable, data
        ensures HasFile(a, path, executable, data) <==> HasFile(b, path, executable, data)
      {
        if HasFile(a, path, executable, data) { FilesTransfer(sha1, a, b, path, executable, data); }
        if HasFile(b, path, executable, data) { FilesTransfer(sha1, b, a, path, executable, data); }
      }
    }
  }

  /** What the computation accepts: no symbolic link anywhere, and every name on
      the way to a file can be encoded. */
  ghost predicate Acceptable(cs: seq<Child>) {
    forall i :: 0 <= i < |cs| ==>
      && !cs[i].node.Symlink?
      && (cs[i].node.Directory? ==> Acceptable(cs[i].node.children))
      && (HoldsFile(cs[i].node) ==> Encodable(cs[i].name))
  }

  lemma {:induction false} EntriesOk(sha1: Hash, cs: seq<Child>)
    ensures Entries(sha1, cs).Ok? <==> forall i :: 0 <= i < |cs| ==> ChildEntry(sha1, cs[i]).Ok?
  {
    if cs != [] {
      EntriesOk(sha1, cs[..|cs| - 1]);
      assert forall i :: 0 <= i < |cs| - 1 ==> cs[i] == cs[..|cs| - 1][i];
    }
  }

  lemma {:induction false} SucceedsExactly(sha1: Hash, cs: seq<Child>)
    ensures TreeId(sha1, cs).Ok? <==> Acceptable(cs)
    decreases cs
  {
    EntriesOk(sha1, cs);
    forall i | 0 <= i < |cs|
      ensures ChildEntry(sha1, cs[i]).Ok? <==>
        !cs[i].node.Symlink? && (cs[i].node.Directory? ==> Acceptable(cs[i].node.children))
    {
      if cs[i].node.Directory? { SucceedsExactly(sha1, cs[i].node.children); }
    }
    if Entries(sha1, cs).Ok? {
      var es := Entries(sha1, cs).value;
      forall i | 0 <= i < |cs| ensures HoldsFile(cs[i].node) <==> ChildEntry(sha1, cs[i]).value.Some? {
        NoEntryIffNoFile(sha1, cs[i]);
      }
      if NamesEncodable(es) {
        forall i | 0 <= i < |cs| && HoldsFile(cs[i].node) ensures Encodable(cs[i].name) {
          ChildrenPass(sha1, cs, i);
          assert ChildEntry(sha1, cs[i]).value.value in es && ChildEntry(sha1, cs[i]).value.value.name == cs[i].name;
        }
      } else {
        var k :| 0 <= k < |es| && !Encodable(es[k].name);
        var i := EntryOrigin(sha1, cs, es[k]);
      }
    }
  }

  /** Sorting Python strings puts the records in the order of Git's own byte
      comparison, in which a directory's name counts as if it ended in a slash. */
  lemma RecordsInGitOrder(sha1: Hash, cs: seq<Child>, i: nat, j: nat)
    requires WellFormed(cs) && Entries(sha1, cs).Ok? && i < j < |Entries(sha1, cs).value|
    ensures |Sort(Entries(sha1, cs).value)| == |Entries(sha1, cs).value|
    ensures var es := Sort(Entries(sha1, cs).value);
      GoodEntry(es[i]) && GoodEntry(es[j]) && Less(Encode(es[i].key), Encode(es[j].key))
  {
    var es := Entries(sha1, cs).value;
    SortCorrect(es);
    assert |multiset(Sort(es))| == |multiset(es)|;
    EntriesDistinct(sha1, cs);
    SortDistinct(es);
    assert Sort(es)[i] in es && Sort(es)[j] in es;
    EntriesGood(sha1, cs, Sort(es)[i]);
    EntriesGood(sha1, cs, Sort(es)[j]);
    Trichotomy(Sort(es)[i].key, Sort(es)[j].key);
    EncodeOrder(Sort(es)[i].key, Sort(es)[j].key);
  }
}
