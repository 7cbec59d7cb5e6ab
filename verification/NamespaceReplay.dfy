/**
  * The replay of namespace, section, `end` and theorem events in
  * `declared_theorems` (scripts/check_report_theorem_inventory.py), and the
  * class `Scope` of scripts/generate_ux2.py that keeps the same stack.
  *
  * An event carries what the two regular expressions captured and the line it
  * was found on; the scan for events is not part of this model.
  */
module NamespaceReplay {

  import opened Wrappers
  import opened Dotted

  // ----- Events and states -------------------------------------------------

  datatype Event =
    | Namespace(tag: Option<string>, line: nat)
    | Section(tag: Option<string>, line: nat)
    | End(tag: Option<string>, line: nat)
    | Theorem(name: string, line: nat)

  datatype Failure =
    | UnnamedNamespace(line: nat)
    | NeverOpened(line: nat)
    | WrongLabel(line: nat)
    | DeclaredTwice(name: string, first: nat, line: nat)
    | LeftOpen(count: nat)

  /** One entry of `scopes`: what it adds to a name, and what `end` may call it. */
  datatype Opened = Opened(name: Option<string>, tag: Option<string>)

  datatype State =
    | Running(scopes: seq<Opened>, found: map<string, nat>)
    | Failed(failure: Failure)

  const MODULE: string := "LidoSRv3.Audit.Guarantees.PAlloc1"
  const NAMESPACE: string := MODULE + "."

  predicate Missing(tag: Option<string>) {
    tag.None? || tag.value == ""
  }

  function Relative(qualified: string): string {
    if NAMESPACE <= qualified then qualified[|NAMESPACE|..] else qualified
  }

  /** The names of the scopes that have one, outermost first. */
  function ScopeNames(scopes: seq<Opened>): seq<string> {
    if scopes == [] then []
    else
      var top := scopes[|scopes| - 1];
      ScopeNames(scopes[..|scopes| - 1])
      + if Missing(top.name) then [] else [top.name.value]
  }

  // ----- One event, and a list of them -------------------------------------

  function Step(s: State, e: Event): State {
    if s.Failed? then s
    else match e
      case Namespace(tag, line) =>
        if Missing(tag) then Failed(UnnamedNamespace(line))
        else Running(s.scopes + [Opened(tag, tag)], s.found)
      case Section(tag, _) =>
        Running(s.scopes + [Opened(None, tag)], s.found)
      case End(tag, line) =>
        if s.scopes == [] then Failed(NeverOpened(line))
        else if tag.Some? && tag != s.scopes[|s.scopes| - 1].tag then
          Failed(WrongLabel(line))
        else Running(s.scopes[..|s.scopes| - 1], s.found)
      case Theorem(name, line) =>
        var relative := Relative(Join(ScopeNames(s.scopes) + [name]));
        if relative in s.found then
          Failed(DeclaredTwice(relative, s.found[relative], line))
        else Running(s.scopes, s.found[relative := line])
  }

  function Run(s: State, events: seq<Event>): State {
    if events == [] then s
    else Step(Run(s, events[..|events| - 1]), events[|events| - 1])
  }

  function Finish(s: State): Result<map<string, nat>, Failure> {
    if s.Failed? then Err(s.failure)
    else if s.scopes != [] then Err(LeftOpen(|s.scopes|))
    else Ok(s.found)
  }

  function Replay(events: seq<Event>): Result<map<string, nat>, Failure> {
    Finish(Run(Running([], map[]), events))
  }

  /** The list `[name for name, _ in scopes if name]`. */
  method NamesInScope(scopes: seq<Opened>) returns (names: seq<string>)
    ensures names == ScopeNames(scopes)
  {
    names := [];
    for i := 0 to |scopes|
      invariant names == ScopeNames(scopes[..i])
    {
      assert scopes[..i + 1][..i] == scopes[..i];
      if !Missing(scopes[i].name) { names := names + [scopes[i].name.value]; }
    }
    assert scopes[..|scopes|] == scopes;
  }

  method DeclaredTheorems(events: seq<Event>)
    returns (r: Result<map<string, nat>, Failure>)
    ensures r == Replay(events)
  {
    var scopes: seq<Opened> := [];
    var found: map<string, nat> := map[];
    for i := 0 to |events|
      invariant Run(Running([], map[]), events[..i]) == Running(scopes, found)
    {
      RunNext(Running([], map[]), events, i);
      match events[i]
      case Namespace(tag, line) =>
        if Missing(tag) {
          FailureStays(events, i + 1);
          return Err(UnnamedNamespace(line));
        }
        scopes := scopes + [Opened(tag, tag)];
      case Section(tag, line) =>
        scopes := scopes + [Opened(None, tag)];
      case End(tag, line) =>
        if scopes == [] {
          FailureStays(events, i + 1);
          return Err(NeverOpened(line));
        }
        var innermost := scopes[|scopes| - 1].tag;
        scopes := scopes[..|scopes| - 1];
        if tag.Some? && tag != innermost {
          FailureStays(events, i + 1);
          return Err(WrongLabel(line));
        }
      case Theorem(name, line) =>
        var names := NamesInScope(scopes);
        var relative := Relative(Join(names + [name]));
        if relative in found {
          FailureStays(events, i + 1);
          return Err(DeclaredTwice(relative, found[relative], line));
        }
        found := found[relative := line];
    }
    assert events[..|events|] == events;
    if scopes != [] { return Err(LeftOpen(|scopes|)); }
    return Ok(found);
  }

  lemma RunNext(s: State, events: seq<Event>, i: nat)
    requires i < |events|
    ensures Run(s, events[..i + 1]) == Step(Run(s, events[..i]), events[i])
  {
    assert events[..i + 1][..i] == events[..i];
  }

  lemma FailureStays(events: seq<Event>, k: nat)
    requires k <= |events|
    requires Run(Running([], map[]), events[..k]).Failed?
    ensures Run(Running([], map[]), events) == Run(Running([], map[]), events[..k])
  {
    hide Run, Step;
    assert events == events[..k] + events[k..];
    RunConcat(Running([], map[]), events[..k], events[k..]);
    FailedRun(Run(Running([], map[]), events[..k]), events[k..]);
  }

  lemma RunConcat(s: State, a: seq<Event>, b: seq<Event>)
    ensures Run(s, a + b) == Run(Run(s, a), b)
  {
    if b == [] {
      assert a + b == a;
    } else {
      assert (a + b)[..|a + b| - 1] == a + b[..|b| - 1];
      RunConcat(s, a, b[..|b| - 1]);
    }
  }

  // ----- Module trees ------------------------------------------------------

  /**
    * Source text as a tree, the last command outermost: a theorem, a closed
    * block with its body, or a block still waiting for its `end`.
    */
  datatype Tree =
    | Empty
    | Declared(before: Tree, name: string, line: nat)
    | Block(before: Tree, head: Event, body: Tree, close: Event)
    | Unclosed(before: Tree, head: Event)

  /** Nothing in the tree waits for its `end`. */
  predicate Closed(t: Tree) {
    match t
    case Empty => true
    case Declared(before, _, _) => Closed(before)
    case Block(before, _, body, _) => Closed(before) && Closed(body)
    case Unclosed(_, _) => false
  }

  predicate OpensBlock(head: Event) {
    (head.Namespace? && !Missing(head.tag)) || head.Section?
  }

  /** An `end` with no label closes any block, one with a label the block so labelled. */
  predicate Closes(close: Event, head: Event)
    requires OpensBlock(head)
  {
    close.End? && (close.tag.None? || close.tag == head.tag)
  }

  predicate WellNested(t: Tree) {
    match t
    case Empty => true
    case Declared(before, _, _) => WellNested(before)
    case Block(before, head, body, close) =>
      WellNested(before) && OpensBlock(head) && WellNested(body) && Closed(body)
      && Closes(close, head)
    case Unclosed(before, head) => WellNested(before) && OpensBlock(head)
  }

  function Events(t: Tree): seq<Event> {
    match t
    case Empty => []
    case Declared(before, name, line) => Events(before) + [Theorem(name, line)]
    case Block(before, head, body, close) =>
      Events(before) + [head] + Events(body) + [close]
    case Unclosed(before, head) => Events(before) + [head]
  }

  /** What a block adds to the names inside it: a namespace its label, a section nothing. */
  function Component(head: Event): seq<string> {
    if head.Namespace? && head.tag.Some? then [head.tag.value] else []
  }

  /** The path at the end of the tree, below `outer`. */
  function PathAt(t: Tree, outer: seq<string>): seq<string> {
    match t
    case Empty => outer
    case Declared(before, _, _) => PathAt(before, outer)
    case Block(before, _, _, _) => PathAt(before, outer)
    case Unclosed(before, head) => PathAt(before, outer) + Component(head)
  }

  datatype Entry = Entry(path: seq<string>, line: nat)

  /** Every theorem of the tree with its full path, in source order. */
  function Theorems(t: Tree, outer: seq<string>): seq<Entry> {
    match t
    case Empty => []
    case Declared(before, name, line) =>
      Theorems(before, outer) + [Entry(PathAt(before, outer) + [name], line)]
    case Block(before, head, body, _) =>
      Theorems(before, outer) + Theorems(body, PathAt(before, outer) + Component(head))
    case Unclosed(before, _) => Theorems(before, outer)
  }

  function Unfinished(t: Tree): nat {
    match t
    case Empty => 0
    case Declared(before, _, _) => Unfinished(before)
    case Block(before, _, _, _) => Unfinished(before)
    case Unclosed(before, _) => Unfinished(before) + 1
  }

  function NameOf(e: Entry): string { Relative(Join(e.path)) }

  predicate Distinct(entries: seq<Entry>) {
    forall i, j :: 0 <= i < j < |entries| ==> NameOf(entries[i]) != NameOf(entries[j])
  }

  /** The inventory: each name with the line it was declared on. */
  ghost predicate Inventories(found: map<string, nat>, entries: seq<Entry>) {
    && (forall i :: 0 <= i < |entries| ==>
          NameOf(entries[i]) in found && found[NameOf(entries[i])] == entries[i].line)
    && (forall name :: name in found ==>
          exists i :: 0 <= i < |entries| && NameOf(entries[i]) == name)
  }

  // ----- Replaying a tree --------------------------------------------------

  function OpenedBy(head: Event): Opened
    requires OpensBlock(head)
  {
    if head.Namespace? then Opened(head.tag, head.tag) else Opened(None, head.tag)
  }

  /** The stack the tree leaves on top of `below`. */
  function Stack(t: Tree, below: seq<Opened>): seq<Opened>
    requires WellNested(t)
  {
    match t
    case Empty => below
    case Declared(before, _, _) => Stack(before, below)
    case Block(before, _, _, _) => Stack(before, below)
    case Unclosed(before, head) => Stack(before, below) + [OpenedBy(head)]
  }

  lemma StackShape(t: Tree, below: seq<Opened>)
    requires WellNested(t)
    ensures |Stack(t, below)| == |below| + Unfinished(t)
    ensures Closed(t) ==> Stack(t, below) == below && Unfinished(t) == 0
    ensures Unfinished(t) == 0 ==> Closed(t)
    ensures ScopeNames(Stack(t, below)) == PathAt(t, ScopeNames(below))
  {
    match t
    case Empty =>
    case Declared(before, _, _) => StackShape(before, below);
    case Block(before, head, body, _) => StackShape(before, below);
    case Unclosed(before, head) =>
      StackShape(before, below);
      assert (Stack(before, below) + [OpenedBy(head)])[..|Stack(before, below)|]
          == Stack(before, below);
  }

  /** Adding entries one at a time to an inventory: `None` on the first repeated name. */
  function Record(found: map<string, nat>, entries: seq<Entry>): Option<map<string, nat>> {
    if entries == [] then Some(found)
    else
      var last := entries[|entries| - 1];
      match Record(found, entries[..|entries| - 1])
      case None => None
      case Some(m) => if NameOf(last) in m then None else Some(m[NameOf(last) := last.line])
  }

  lemma RecordConcat(found: map<string, nat>, a: seq<Entry>, b: seq<Entry>)
    ensures Record(found, a + b)
         == match Record(found, a) case None => None case Some(m) => Record(m, b)
  {
    if b == [] {
      assert a + b == a;
    } else {
      assert (a + b)[..|a + b| - 1] == a + b[..|b| - 1];
      RecordConcat(found, a, b[..|b| - 1]);
    }
  }

  lemma {:induction false} RecordExact(entries: seq<Entry>)
    ensures Record(map[], entries).Some? <==> Distinct(entries)
    ensures Record(map[], entries).Some? ==> Inventories(Record(map[], entries).value, entries)
  {
    hide NameOf;
    if entries != [] {
      var init, last := entries[..|entries| - 1], entries[|entries| - 1];
      RecordExact(init);
      assert entries == init + [last];
      RecordLast(map[], init, last);
      DistinctLast(init, last);
      if Distinct(init) {
        InventoryLast(Record(map[], init).value, init, last);
      }
    }
  }

  lemma DistinctLast(init: seq<Entry>, last: Entry)
    ensures Distinct(init + [last])
       <==> Distinct(init) && forall i :: 0 <= i < |init| ==> NameOf(init[i]) != NameOf(last)
  {
    hide NameOf;
    var all := init + [last];
    if Distinct(all) {
      forall i, j | 0 <= i < j < |init| ensures NameOf(init[i]) != NameOf(init[j]) {
        assert NameOf(all[i]) != NameOf(all[j]);
      }
      forall i | 0 <= i < |init| ensures NameOf(init[i]) != NameOf(last) {
        assert NameOf(all[i]) != NameOf(all[|init|]);
      }
    }
  }

  lemma InventoryLast(m: map<string, nat>, init: seq<Entry>, last: Entry)
    requires Inventories(m, init)
    ensures NameOf(last) in m <==> exists i :: 0 <= i < |init| && NameOf(init[i]) == NameOf(last)
    ensures NameOf(last) !in m ==> Inventories(m[NameOf(last) := last.line], init + [last])
  {
    hide NameOf;
    var all, m' := init + [last], m[NameOf(last) := last.line];
    if NameOf(last) !in m {
      forall name: string | name in m'
        ensures exists i :: 0 <= i < |all| && NameOf(all[i]) == name
      {
        if name == NameOf(last) {
          assert NameOf(all[|init|]) == name;
        } else {
          assert name in m;
          var i :| 0 <= i < |init| && NameOf(init[i]) == name;
          assert NameOf(all[i]) == name;
        }
      }
    }
  }

  /** Two inventories of the same entries are the same map. */
  lemma InventoriesUnique(a: map<string, nat>, b: map<string, nat>, entries: seq<Entry>)
    requires Inventories(a, entries) && Inventories(b, entries)
    ensures a == b
  {
    forall name
      ensures name in a <==> name in b
      ensures name in a && name in b ==> a[name] == b[name]
    {
      if name in a {
        var i :| 0 <= i < |entries| && NameOf(entries[i]) == name;
      }
      if name in b {
        var i :| 0 <= i < |entries| && NameOf(entries[i]) == name;
      }
    }
  }

  lemma RunOne(s: State, e: Event)
    ensures Run(s, [e]) == Step(s, e)
  {
    assert [e][..0] == [];
    assert Run(s, []) == s;
  }

  lemma FailedRun(s: State, events: seq<Event>)
    requires s.Failed?
    ensures Run(s, events) == s
  {
    if events != [] { FailedRun(s, events[..|events| - 1]); }
  }

  lemma StepOpens(scopes: seq<Opened>, found: map<string, nat>, head: Event)
    requires OpensBlock(head)
    ensures Step(Running(scopes, found), head) == Running(scopes + [OpenedBy(head)], found)
  {
  }

  lemma StepCloses(scopes: seq<Opened>, found: map<string, nat>, head: Event, close: Event)
    requires OpensBlock(head) && Closes(close, head)
    ensures Step(Running(scopes + [OpenedBy(head)], found), close) == Running(scopes, found)
  {
    assert (scopes + [OpenedBy(head)])[..|scopes|] == scopes;
  }

  lemma StepDeclares(scopes: seq<Opened>, found: map<string, nat>, name: string, line: nat)
    ensures var r := Record(found, [Entry(ScopeNames(scopes) + [name], line)]);
            var s := Step(Running(scopes, found), Theorem(name, line));
            if r.Some? then s == Running(scopes, r.value)
            else s.Failed? && s.failure.DeclaredTwice?
  {
    RecordLast(found, [], Entry(ScopeNames(scopes) + [name], line));
  }

  /** Where the replay of a tree must arrive. */
  ghost predicate Arrives(s: State, scopes: seq<Opened>, r: Option<map<string, nat>>) {
    if r.Some? then s == Running(scopes, r.value)
    else s.Failed? && s.failure.DeclaredTwice?
  }

  /**
    * A tree replayed below any stack: the stack is the tree's own, and the
    * theorems are recorded in order under their paths; a repeated name fails.
    */
  lemma {:induction false} TreeReplayed(t: Tree, below: seq<Opened>, found: map<string, nat>)
    requires WellNested(t)
    ensures Arrives(Run(Running(below, found), Events(t)), Stack(t, below),
                    Record(found, Theorems(t, ScopeNames(below))))
  {
    hide Run, Step, Record, ScopeNames, Relative;
    match t
    case Empty =>
      EmptyReplayed(below, found);
    case Declared(before, name, line) =>
      TreeReplayed(before, below, found);
      DeclaredReplayed(t, below, found);
    case Unclosed(before, head) =>
      TreeReplayed(before, below, found);
      UnclosedReplayed(before, head, below, found);
    case Block(before, head, body, close) =>
      TreeReplayed(before, below, found);
      UnclosedReplayed(before, head, below, found);
      var r := Record(found, Theorems(before, ScopeNames(below)));
      if r.Some? {
        TreeReplayed(body, Stack(before, below) + [OpenedBy(head)], r.value);
      }
      BlockReplayed(t, below, found);
  }

  lemma EmptyReplayed(below: seq<Opened>, found: map<string, nat>)
    ensures Run(Running(below, found), []) == Running(below, found)
    ensures Record(found, []) == Some(found)
  {
  }

  lemma DeclaredReplayed(t: Tree, below: seq<Opened>, found: map<string, nat>)
    requires t.Declared? && WellNested(t)
    requires Arrives(Run(Running(below, found), Events(t.before)), Stack(t.before, below),
                     Record(found, Theorems(t.before, ScopeNames(below))))
    ensures Arrives(Run(Running(below, found), Events(t)), Stack(t, below),
                    Record(found, Theorems(t, ScopeNames(below))))
  {
    hide Run, Step, Record, ScopeNames, Relative;
    var s0, e := Running(below, found), Theorem(t.name, t.line);
    var outer := ScopeNames(below);
    var entry := Entry(PathAt(t.before, outer) + [t.name], t.line);
    StackShape(t.before, below);
    RunConcat(s0, Events(t.before), [e]);
    RunOne(Run(s0, Events(t.before)), e);
    RecordConcat(found, Theorems(t.before, outer), [entry]);
    var r := Record(found, Theorems(t.before, outer));
    if r.Some? {
      StepDeclares(Stack(t.before, below), r.value, t.name, t.line);
    } else {
      StepFailed(Run(s0, Events(t.before)), e);
    }
  }

  lemma UnclosedReplayed(before: Tree, head: Event, below: seq<Opened>, found: map<string, nat>)
    requires WellNested(before) && OpensBlock(head)
    requires Arrives(Run(Running(below, found), Events(before)), Stack(before, below),
                     Record(found, Theorems(before, ScopeNames(below))))
    ensures Arrives(Run(Running(below, found), Events(before) + [head]),
                    Stack(before, below) + [OpenedBy(head)],
                    Record(found, Theorems(before, ScopeNames(below))))
  {
    hide Run, Step, Record, ScopeNames;
    var s0 := Running(below, found);
    RunConcat(s0, Events(before), [head]);
    RunOne(Run(s0, Events(before)), head);
    var r := Record(found, Theorems(before, ScopeNames(below)));
    if r.Some? {
      StepOpens(Stack(before, below), r.value, head);
    } else {
      StepFailed(Run(s0, Events(before)), head);
    }
  }

  lemma StepFailed(s: State, e: Event)
    requires s.Failed?
    ensures Step(s, e) == s
  {
  }

  lemma BlockReplayed(t: Tree, below: seq<Opened>, found: map<string, nat>)
    requires t.Block? && WellNested(t)
    requires var r := Record(found, Theorems(t.before, ScopeNames(below)));
             var mid := Stack(t.before, below) + [OpenedBy(t.head)];
             && Arrives(Run(Running(below, found), Events(t.before) + [t.head]), mid, r)
             && (r.Some? ==>
                   Arrives(Run(Running(mid, r.value), Events(t.body)), Stack(t.body, mid),
                           Record(r.value, Theorems(t.body, ScopeNames(mid)))))
    ensures Arrives(Run(Running(below, found), Events(t)), Stack(t, below),
                    Record(found, Theorems(t, ScopeNames(below))))
  {
    hide Run, Step, Record, ScopeNames, Relative;
    var s0, outer := Running(below, found), ScopeNames(below);
    var opening := Events(t.before) + [t.head];
    var mid := Stack(t.before, below) + [OpenedBy(t.head)];
    StackShape(Unclosed(t.before, t.head), below);
    StackShape(t.body, mid);
    RunConcat(s0, opening, Events(t.body));
    RunConcat(s0, opening + Events(t.body), [t.close]);
    RunOne(Run(s0, opening + Events(t.body)), t.close);
    RecordConcat(found, Theorems(t.before, outer),
                 Theorems(t.body, PathAt(t.before, outer) + Component(t.head)));
    var r := Record(found, Theorems(t.before, outer));
    if r.None? {
      FailedRun(Run(s0, opening), Events(t.body));
      StepFailed(Run(s0, opening), t.close);
    } else {
      var r2 := Record(r.value, Theorems(t.body, ScopeNames(mid)));
      if r2.None? {
        StepFailed(Run(s0, opening + Events(t.body)), t.close);
      } else {
        StepCloses(Stack(t.before, below), r2.value, t.head, t.close);
      }
    }
  }

  lemma RecordLast(found: map<string, nat>, entries: seq<Entry>, last: Entry)
    ensures Record(found, entries + [last])
         == match Record(found, entries)
            case None => None
            case Some(m) => if NameOf(last) in m then None else Some(m[NameOf(last) := last.line])
  {
    assert (entries + [last])[..|entries|] == entries;
  }

  // ----- Reading a tree back from events -----------------------------------

  /** What follows the innermost unclosed block. */
  function Tail(t: Tree): Tree {
    match t
    case Empty => Empty
    case Declared(before, name, line) => Declared(Tail(before), name, line)
    case Block(before, head, body, close) => Block(Tail(before), head, body, close)
    case Unclosed(_, _) => Empty
  }

  /** The innermost unclosed block with what precedes it. */
  function Innermost(t: Tree): (r: Tree)
    requires Unfinished(t) > 0
    ensures r.Unclosed?
    ensures WellNested(t) ==> WellNested(r)
  {
    match t
    case Declared(before, _, _) => Innermost(before)
    case Block(before, _, _, _) => Innermost(before)
    case Unclosed(_, _) => t
  }

  lemma SplitAtInnermost(t: Tree, below: seq<Opened>)
    requires WellNested(t) && Unfinished(t) > 0
    ensures WellNested(Tail(t)) && Closed(Tail(t))
    ensures Events(t) == Events(Innermost(t)) + Events(Tail(t))
    ensures Stack(t, below) == Stack(Innermost(t), below)
  {
    match t
    case Declared(before, name, line) =>
      SplitAtInnermost(before, below);
      assert Events(t) == Events(Innermost(t)) + (Events(Tail(before)) + [Theorem(name, line)]);
    case Block(before, head, body, close) =>
      SplitAtInnermost(before, below);
      var a, b := Events(Innermost(t)), Events(Tail(before));
      assert Events(t) == (a + b) + [head] + Events(body) + [close];
      assert Events(Tail(t)) == b + [head] + Events(body) + [close];
      assert Events(t) == a + (b + [head] + Events(body) + [close]);
    case Unclosed(_, _) =>
  }

  /** A run that has not failed has read a well-nested tree. */
  lemma {:induction false} ReadBack(events: seq<Event>) returns (t: Tree)
    requires Run(Running([], map[]), events).Running?
    ensures WellNested(t) && Events(t) == events
  {
    hide Step, Stack, Theorems, Distinct, Inventories, PathAt, ScopeNames;
    if events == [] {
      t := Empty;
      return;
    }
    var init, e := events[..|events| - 1], events[|events| - 1];
    StepNotFailed(Run(Running([], map[]), init), e);
    var before := ReadBack(init);
    PartReplayed(before);
    assert events == init + [e];
    t := Extend(before, e);
  }

  lemma StepNotFailed(s: State, e: Event)
    requires Step(s, e).Running?
    ensures s.Running?
  {
  }

  /** An accepted event extends the tree read so far. */
  lemma Extend(before: Tree, e: Event) returns (t: Tree)
    requires WellNested(before)
    requires Run(Running([], map[]), Events(before)).Running?
    requires Step(Run(Running([], map[]), Events(before)), e).Running?
    ensures WellNested(t) && Events(t) == Events(before) + [e]
  {
    hide Run, Theorems, Distinct, Inventories, PathAt, ScopeNames, Relative;
    PartReplayed(before);
    match e
    case Namespace(_, _) => t := Unclosed(before, e);
    case Section(_, _) => t := Unclosed(before, e);
    case Theorem(name, line) => t := Declared(before, name, line);
    case End(_, _) =>
      SplitAtInnermost(before, []);
      var inner := Innermost(before);
      t := Block(inner.before, inner.head, Tail(before), e);
      assert Stack(inner, []) == Stack(inner.before, []) + [OpenedBy(inner.head)];
      assert Events(inner) == Events(inner.before) + [inner.head];
  }

  // ----- Main results ------------------------------------------------------

  /** The replay of a complete module gives every theorem its path, and only those. */
  lemma ModuleInventoried(t: Tree)
    requires WellNested(t) && Closed(t)
    ensures Replay(Events(t)).Ok? <==> Distinct(Theorems(t, []))
    ensures Replay(Events(t)).Ok? ==> Inventories(Replay(Events(t)).value, Theorems(t, []))
    ensures Replay(Events(t)).Err? ==> Replay(Events(t)).error.DeclaredTwice?
  {
    TreeReplayed(t, [], map[]);
    StackShape(t, []);
    RecordExact(Theorems(t, []));
  }

  /** The events of a complete, well-nested module whose names are all different. */
  ghost predicate IsModule(t: Tree, events: seq<Event>) {
    WellNested(t) && Closed(t) && Events(t) == events && Distinct(Theorems(t, []))
  }

  /** For any events at all: success means exactly that they are such a module. */
  lemma SucceedsExactly(events: seq<Event>, found: map<string, nat>)
    ensures Replay(events) == Ok(found)
       <==> exists t :: IsModule(t, events) && Inventories(found, Theorems(t, []))
  {
    if Replay(events) == Ok(found) {
      var t := ReadBack(events);
      TreeReplayed(t, [], map[]);
      StackShape(t, []);
      ModuleInventoried(t);
      assert IsModule(t, events);
    }
    if t :| IsModule(t, events) && Inventories(found, Theorems(t, [])) {
      ModuleInventoried(t);
      InventoriesUnique(found, Replay(events).value, Theorems(t, []));
    }
  }

  /** The event is refused after the part of a module read so far. */
  ghost predicate Refused(t: Tree, e: Event, failure: Failure)
    requires WellNested(t)
  {
    match failure
    case UnnamedNamespace(line) => e.Namespace? && Missing(e.tag) && e.line == line
    case NeverOpened(line) => e.End? && Closed(t) && e.line == line
    case WrongLabel(line) =>
      e.End? && e.line == line && Unfinished(t) > 0 && !Closes(e, Innermost(t).head)
    case DeclaredTwice(name, first, line) =>
      && e.Theorem? && e.line == line
      && name == Relative(Join(PathAt(t, []) + [e.name]))
      && exists i :: 0 <= i < |Theorems(t, [])|
                  && NameOf(Theorems(t, [])[i]) == name && Theorems(t, [])[i].line == first
    case LeftOpen(_) => false
  }

  /** What makes the replay of `events` fail: the first refused event, or the end of the file. */
  ghost predicate Explains(t: Tree, k: nat, events: seq<Event>, failure: Failure) {
    && k <= |events|
    && WellNested(t) && Distinct(Theorems(t, []))
    && Events(t) == events[..k]
    && if k == |events| then failure == LeftOpen(Unfinished(t)) && !Closed(t)
       else Refused(t, events[k], failure)
  }

  /** For any events at all: each failure, with its lines and names, has exactly this cause. */
  lemma FailsExactly(events: seq<Event>, failure: Failure)
    ensures Replay(events) == Err(failure)
       <==> exists t, k: nat :: Explains(t, k, events, failure)
  {
    hide Explains, Replay;
    if Replay(events) == Err(failure) { var t, k := FailureExplained(events, failure); }
    if t, k: nat :| Explains(t, k, events, failure) { CauseFails(t, k, events, failure); }
  }

  /** A failure has a cause. */
  lemma FailureExplained(events: seq<Event>, failure: Failure) returns (t: Tree, k: nat)
    requires Replay(events) == Err(failure)
    ensures Explains(t, k, events, failure)
  {
    hide Run, Refused, Theorems, Distinct, Stack, PathAt, ScopeNames, Inventories, Step;
    k := LongestRun(events);
    t := ReadBack(events[..k]);
    PartReplayed(t);
    if k == |events| {
      assert events[..k] == events;
    } else {
      RunNext(Running([], map[]), events, k);
      FailureStays(events, k + 1);
      RefusedExactly(t, events[k], failure);
    }
  }

  /** A cause makes the replay fail. */
  lemma CauseFails(t: Tree, k: nat, events: seq<Event>, failure: Failure)
    requires Explains(t, k, events, failure)
    ensures Replay(events) == Err(failure)
  {
    hide Run, Refused, Theorems, Distinct, Stack, PathAt, ScopeNames, Inventories, Step;
    PartReplayed(t);
    if k == |events| {
      assert events[..k] == events;
    } else {
      RunNext(Running([], map[]), events, k);
      RefusedExactly(t, events[k], failure);
      FailureStays(events, k + 1);
    }
  }

  /** Part of a module, with different names: the state it leaves. */
  lemma PartReplayed(t: Tree)
    requires WellNested(t)
    ensures Run(Running([], map[]), Events(t)).Running? <==> Distinct(Theorems(t, []))
    ensures Distinct(Theorems(t, [])) ==>
              && Run(Running([], map[]), Events(t)).scopes == Stack(t, [])
              && Inventories(Run(Running([], map[]), Events(t)).found, Theorems(t, []))
    ensures |Stack(t, [])| == Unfinished(t)
    ensures Closed(t) <==> Unfinished(t) == 0
    ensures ScopeNames(Stack(t, [])) == PathAt(t, [])
  {
    TreeReplayed(t, [], map[]);
    StackShape(t, []);
    RecordExact(Theorems(t, []));
  }

  lemma RefusedExactly(t: Tree, e: Event, failure: Failure)
    requires WellNested(t) && Distinct(Theorems(t, []))
    ensures Step(Run(Running([], map[]), Events(t)), e) == Failed(failure)
       <==> Refused(t, e, failure)
  {
    hide Run, Theorems, Distinct, Relative, PathAt, ScopeNames, Stack, Innermost, NameOf;
    PartReplayed(t);
    match e
    case Theorem(name, line) => RefusedTheorem(t, name, line, failure);
    case End(_, _) => RefusedEnd(t, e, failure);
    case Namespace(_, _) =>
    case Section(_, _) =>
  }

  lemma RefusedTheorem(t: Tree, name: string, line: nat, failure: Failure)
    requires WellNested(t) && Distinct(Theorems(t, []))
    ensures Step(Run(Running([], map[]), Events(t)), Theorem(name, line)) == Failed(failure)
       <==> Refused(t, Theorem(name, line), failure)
  {
    hide Run, Theorems, Distinct, Relative, PathAt, ScopeNames, Stack, Innermost, NameOf;
    PartReplayed(t);
    var relative := Relative(Join(PathAt(t, []) + [name]));
    var s := Run(Running([], map[]), Events(t));
    var entries := Theorems(t, []);
    if relative in s.found {
      var i :| 0 <= i < |entries| && NameOf(entries[i]) == relative;
      assert s.found[relative] == entries[i].line;
    }
  }

  lemma RefusedEnd(t: Tree, e: Event, failure: Failure)
    requires WellNested(t) && Distinct(Theorems(t, [])) && e.End?
    ensures Step(Run(Running([], map[]), Events(t)), e) == Failed(failure)
       <==> Refused(t, e, failure)
  {
    hide Run, Theorems, Distinct, Relative, PathAt, ScopeNames, NameOf;
    PartReplayed(t);
    if Unfinished(t) > 0 {
      SplitAtInnermost(t, []);
      var inner := Innermost(t);
      assert Stack(inner, []) == Stack(inner.before, []) + [OpenedBy(inner.head)];
    }
  }

  lemma LongestRun(events: seq<Event>) returns (k: nat)
    ensures k <= |events|
    ensures Run(Running([], map[]), events[..k]).Running?
    ensures k < |events| ==> Run(Running([], map[]), events[..k + 1]).Failed?
  {
    k := 0;
    while k < |events| && Run(Running([], map[]), events[..k + 1]).Running?
      invariant k <= |events| && Run(Running([], map[]), events[..k]).Running?
    {
      k := k + 1;
    }
  }

  /**
    * Dropping the module's own prefix can make two different names one: exactly
    * when one is the other with the prefix in front.
    */
  lemma RelativeClash(a: string, b: string)
    ensures Relative(a) == Relative(b)
       <==> || a == b
            || (a == NAMESPACE + b && !(NAMESPACE <= b))
            || (b == NAMESPACE + a && !(NAMESPACE <= a))
  {
    if NAMESPACE <= a { assert a == NAMESPACE + a[|NAMESPACE|..]; }
    if NAMESPACE <= b { assert b == NAMESPACE + b[|NAMESPACE|..]; }
  }

  /** A theorem inside the module's namespace and one of the same name outside it. */
  const CLASHING: seq<Event> := [
    Namespace(Some("LidoSRv3.Audit.Guarantees.PAlloc1"), 1), Theorem("x", 2), End(None, 3), Theorem("x", 4)]

  /** `LidoSRv3.Audit.Guarantees.PAlloc1.x` and `x` are two names to Lean and one to the inventory. */
  lemma PrefixClash()
    ensures Replay(CLASHING) == Err(DeclaredTwice("x", 2, 4))
  {
    hide Run, Step, Relative;
    var s0 := Running([], map[]);
    var inside, one := [Opened(Some(MODULE), Some(MODULE))], map["x" := 2];
    RunEmpty(s0);
    RunNext(s0, CLASHING, 0);
    RunNext(s0, CLASHING, 1);
    RunNext(s0, CLASHING, 2);
    RunNext(s0, CLASHING, 3);
    assert CLASHING[..0] == [] && CLASHING[..4] == CLASHING;
    assert Step(s0, CLASHING[0]) == Running(inside, map[]) by { Enters(); }
    assert Step(Running(inside, map[]), CLASHING[1]) == Running(inside, one) by { NamedInside(); }
    assert Step(Running(inside, one), CLASHING[2]) == Running([], one) by { Leaves(); }
    assert Step(Running([], one), CLASHING[3]) == Failed(DeclaredTwice("x", 2, 4)) by { NamedOutside(); }
  }

  lemma RunEmpty(s: State)
    ensures Run(s, []) == s
  {
  }

  lemma Enters()
    ensures Step(Running([], map[]), CLASHING[0]) == Running([Opened(Some(MODULE), Some(MODULE))], map[])
  {
  }

  lemma Leaves()
    ensures Step(Running([Opened(Some(MODULE), Some(MODULE))], map["x" := 2]), CLASHING[2])
         == Running([], map["x" := 2])
  {
  }

  lemma NamedInside()
    ensures Step(Running([Opened(Some(MODULE), Some(MODULE))], map[]), CLASHING[1])
         == Running([Opened(Some(MODULE), Some(MODULE))], map["x" := 2])
  {
    var scopes := [Opened(Some(MODULE), Some(MODULE))];
    assert scopes[..0] == [];
    assert ScopeNames(scopes) == [MODULE];
    assert [MODULE, "x"][1..] == ["x"];
    assert Join([MODULE, "x"]) == NAMESPACE + "x";
    RelativeOf("x");
  }

  lemma RelativeOf(name: string)
    ensures Relative(NAMESPACE + name) == name
  {
    assert (NAMESPACE + name)[|NAMESPACE|..] == name;
  }

  lemma NamedOutside()
    ensures Step(Running([], map["x" := 2]), CLASHING[3]) == Failed(DeclaredTwice("x", 2, 4))
  {
    assert [] + ["x"] == ["x"];
    assert Join(["x"]) == "x";
    assert |MODULE| > 1;
    assert Relative("x") == "x";
  }
}

/** Class `Scope`: the stack the artifact generator keeps while it reads a file. */
module NamespaceScope {

  import opened Wrappers
  import opened Dotted
  import opened NamespaceReplay

  datatype Frame = Frame(kind: string, name: string)

  function OrEmpty(name: Option<string>): string {
    if name.Some? then name.value else ""
  }

  function NamespaceNames(stack: seq<Frame>): seq<string> {
    if stack == [] then []
    else
      var top := stack[|stack| - 1];
      NamespaceNames(stack[..|stack| - 1]) + if top.kind == "namespace" then [top.name] else []
  }

  class Scope {
    var stack: seq<Frame>

    constructor ()
      ensures stack == []
    {
      stack := [];
    }

    method Enter(kind: string, name: Option<string>)
      modifies this
      ensures stack == old(stack) + [Frame(kind, OrEmpty(name))]
    {
      stack := stack + [Frame(kind, OrEmpty(name))];
    }

    /** `false` is the source's `fail`. */
    method Leave(name: Option<string>) returns (ok: bool)
      modifies this
      ensures ok <==> (old(stack) != []
                       && (name.Some? ==> name.value == old(stack)[|old(stack)| - 1].name))
      ensures stack == if old(stack) == [] then [] else old(stack)[..|old(stack)| - 1]
    {
      if stack == [] { return false; }
      var top := stack[|stack| - 1];
      stack := stack[..|stack| - 1];
      ok := name.None? || name.value == top.name;
    }

    method Prefix() returns (prefix: string)
      ensures prefix == Join(NamespaceNames(stack))
    {
      var parts := [];
      for i := 0 to |stack|
        invariant parts == NamespaceNames(stack[..i])
      {
        assert stack[..i + 1][..i] == stack[..i];
        if stack[i].kind == "namespace" { parts := parts + [stack[i].name]; }
      }
      assert stack[..|stack|] == stack;
      prefix := Join(parts);
    }

    /** One scope command, handed to the method that serves it. */
    method Apply(e: Event) returns (ok: bool)
      requires !e.Theorem?
      modifies this
      ensures (stack, ok) == After(old(stack), e)
    {
      match e
      case Namespace(tag, _) => Enter("namespace", tag); ok := true;
      case Section(tag, _) => Enter("section", tag); ok := true;
      case End(tag, _) => ok := Leave(tag);
    }
  }

  function After(stack: seq<Frame>, e: Event): (seq<Frame>, bool)
    requires !e.Theorem?
  {
    match e
    case Namespace(tag, _) => (stack + [Frame("namespace", OrEmpty(tag))], true)
    case Section(tag, _) => (stack + [Frame("section", OrEmpty(tag))], true)
    case End(tag, _) =>
      if stack == [] then ([], false)
      else (stack[..|stack| - 1], tag.None? || tag.value == stack[|stack| - 1].name)
  }

  /** The same scopes as the replay keeps them and as the class keeps them. */
  ghost predicate Same(scopes: seq<Opened>, stack: seq<Frame>) {
    && |scopes| == |stack|
    && forall i :: 0 <= i < |scopes| ==>
         && stack[i].name == OrEmpty(scopes[i].tag)
         && (stack[i].kind == "namespace" ==> scopes[i].name == scopes[i].tag && !Missing(scopes[i].name))
         && (stack[i].kind != "namespace" ==> scopes[i].name.None?)
  }

  /** A label that was captured is not empty. */
  predicate Captured(e: Event) { e.Theorem? || e.tag != Some("") }

  /**
    * The two readers keep the same scopes and refuse the same commands, but for a
    * namespace without a name, which only the replay refuses.
    */
  lemma ReadersAgree(scopes: seq<Opened>, found: map<string, nat>, stack: seq<Frame>, e: Event)
    requires Same(scopes, stack) && !e.Theorem? && Captured(e)
    ensures e.Namespace? && e.tag.None? ==>
              Step(Running(scopes, found), e) == Failed(UnnamedNamespace(e.line))
    ensures !(e.Namespace? && e.tag.None?) ==>
              var s := Step(Running(scopes, found), e);
              && (s.Running? <==> After(stack, e).1)
              && (s.Running? ==> Same(s.scopes, After(stack, e).0))
  {
  }

  /** So both put the same prefix before a theorem's name. */
  lemma {:induction false} PrefixesAgree(scopes: seq<Opened>, stack: seq<Frame>)
    requires Same(scopes, stack)
    ensures NamespaceNames(stack) == ScopeNames(scopes)
  {
    if scopes != [] {
      var n := |scopes| - 1;
      assert stack[n].name == OrEmpty(scopes[n].tag);
      PrefixesAgree(scopes[..n], stack[..n]);
    }
  }

  const ROOT: string := "_root_."

  /** The name the artifact generator gives a theorem: `_root_.` makes it absolute. */
  function FullName(prefix: string, name: string): string {
    if ROOT <= name then name[|ROOT|..]
    else Join((if prefix == "" then [] else [prefix]) + if name == "" then [] else [name])
  }

  lemma {:induction false} JoinLast(parts: seq<string>, name: string)
    ensures Join(parts + [name]) == if parts == [] then name else Join(parts) + "." + name
  {
    if |parts| > 0 {
      assert (parts + [name])[1..] == parts[1..] + [name];
      JoinLast(parts[1..], name);
    } else {
      assert [] + [name] == [name];
    }
  }

  lemma {:induction false} ScopesNamed(scopes: seq<Opened>)
    ensures forall i :: 0 <= i < |ScopeNames(scopes)| ==> ScopeNames(scopes)[i] != ""
  {
    if scopes != [] { ScopesNamed(scopes[..|scopes| - 1]); }
  }

  /** A theorem gets the same name from both readers exactly when its own does not begin with `_root_.`. */
  lemma FullNamesAgree(scopes: seq<Opened>, stack: seq<Frame>, name: string)
    requires Same(scopes, stack) && name != ""
    ensures FullName(Join(NamespaceNames(stack)), name) == Join(ScopeNames(scopes) + [name])
       <==> !(ROOT <= name)
  {
    hide Same, NamespaceNames, ScopeNames;
    PrefixesAgree(scopes, stack);
    ScopesNamed(scopes);
    JoinLast(ScopeNames(scopes), name);
    JoinLast([Join(ScopeNames(scopes))], name);
    assert [Join(ScopeNames(scopes))] + [name] == [Join(ScopeNames(scopes)), name];
    assert [] + [name] == [name];
  }

  /** `theorem _root_.x` in `namespace A`: two names for one theorem. */
  lemma RootName()
    ensures var scopes, stack := [Opened(Some("A"), Some("A"))], [Frame("namespace", "A")];
            && Same(scopes, stack)
            && FullName(Join(NamespaceNames(stack)), "_root_.x") == "x"
            && Join(ScopeNames(scopes) + ["_root_.x"]) == "A._root_.x"
  {
    var scopes, stack := [Opened(Some("A"), Some("A"))], [Frame("namespace", "A")];
    assert scopes[..0] == [] && stack[..0] == [];
    assert ScopeNames(scopes) == ["A"];
    assert ["A"] + ["_root_.x"] == ["A", "_root_.x"];
    assert ["A", "_root_.x"][1..] == ["_root_.x"];
    assert "_root_.x"[|ROOT|..] == "x";
  }

  /** The class over the commands of a file, as far as the first one it refuses. */
  function ScopeRun(events: seq<Event>): Option<seq<Frame>> {
    if events == [] then Some([])
    else
      var e := events[|events| - 1];
      match ScopeRun(events[..|events| - 1])
      case None => None
      case Some(stack) =>
        if e.Theorem? then Some(stack)
        else if After(stack, e).1 then Some(After(stack, e).0)
        else None
  }

  /** Every label that was captured is there, and every namespace has one. */
  predicate AllNamed(events: seq<Event>) {
    forall i :: 0 <= i < |events| ==> Captured(events[i]) && !(events[i].Namespace? && events[i].tag.None?)
  }

  /**
    * Over a whole file in which every namespace has a name: as long as the replay runs,
    * the class runs with the same prefix, a theorem gets the same name from both exactly
    * when its own does not begin with `_root_.`, and the first scope command that one of
    * them refuses is the first that the other refuses.
    */
  lemma {:induction false} ReadersInStep(events: seq<Event>, k: nat)
    requires AllNamed(events) && k <= |events|
    requires Run(Running([], map[]), events[..k]).Running?
    ensures ScopeRun(events[..k]).Some?
    ensures Same(Run(Running([], map[]), events[..k]).scopes, ScopeRun(events[..k]).value)
    ensures NamespaceNames(ScopeRun(events[..k]).value) == ScopeNames(Run(Running([], map[]), events[..k]).scopes)
    ensures k < |events| && events[k].Theorem? && events[k].name != "" ==>
              (FullName(Join(NamespaceNames(ScopeRun(events[..k]).value)), events[k].name)
               == Join(ScopeNames(Run(Running([], map[]), events[..k]).scopes) + [events[k].name])
               <==> !(ROOT <= events[k].name))
    ensures k < |events| && !events[k].Theorem? ==>
              (Run(Running([], map[]), events[..k + 1]).Failed? <==> ScopeRun(events[..k + 1]).None?)
  {
    hide FullName, Run, ScopeRun, Step, Same, After, NamespaceNames, ScopeNames;
    if k == 0 {
      NothingRead(events);
    } else {
      StillRunning(events, k - 1);
      ReadersInStep(events, k - 1);
      OneMore(events, k - 1);
    }
    PrefixesAgree(Run(Running([], map[]), events[..k]).scopes, ScopeRun(events[..k]).value);
    if k < |events| {
      OneMore(events, k);
      if events[k].Theorem? && events[k].name != "" {
        FullNamesAgree(Run(Running([], map[]), events[..k]).scopes, ScopeRun(events[..k]).value, events[k].name);
      }
    }
  }

  lemma NothingRead(events: seq<Event>)
    ensures Run(Running([], map[]), events[..0]) == Running([], map[]) && ScopeRun(events[..0]) == Some([])
    ensures Same([], [])
  {
  }

  lemma StillRunning(events: seq<Event>, k: nat)
    requires k < |events| && Run(Running([], map[]), events[..k + 1]).Running?
    ensures Run(Running([], map[]), events[..k]).Running?
  {
    RunNext(Running([], map[]), events, k);
  }

  /** One event more, for both. */
  lemma OneMore(events: seq<Event>, k: nat)
    requires AllNamed(events) && k < |events|
    requires Run(Running([], map[]), events[..k]).Running? && ScopeRun(events[..k]).Some?
    requires Same(Run(Running([], map[]), events[..k]).scopes, ScopeRun(events[..k]).value)
    ensures var s, stack := Run(Running([], map[]), events[..k + 1]), ScopeRun(events[..k + 1]);
            && (s.Running? ==> stack.Some? && Same(s.scopes, stack.value))
            && (!events[k].Theorem? ==> (s.Failed? <==> stack.None?))
  {
    hide Run, Same, After, ScopeNames;
    var s, e := Run(Running([], map[]), events[..k]), events[k];
    RunNext(Running([], map[]), events, k);
    assert events[..k + 1][..k] == events[..k];
    if !e.Theorem? { ReadersAgree(s.scopes, s.found, ScopeRun(events[..k]).value, e); }
  }
}
