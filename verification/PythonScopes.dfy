/** Ownership of syntax nodes by executable scopes: the worklist walk `own_nodes`
    and the recursive inventory `scopes` (scripts/check_python_quality.py), for
    annotations that are evaluated eagerly or postponed by a future import. */
module PythonScopes {
  import opened Sequences
  import opened Wrappers
  import opened Dotted
  import opened PythonAst
  import Decimal

  // ---------------------------------------------------------------- what one scope runs

  /** What `own_nodes` puts on the worklist in place of a popped node. */
  function Pushed(n: Ast, postponed: bool, inFunction: bool): seq<Ast> {
    if IsDefinition(n) then SetupFields(n, postponed)
    else if n.AnnAssign? && (postponed || inFunction) then Unannotated(n)
    else Children(n)
  }

  function Yielded(n: Ast, postponed: bool, inFunction: bool): seq<Ast> {
    if IsDefinition(n) || (n.AnnAssign? && (postponed || inFunction)) then [] else [n]
  }

  /** The nodes `own_nodes` yields because of a pending node, in its order: the
      last node pushed is the first one popped. */
  function Own(n: Ast, postponed: bool, inFunction: bool): seq<Ast>
    decreases Size(n), 0
  {
    PushedSmaller(n, postponed, inFunction);
    Yielded(n, postponed, inFunction) + OwnAll(Pushed(n, postponed, inFunction), postponed, inFunction)
  }

  function OwnAll(ns: seq<Ast>, postponed: bool, inFunction: bool): seq<Ast>
    decreases SizeAll(ns), 1
  {
    if ns == [] then []
    else
      SizeLast(ns);
      Own(ns[|ns| - 1], postponed, inFunction) + OwnAll(ns[..|ns| - 1], postponed, inFunction)
  }

  lemma PushedSmaller(n: Ast, postponed: bool, inFunction: bool)
    ensures SizeAll(Pushed(n, postponed, inFunction)) < Size(n)
  {
    if IsDefinition(n) {
      SizeSetup(n, postponed);
    } else if n.AnnAssign? && (postponed || inFunction) {
      SizeUnannotated(n);
    } else {
      SizeChildren(n);
    }
  }

  lemma SizeLast(ns: seq<Ast>)
    requires ns != []
    ensures SizeAll(ns) == SizeAll(ns[..|ns| - 1]) + Size(ns[|ns| - 1])
  {
    SizeAppend(ns[..|ns| - 1], [ns[|ns| - 1]]);
    SizeSingle(ns[|ns| - 1]);
    assert ns == ns[..|ns| - 1] + [ns[|ns| - 1]];
  }

  /** An annotated assignment without its annotation. */
  function Unannotated(n: Ast): seq<Ast>
    requires n.AnnAssign?
  {
    [n.target] + Given(n.initial)
  }

  lemma SizeUnannotated(n: Ast)
    requires n.AnnAssign?
    ensures SizeAll(Unannotated(n)) < Size(n) - Size(n.declared)
  {
    SizeAppend([n.target], Given(n.initial));
    SizeSingle(n.target);
    SizeOfGiven(n.initial);
  }

  function OwnedBy(scope: Ast, postponed: bool): seq<Ast> {
    OwnAll(ScopeBody(scope), postponed, IsFunction(scope))
  }

  /** `own_nodes`: a last-in first-out worklist. */
  method OwnNodes(scope: Ast, postponed: bool) returns (nodes: seq<Ast>)
    ensures nodes == OwnedBy(scope, postponed)
  {
    var pending := ScopeBody(scope);
    nodes := [];
    while pending != []
      invariant nodes + OwnAll(pending, postponed, IsFunction(scope)) == OwnedBy(scope, postponed)
      decreases SizeAll(pending)
    {
      WorklistStep(pending, postponed, IsFunction(scope));
      var n := pending[|pending| - 1];
      pending := pending[..|pending| - 1];
      var yielded, pushed := [], [];
      if n.FunctionDef? || n.ClassDef? || n.Lambda? {
        pushed := SetupFields(n, postponed);
      } else if n.AnnAssign? && (postponed || IsFunction(scope)) {
        pushed := Unannotated(n);
      } else {
        yielded, pushed := [n], Children(n);
      }
      pending := pending + pushed;
      Associative(nodes, yielded, OwnAll(pending, postponed, IsFunction(scope)));
      nodes := nodes + yielded;
    }
  }

  /** One iteration: what the popped node yields comes before everything pushed for
      it, and that before the rest of the worklist. */
  lemma WorklistStep(pending: seq<Ast>, postponed: bool, inFunction: bool)
    requires pending != []
    ensures var rest, n := pending[..|pending| - 1], pending[|pending| - 1];
      && SizeAll(rest + Pushed(n, postponed, inFunction)) < SizeAll(pending)
      && OwnAll(pending, postponed, inFunction) ==
         Yielded(n, postponed, inFunction) + OwnAll(rest + Pushed(n, postponed, inFunction), postponed, inFunction)
  {
    var rest, n := pending[..|pending| - 1], pending[|pending| - 1];
    var more := Pushed(n, postponed, inFunction);
    PushedSmaller(n, postponed, inFunction);
    SizeLast(pending);
    SizeAppend(rest, more);
    OwnAppend(rest, more, postponed, inFunction);
    Associative(Yielded(n, postponed, inFunction), OwnAll(more, postponed, inFunction),
        OwnAll(rest, postponed, inFunction));
  }

  lemma {:induction false} OwnAppend(a: seq<Ast>, b: seq<Ast>, postponed: bool, inFunction: bool)
    ensures OwnAll(a + b, postponed, inFunction) == OwnAll(b, postponed, inFunction) + OwnAll(a, postponed, inFunction)
  {
    if b == [] {
      assert a + b == a;
    } else {
      assert (a + b)[..|a + b| - 1] == a + b[..|b| - 1];
      OwnAppend(a, b[..|b| - 1], postponed, inFunction);
    }
  }

  lemma OwnSingle(n: Ast, postponed: bool, inFunction: bool)
    ensures OwnAll([n], postponed, inFunction) == Own(n, postponed, inFunction)
  {
    assert OwnAll([n][..0], postponed, inFunction) == [];
  }

  // ---------------------------------------------------------------- which scopes there are

  predicate AssignsLambda(n: Ast) {
    (n.Assign? && n.right.Lambda?) || (n.AnnAssign? && n.initial.Some? && n.initial.value.Lambda?)
  }

  function AssignedValue(n: Ast): Ast
    requires AssignsLambda(n)
  {
    if n.Assign? then n.right else n.initial.value
  }

  /** What `visit` walks after recording an assigned lambda. */
  function BesideLambda(n: Ast, postponed: bool, owner: bool): seq<Ast>
    requires AssignsLambda(n)
  {
    (if n.Assign? then n.targets else [n.target]) + Children(AssignedValue(n))
    + (if n.AnnAssign? && owner && !postponed then [n.declared] else [])
  }

  lemma SizeBesideLambda(n: Ast, postponed: bool, owner: bool)
    requires AssignsLambda(n)
    ensures SizeAll(BesideLambda(n, postponed, owner)) < Size(n)
  {
    var targets := if n.Assign? then n.targets else [n.target];
    var value := AssignedValue(n);
    SizeAppend(targets, Children(value));
    SizeAppend(targets + Children(value), if n.AnnAssign? && owner && !postponed then [n.declared] else []);
    SizeChildren(value);
    if n.AnnAssign? {
      SizeSingle(n.target);
      SizeSingle(n.declared);
    }
  }

  /** The decorators, bases and annotations `visit` walks for a definition, next
      to its arguments and its body. */
  function Surroundings(n: Ast, postponed: bool): seq<Ast>
    requires n.FunctionDef? || n.ClassDef?
  {
    if n.FunctionDef? then n.decorators + (if postponed then [] else Given(n.result))
    else n.decorators + n.bases + n.keywords
  }

  function Parameters(n: Ast, postponed: bool): seq<Ast>
    requires n.FunctionDef? || n.ClassDef?
  {
    if n.FunctionDef? then ArgumentFields(n.args, postponed) else []
  }

  lemma SizeDefinition(n: Ast, postponed: bool)
    requires n.FunctionDef? || n.ClassDef?
    ensures SizeAll(Parameters(n, postponed)) < Size(n)
    ensures SizeAll(Surroundings(n, postponed)) < Size(n)
    ensures SizeAll(n.body) < Size(n)
  {
    if n.FunctionDef? {
      SizeArgumentFields(n.args, postponed);
      SizeAppend(n.decorators, if postponed then [] else Given(n.result));
      SizeOfGiven(n.result);
    } else {
      SizeAppend(n.decorators, n.bases);
      SizeAppend(n.decorators + n.bases, n.keywords);
    }
  }

  datatype Found = Found(qualified: string, ordinal: nat, node: Ast)

  datatype Inventory = Inventory(found: seq<Found>, seen: map<string, nat>)

  function RecordIn(st: Inventory, scope: seq<string>, name: string, node: Ast): Inventory {
    var qualified := Join(scope + [name]);
    var ordinal := (if qualified in st.seen then st.seen[qualified] else 0) + 1;
    Inventory(st.found + [Found(qualified, ordinal, node)], st.seen[qualified := ordinal])
  }

  /** The name a lambda is bound to, or its line. */
  function AssignedName(n: Ast): string
    requires n.Assign? || n.AnnAssign?
  {
    var targets := if n.Assign? then n.targets else [n.target];
    if |targets| == 1 && targets[0].Node? && targets[0].kind.Name? then targets[0].kind.id
    else LineName(n.line)
  }

  function LineName(line: nat): string { "lambda@" + Decimal.Print(line) }

  function VisitNode(n: Ast, scope: seq<string>, owner: bool, postponed: bool, st: Inventory): Inventory
    decreases Size(n), 0
  {
    SizeChildren(n);
    if n.FunctionDef? || n.ClassDef? then
      SizeDefinition(n, postponed);
      var inner := scope + [n.name];
      var s1 := RecordIn(st, scope, n.name, n);
      var s2 := VisitAll(Parameters(n, postponed), inner, false, postponed, s1);
      var s3 := VisitAll(Surroundings(n, postponed), inner, false, postponed, s2);
      VisitAll(n.body, inner, n.ClassDef?, postponed, s3)
    else if AssignsLambda(n) then
      SizeBesideLambda(n, postponed, owner);
      VisitAll(BesideLambda(n, postponed, owner), scope, owner, postponed,
               RecordIn(st, scope, AssignedName(n), AssignedValue(n)))
    else if n.Lambda? then
      VisitAll(Children(n), scope, owner, postponed, RecordIn(st, scope, LineName(n.line), n))
    else if n.AnnAssign? && (postponed || !owner) then
      SizeUnannotated(n);
      VisitAll(Unannotated(n), scope, owner, postponed, st)
    else
      VisitAll(Children(n), scope, owner, postponed, st)
  }

  function VisitAll(ns: seq<Ast>, scope: seq<string>, owner: bool, postponed: bool, st: Inventory): Inventory
    decreases SizeAll(ns), 1
  {
    if ns == [] then st
    else VisitAll(ns[1..], scope, owner, postponed, VisitNode(ns[0], scope, owner, postponed, st))
  }

  const EMPTY := Inventory([], map[])

  /** A definition repeated under one qualified name carries an ordinal. */
  function Key(f: Found): string {
    if f.ordinal == 1 then f.qualified else f.qualified + "#" + Decimal.Print(f.ordinal)
  }

  function Keyed(found: seq<Found>): (r: seq<(string, Ast)>)
    ensures |r| == |found|
    ensures forall i :: 0 <= i < |r| ==> r[i] == (Key(found[i]), found[i].node)
  {
    seq(|found|, i requires 0 <= i < |found| => (Key(found[i]), found[i].node))
  }

  /** The `found` list and `seen` dictionary that `scopes` fills while it recurses. */
  class ScopeInventory {
    var found: seq<(string, Ast)>
    var seen: map<string, nat>
    ghost var history: Inventory

    ghost predicate Valid()
      reads this
    {
      found == Listing(tree, history.found) && seen == history.seen
    }

    const tree: seq<Ast>

    constructor (tree: seq<Ast>)
      ensures Valid() && history == EMPTY && this.tree == tree
    {
      this.tree := tree;
      found := [("<module>", Module(tree))];
      seen := map[];
      history := EMPTY;
    }

    method Record(scope: seq<string>, name: string, node: Ast)
      requires Valid()
      modifies this
      ensures Valid() && history == RecordIn(old(history), scope, name, node)
    {
      var qualified := Join(scope + [name]);
      seen := seen[qualified := (if qualified in seen then seen[qualified] else 0) + 1];
      var bound := if seen[qualified] == 1 then qualified else qualified + "#" + Decimal.Print(seen[qualified]);
      found := found + [(bound, node)];
      history := RecordIn(history, scope, name, node);
    }

    method Visit(children: seq<Ast>, scope: seq<string>, owner: bool, postponed: bool)
      requires Valid()
      modifies this
      ensures Valid() && history == VisitAll(children, scope, owner, postponed, old(history))
      decreases SizeAll(children), 1
    {
      var rest := children;
      while rest != []
        invariant Valid()
        invariant VisitAll(rest, scope, owner, postponed, history)
            == VisitAll(children, scope, owner, postponed, old(history))
        invariant SizeAll(rest) <= SizeAll(children)
        decreases |rest|
      {
        VisitOne(rest[0], scope, owner, postponed);
        rest := rest[1..];
      }
    }

    method VisitOne(child: Ast, scope: seq<string>, owner: bool, postponed: bool)
      requires Valid()
      modifies this
      ensures Valid() && history == VisitNode(child, scope, owner, postponed, old(history))
      decreases Size(child), 0
    {
      SizeChildren(child);
      if child.FunctionDef? || child.ClassDef? {
        SizeDefinition(child, postponed);
        Record(scope, child.name, child);
        var inner := scope + [child.name];
        Visit(Parameters(child, postponed), inner, false, postponed);
        Visit(Surroundings(child, postponed), inner, false, postponed);
        Visit(child.body, inner, child.ClassDef?, postponed);
      } else if AssignsLambda(child) {
        SizeBesideLambda(child, postponed, owner);
        Record(scope, AssignedName(child), AssignedValue(child));
        Visit(BesideLambda(child, postponed, owner), scope, owner, postponed);
      } else if child.Lambda? {
        Record(scope, LineName(child.line), child);
        Visit(Children(child), scope, owner, postponed);
      } else if child.AnnAssign? && (postponed || !owner) {
        SizeUnannotated(child);
        Visit(Unannotated(child), scope, owner, postponed);
      } else {
        Visit(Children(child), scope, owner, postponed);
      }
    }
  }

  function Inventoried(tree: seq<Ast>, postponed: bool): seq<Found> {
    VisitAll(tree, [], true, postponed, EMPTY).found
  }

  /** The whole inventory, as keys and nodes. */
  function Listing(tree: seq<Ast>, found: seq<Found>): (r: seq<(string, Ast)>)
    ensures |r| == |found| + 1 && r[0].0 == "<module>"
    ensures forall i :: 1 <= i < |r| ==> r[i] == (Key(found[i - 1]), found[i - 1].node)
  {
    [("<module>", Module(tree))] + Keyed(found)
  }

  /** `scopes`: the module itself, then every definition below it. */
  method Scopes(tree: seq<Ast>, postponed: bool) returns (found: seq<(string, Ast)>)
    ensures found == Listing(tree, Inventoried(tree, postponed))
  {
    var inventory := new ScopeInventory(tree);
    inventory.Visit(tree, [], true, postponed);
    found := inventory.found;
  }
}
