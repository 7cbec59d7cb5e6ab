/** The scopes of a module divide its evaluated syntax between them: every node is
    owned by exactly one scope, except the nodes of annotations that no scope
    evaluates. */
module PythonScopesPartition {
  import opened Sequences
  import opened Wrappers
  import opened PythonAst
  import opened PythonScopes
  import Decimal

  // ---------------------------------------------------------------- well-formed trees

  /** No definition statement and no annotated assignment anywhere below: true of
      every expression, since expressions hold no statements. */
  predicate Expression(n: Ast)
    decreases Size(n), 0
  {
    SizeChildren(n);
    !n.AnnAssign? && !n.FunctionDef? && !n.ClassDef? && Expressions(Children(n))
  }

  predicate Expressions(ns: seq<Ast>)
    decreases SizeAll(ns), 1
  {
    ns == [] || (Expression(ns[0]) && Expressions(ns[1..]))
  }

  predicate OnlyParameters(params: seq<Ast>) { forall i :: 0 <= i < |params| ==> params[i].Arg? }

  predicate GoodArguments(args: Ast) {
    args.Arguments? && OnlyParameters(args.posonly) && OnlyParameters(args.plain) && OnlyParameters(args.kwonly)
    && OnlyParameters(Given(args.vararg)) && OnlyParameters(Given(args.kwarg))
  }

  /** What every tree from `ast.parse` satisfies: argument lists belong to functions
      and lambdas, the parameters of a lambda carry no annotation, and annotated
      assignments are statements. */
  predicate Parsed(n: Ast)
    decreases Size(n), 0
  {
    SizeChildren(n);
    match n
    case FunctionDef(_, args, body, _, _) =>
      SizeSetup(n, false);
      GoodArguments(args) && Expressions(SetupFields(n, false)) && ParsedAll(SetupFields(n, false)) && ParsedAll(body)
    case ClassDef(_, _, _, body, _) =>
      SizeSetup(n, false);
      Expressions(SetupFields(n, false)) && ParsedAll(SetupFields(n, false)) && ParsedAll(body)
    case Lambda(args, value, _) =>
      SizeSetup(n, false);
      GoodArguments(args) && ArgumentAnnotations(args) == [] && Expressions(ArgumentFields(args, false))
      && ParsedAll(ArgumentFields(args, false)) && Expression(value) && Parsed(value)
    case AnnAssign(_, _, _, _) => Expressions(Children(n)) && ParsedAll(Children(n))
    case Assign(_, _, _) => ParsedAll(Children(n))
    case Node(_, _, _) => ParsedAll(Children(n))
    case _ => false
  }

  predicate ParsedAll(ns: seq<Ast>)
    decreases SizeAll(ns), 1
  {
    ns == [] || (Parsed(ns[0]) && ParsedAll(ns[1..]))
  }

  // ---------------------------------------------------------------- all nodes, and the dead ones

  /** Any measure of nodes. Results that hold for every measure hold node by node:
      take the measure that is one on a single node and zero elsewhere. */
  type Weight = Ast -> int

  function Sum(w: Weight, ns: seq<Ast>): int {
    if ns == [] then 0 else w(ns[0]) + Sum(w, ns[1..])
  }

  lemma {:induction false} SumAppend(w: Weight, a: seq<Ast>, b: seq<Ast>)
    ensures Sum(w, a + b) == Sum(w, a) + Sum(w, b)
  {
    if a == [] {
      assert a + b == b;
    } else {
      assert (a + b)[1..] == a[1..] + b;
      SumAppend(w, a[1..], b);
    }
  }

  /** Definitions and argument lists structure the tree; they carry no decision. */
  function Counted(w: Weight, n: Ast): int {
    if n.Module? || IsDefinition(n) || n.Arguments? || n.Arg? then 0 else w(n)
  }

  /** `ast.walk` without the structural nodes. */
  function Walk(w: Weight, n: Ast): int
    decreases Size(n), 0
  {
    SizeChildren(n);
    Counted(w, n) + WalkAll(w, Children(n))
  }

  function WalkAll(w: Weight, ns: seq<Ast>): int
    decreases SizeAll(ns), 1
  {
    if ns == [] then 0 else Walk(w, ns[0]) + WalkAll(w, ns[1..])
  }

  /** Nodes that are never evaluated: annotations of assignments local to a
      function and, when annotations are postponed, every annotation. */
  function Dead(w: Weight, n: Ast, postponed: bool, inFunction: bool): int
    decreases Size(n), 0
  {
    SizeChildren(n);
    match n
    case FunctionDef(_, args, body, _, result) =>
      SizeSetup(n, postponed);
      (if postponed then WalkAll(w, ArgumentAnnotations(args)) + WalkAll(w, Given(result)) else 0)
      + DeadAll(w, SetupFields(n, postponed), postponed, true) + DeadAll(w, body, postponed, true)
    case ClassDef(_, _, _, body, _) =>
      SizeSetup(n, postponed);
      DeadAll(w, SetupFields(n, postponed), postponed, true) + DeadAll(w, body, postponed, false)
    case AnnAssign(_, declared, _, _) =>
      if postponed || inFunction then
        SizeUnannotated(n);
        w(n) + Walk(w, declared) + DeadAll(w, Unannotated(n), postponed, inFunction)
      else
        DeadAll(w, Children(n), postponed, inFunction)
    case _ => DeadAll(w, Children(n), postponed, inFunction)
  }

  function DeadAll(w: Weight, ns: seq<Ast>, postponed: bool, inFunction: bool): int
    decreases SizeAll(ns), 1
  {
    if ns == [] then 0 else Dead(w, ns[0], postponed, inFunction) + DeadAll(w, ns[1..], postponed, inFunction)
  }

  // ---------------------------------------------------------------- scopes below a node

  /** The scopes `visit` records below `n`, in order. */
  function ScopesOf(n: Ast, postponed: bool, owner: bool): seq<Ast>
    decreases Size(n), 0
  {
    SizeChildren(n);
    if n.FunctionDef? || n.ClassDef? then
      SizeDefinition(n, postponed);
      [n] + ScopesAll(Parameters(n, postponed), postponed, false)
      + ScopesAll(Surroundings(n, postponed), postponed, false) + ScopesAll(n.body, postponed, n.ClassDef?)
    else if AssignsLambda(n) then
      SizeBesideLambda(n, postponed, owner);
      [AssignedValue(n)] + ScopesAll(BesideLambda(n, postponed, owner), postponed, owner)
    else if n.Lambda? then
      [n] + ScopesAll(Children(n), postponed, owner)
    else if n.AnnAssign? && (postponed || !owner) then
      SizeUnannotated(n);
      ScopesAll(Unannotated(n), postponed, owner)
    else
      ScopesAll(Children(n), postponed, owner)
  }

  function ScopesAll(ns: seq<Ast>, postponed: bool, owner: bool): seq<Ast>
    decreases SizeAll(ns), 1
  {
    if ns == [] then [] else ScopesOf(ns[0], postponed, owner) + ScopesAll(ns[1..], postponed, owner)
  }

  function Nodes(found: seq<Found>): (r: seq<Ast>)
    ensures |r| == |found| && forall i :: 0 <= i < |r| ==> r[i] == found[i].node
  {
    seq(|found|, i requires 0 <= i < |found| => found[i].node)
  }

  lemma Grow(found: seq<Found>, f: Found, a: seq<Ast>)
    ensures Nodes(found + [f]) + a == Nodes(found) + ([f.node] + a)
  {
  }

  lemma {:induction false} VisitNodeRecords(n: Ast, scope: seq<string>, owner: bool, postponed: bool, st: Inventory)
    ensures Nodes(VisitNode(n, scope, owner, postponed, st).found) == Nodes(st.found) + ScopesOf(n, postponed, owner)
    decreases Size(n), 0
  {
    SizeChildren(n);
    if n.FunctionDef? || n.ClassDef? {
      SizeDefinition(n, postponed);
      var inner := scope + [n.name];
      var s1 := RecordIn(st, scope, n.name, n);
      var s2 := VisitAll(Parameters(n, postponed), inner, false, postponed, s1);
      var s3 := VisitAll(Surroundings(n, postponed), inner, false, postponed, s2);
      VisitAllRecords(Parameters(n, postponed), inner, false, postponed, s1);
      VisitAllRecords(Surroundings(n, postponed), inner, false, postponed, s2);
      VisitAllRecords(n.body, inner, n.ClassDef?, postponed, s3);
      ConcatFour(st.found, s1.found[|st.found|], ScopesAll(Parameters(n, postponed), postponed, false),
                 ScopesAll(Surroundings(n, postponed), postponed, false), ScopesAll(n.body, postponed, n.ClassDef?));
    } else if AssignsLambda(n) {
      SizeBesideLambda(n, postponed, owner);
      var s1 := RecordIn(st, scope, AssignedName(n), AssignedValue(n));
      VisitAllRecords(BesideLambda(n, postponed, owner), scope, owner, postponed, s1);
      Grow(st.found, s1.found[|st.found|], ScopesAll(BesideLambda(n, postponed, owner), postponed, owner));
    } else if n.Lambda? {
      var s1 := RecordIn(st, scope, LineName(n.line), n);
      VisitAllRecords(Children(n), scope, owner, postponed, s1);
      Grow(st.found, s1.found[|st.found|], ScopesAll(Children(n), postponed, owner));
    } else if n.AnnAssign? && (postponed || !owner) {
      SizeUnannotated(n);
      VisitAllRecords(Unannotated(n), scope, owner, postponed, st);
    } else {
      VisitAllRecords(Children(n), scope, owner, postponed, st);
    }
  }

  lemma ConcatFour(found: seq<Found>, f: Found, a: seq<Ast>, b: seq<Ast>, c: seq<Ast>)
    ensures ((Nodes(found + [f]) + a) + b) + c == Nodes(found) + ((([f.node] + a) + b) + c)
  {
  }

  lemma {:induction false} VisitAllRecords(ns: seq<Ast>, scope: seq<string>, owner: bool, postponed: bool,
      st: Inventory)
    ensures Nodes(VisitAll(ns, scope, owner, postponed, st).found) == Nodes(st.found) + ScopesAll(ns, postponed, owner)
    decreases SizeAll(ns), 1
  {
    if ns != [] {
      var next := VisitNode(ns[0], scope, owner, postponed, st);
      VisitNodeRecords(ns[0], scope, owner, postponed, st);
      VisitAllRecords(ns[1..], scope, owner, postponed, next);
      Associative(Nodes(st.found), ScopesOf(ns[0], postponed, owner), ScopesAll(ns[1..], postponed, owner));
    }
  }

  // ---------------------------------------------------------------- concatenation

  lemma {:induction false} ExpressionsAppend(a: seq<Ast>, b: seq<Ast>)
    ensures Expressions(a + b) <==> Expressions(a) && Expressions(b)
  {
    if a == [] {
      assert a + b == b;
    } else {
      assert (a + b)[1..] == a[1..] + b;
      ExpressionsAppend(a[1..], b);
    }
  }

  lemma {:induction false} ParsedAppend(a: seq<Ast>, b: seq<Ast>)
    ensures ParsedAll(a + b) <==> ParsedAll(a) && ParsedAll(b)
  {
    if a == [] {
      assert a + b == b;
    } else {
      assert (a + b)[1..] == a[1..] + b;
      ParsedAppend(a[1..], b);
    }
  }

  lemma {:induction false} WalkAppend(w: Weight, a: seq<Ast>, b: seq<Ast>)
    ensures WalkAll(w, a + b) == WalkAll(w, a) + WalkAll(w, b)
  {
    if a == [] {
      assert a + b == b;
    } else {
      assert (a + b)[1..] == a[1..] + b;
      WalkAppend(w, a[1..], b);
    }
  }

  lemma {:induction false} DeadAppend(w: Weight, a: seq<Ast>, b: seq<Ast>, postponed: bool, inFunction: bool)
    ensures DeadAll(w, a + b, postponed, inFunction)
        == DeadAll(w, a, postponed, inFunction) + DeadAll(w, b, postponed, inFunction)
  {
    if a == [] {
      assert a + b == b;
    } else {
      assert (a + b)[1..] == a[1..] + b;
      DeadAppend(w, a[1..], b, postponed, inFunction);
    }
  }

  lemma {:induction false} ScopesAppend(a: seq<Ast>, b: seq<Ast>, postponed: bool, owner: bool)
    ensures ScopesAll(a + b, postponed, owner) == ScopesAll(a, postponed, owner) + ScopesAll(b, postponed, owner)
  {
    if a == [] {
      assert a + b == b;
    } else {
      assert (a + b)[1..] == a[1..] + b;
      ScopesAppend(a[1..], b, postponed, owner);
      Associative(ScopesOf(a[0], postponed, owner), ScopesAll(a[1..], postponed, owner),
          ScopesAll(b, postponed, owner));
    }
  }

  /** Everything owned by the listed scopes together. */
  function Tally(w: Weight, scopes: seq<Ast>, postponed: bool): int {
    if scopes == [] then 0 else Sum(w, OwnedBy(scopes[0], postponed)) + Tally(w, scopes[1..], postponed)
  }

  lemma {:induction false} TallyAppend(w: Weight, a: seq<Ast>, b: seq<Ast>, postponed: bool)
    ensures Tally(w, a + b, postponed) == Tally(w, a, postponed) + Tally(w, b, postponed)
  {
    if a == [] {
      assert a + b == b;
    } else {
      assert (a + b)[1..] == a[1..] + b;
      TallyAppend(w, a[1..], b, postponed);
    }
  }

  /** What the scopes below `ns` own, and what is dead. */
  function Below(w: Weight, ns: seq<Ast>, postponed: bool, inFunction: bool): int {
    Tally(w, ScopesAll(ns, postponed, !inFunction), postponed) + DeadAll(w, ns, postponed, inFunction)
  }

  /** What the enclosing scope owns of `ns`, what the scopes below own, and what is dead. */
  function Shared(w: Weight, ns: seq<Ast>, postponed: bool, inFunction: bool): int {
    Sum(w, OwnAll(ns, postponed, inFunction)) + Below(w, ns, postponed, inFunction)
  }

  lemma BelowAppend(w: Weight, a: seq<Ast>, b: seq<Ast>, postponed: bool, inFunction: bool)
    ensures Below(w, a + b, postponed, inFunction)
        == Below(w, a, postponed, inFunction) + Below(w, b, postponed, inFunction)
  {
    ScopesAppend(a, b, postponed, !inFunction);
    TallyAppend(w, ScopesAll(a, postponed, !inFunction), ScopesAll(b, postponed, !inFunction), postponed);
    DeadAppend(w, a, b, postponed, inFunction);
  }

  lemma SharedAppend(w: Weight, a: seq<Ast>, b: seq<Ast>, postponed: bool, inFunction: bool)
    ensures Shared(w, a + b, postponed, inFunction)
        == Shared(w, a, postponed, inFunction) + Shared(w, b, postponed, inFunction)
  {
    OwnAppend(a, b, postponed, inFunction);
    SumAppend(w, OwnAll(b, postponed, inFunction), OwnAll(a, postponed, inFunction));
    BelowAppend(w, a, b, postponed, inFunction);
  }

  // ---------------------------------------------------------------- expressions ignore the context

  lemma {:induction false} AnnotationsPart(params: seq<Ast>)
    requires Expressions(params)
    ensures Expressions(Annotations(params))
  {
    if params != [] {
      AnnotationsPart(params[1..]);
      var first := if params[0].Arg? then Given(params[0].annotation) else [];
      assert Expression(params[0]);
      assert params[0].Arg? ==> first == Children(params[0]);
      ExpressionsAppend(first, Annotations(params[1..]));
    }
  }

  lemma {:induction false} WalkParameters(w: Weight, params: seq<Ast>)
    requires OnlyParameters(params)
    ensures WalkAll(w, params) == WalkAll(w, Annotations(params))
  {
    if params != [] {
      WalkParameters(w, params[1..]);
      WalkAppend(w, Given(params[0].annotation), Annotations(params[1..]));
    }
  }

  lemma ArgumentsExpressions(args: Ast, postponed: bool)
    requires Expression(args)
    ensures Expressions(ArgumentFields(args, postponed))
  {
    if args.Arguments? {
      var s1 := args.posonly + args.plain;
      var s2 := s1 + Given(args.vararg);
      var s3 := s2 + args.kwonly;
      var s4 := s3 + args.kwDefaults;
      var s5 := s4 + Given(args.kwarg);
      ExpressionsAppend(s5, args.defaults);
      ExpressionsAppend(s4, Given(args.kwarg));
      ExpressionsAppend(s3, args.kwDefaults);
      ExpressionsAppend(s2, args.kwonly);
      ExpressionsAppend(s1, Given(args.vararg));
      ExpressionsAppend(args.posonly, args.plain);
      AnnotationExpressions(args);
      ExpressionsAppend(args.defaults, args.kwDefaults);
      ExpressionsAppend(args.defaults + args.kwDefaults, if postponed then [] else ArgumentAnnotations(args));
    }
  }

  lemma AnnotationExpressions(args: Ast)
    requires args.Arguments?
    requires Expressions(args.posonly) && Expressions(args.plain) && Expressions(args.kwonly)
    requires Expressions(Given(args.vararg)) && Expressions(Given(args.kwarg))
    ensures Expressions(ArgumentAnnotations(args))
  {
    var s1 := Annotations(args.posonly) + Annotations(args.plain);
    var s2 := s1 + Annotations(args.kwonly);
    var s3 := s2 + Annotations(Given(args.vararg));
    AnnotationsPart(args.posonly);
    AnnotationsPart(args.plain);
    AnnotationsPart(args.kwonly);
    AnnotationsPart(Given(args.vararg));
    AnnotationsPart(Given(args.kwarg));
    ExpressionsAppend(Annotations(args.posonly), Annotations(args.plain));
    ExpressionsAppend(s1, Annotations(args.kwonly));
    ExpressionsAppend(s2, Annotations(Given(args.vararg)));
    ExpressionsAppend(s3, Annotations(Given(args.kwarg)));
  }

  /** Inside expressions it does not matter which kind of scope is around. */
  ghost predicate ContextFree(w: Weight, ns: seq<Ast>, postponed: bool) {
    && OwnAll(ns, postponed, true) == OwnAll(ns, postponed, false)
    && DeadAll(w, ns, postponed, true) == DeadAll(w, ns, postponed, false)
    && ScopesAll(ns, postponed, true) == ScopesAll(ns, postponed, false)
  }

  lemma ContextFreeAppend(w: Weight, a: seq<Ast>, b: seq<Ast>, postponed: bool)
    requires ContextFree(w, a, postponed) && ContextFree(w, b, postponed)
    ensures ContextFree(w, a + b, postponed)
  {
    forall c: bool
      ensures OwnAll(a + b, postponed, c) == OwnAll(b, postponed, c) + OwnAll(a, postponed, c)
      ensures DeadAll(w, a + b, postponed, c) == DeadAll(w, a, postponed, c) + DeadAll(w, b, postponed, c)
      ensures ScopesAll(a + b, postponed, c) == ScopesAll(a, postponed, c) + ScopesAll(b, postponed, c)
    {
      OwnAppend(a, b, postponed, c);
      DeadAppend(w, a, b, postponed, c);
      ScopesAppend(a, b, postponed, c);
    }
  }

  lemma {:induction false} ExpressionContext(w: Weight, n: Ast, postponed: bool)
    requires Expression(n)
    ensures Own(n, postponed, true) == Own(n, postponed, false)
    ensures Dead(w, n, postponed, true) == Dead(w, n, postponed, false)
    ensures ScopesOf(n, postponed, true) == ScopesOf(n, postponed, false)
    decreases Size(n), 0
  {
    SizeChildren(n);
    ExpressionsContext(w, Children(n), postponed);
    if n.Lambda? {
      SizeSetup(n, postponed);
      assert Children(n)[0] == n.args;
      ArgumentsExpressions(n.args, postponed);
      ExpressionsContext(w, SetupFields(n, postponed), postponed);
    } else if AssignsLambda(n) {
      SizeBesideLambda(n, postponed, true);
      assert BesideLambda(n, postponed, true) == n.targets + Children(n.right) == BesideLambda(n, postponed, false);
      ExpressionsAppend(n.targets, [n.right]);
      assert [n.right][0] == n.right;
      ExpressionsAppend(n.targets, Children(n.right));
      ExpressionsContext(w, BesideLambda(n, postponed, true), postponed);
    }
  }

  lemma {:induction false} ExpressionsContext(w: Weight, ns: seq<Ast>, postponed: bool)
    requires Expressions(ns)
    ensures ContextFree(w, ns, postponed)
    decreases SizeAll(ns), 1
  {
    if ns != [] {
      ExpressionContext(w, ns[0], postponed);
      ExpressionsContext(w, ns[1..], postponed);
      OwnSingle(ns[0], postponed, true);
      OwnSingle(ns[0], postponed, false);
      assert [ns[0]] + ns[1..] == ns;
      SingleContext(w, ns[0], postponed);
      ContextFreeAppend(w, [ns[0]], ns[1..], postponed);
    }
  }

  lemma SingleContext(w: Weight, n: Ast, postponed: bool)
    requires Own(n, postponed, true) == Own(n, postponed, false)
    requires Dead(w, n, postponed, true) == Dead(w, n, postponed, false)
    requires ScopesOf(n, postponed, true) == ScopesOf(n, postponed, false)
    ensures ContextFree(w, [n], postponed)
  {
    assert [n][1..] == [];
    OwnSingle(n, postponed, true);
    OwnSingle(n, postponed, false);
  }

  // ---------------------------------------------------------------- the balance

  lemma WalkArguments(w: Weight, args: Ast)
    requires GoodArguments(args)
    ensures Walk(w, args) == WalkAll(w, ArgumentFields(args, true)) + WalkAll(w, ArgumentAnnotations(args))
  {
    WalkSplit(w, args);
    WalkParameters(w, args.posonly);
    WalkParameters(w, args.plain);
    WalkParameters(w, args.kwonly);
    WalkParameters(w, Given(args.vararg));
    WalkParameters(w, Given(args.kwarg));
    WalkAnnotations(w, args);
    assert ArgumentFields(args, true) == args.defaults + args.kwDefaults;
    WalkAppend(w, args.defaults, args.kwDefaults);
  }

  lemma WalkSplit(w: Weight, args: Ast)
    requires args.Arguments?
    ensures Walk(w, args) == WalkAll(w, args.posonly) + WalkAll(w, args.plain) + WalkAll(w, Given(args.vararg)) +
            WalkAll(w, args.kwonly) + WalkAll(w, args.kwDefaults) + WalkAll(w, Given(args.kwarg))
                + WalkAll(w, args.defaults)
  {
    var s1 := args.posonly + args.plain;
    var s2 := s1 + Given(args.vararg);
    var s3 := s2 + args.kwonly;
    var s4 := s3 + args.kwDefaults;
    var s5 := s4 + Given(args.kwarg);
    WalkAppend(w, args.posonly, args.plain);
    WalkAppend(w, s1, Given(args.vararg));
    WalkAppend(w, s2, args.kwonly);
    WalkAppend(w, s3, args.kwDefaults);
    WalkAppend(w, s4, Given(args.kwarg));
    WalkAppend(w, s5, args.defaults);
  }

  lemma WalkAnnotations(w: Weight, args: Ast)
    requires args.Arguments?
    ensures WalkAll(w, ArgumentAnnotations(args)) ==
            WalkAll(w, Annotations(args.posonly)) + WalkAll(w, Annotations(args.plain))
                + WalkAll(w, Annotations(args.kwonly)) +
            WalkAll(w, Annotations(Given(args.vararg))) + WalkAll(w, Annotations(Given(args.kwarg)))
  {
    var s1 := Annotations(args.posonly) + Annotations(args.plain);
    var s2 := s1 + Annotations(args.kwonly);
    var s3 := s2 + Annotations(Given(args.vararg));
    WalkAppend(w, Annotations(args.posonly), Annotations(args.plain));
    WalkAppend(w, s1, Annotations(args.kwonly));
    WalkAppend(w, s2, Annotations(Given(args.vararg)));
    WalkAppend(w, s3, Annotations(Given(args.kwarg)));
  }

  /** Annotations of a definition that postponing leaves unevaluated. */
  function Postponed(w: Weight, n: Ast, postponed: bool): int
    requires n.FunctionDef?
  {
    if postponed then WalkAll(w, ArgumentAnnotations(n.args)) + WalkAll(w, Given(n.result)) else 0
  }

  lemma WalkFunction(w: Weight, n: Ast, postponed: bool)
    requires n.FunctionDef? && GoodArguments(n.args)
    ensures Walk(w, n) == WalkAll(w, SetupFields(n, postponed)) + Postponed(w, n, postponed) + WalkAll(w, n.body)
  {
    WalkFunctionParts(w, n);
    WalkArguments(w, n.args);
    WalkSetup(w, n, postponed);
  }

  lemma WalkFunctionParts(w: Weight, n: Ast)
    requires n.FunctionDef?
    ensures Walk(w, n) == Walk(w, n.args) + WalkAll(w, n.body) + WalkAll(w, n.decorators) + WalkAll(w, Given(n.result))
  {
    WalkAppend(w, [n.args] + n.body + n.decorators, Given(n.result));
    WalkAppend(w, [n.args] + n.body, n.decorators);
    WalkAppend(w, [n.args], n.body);
    assert [n.args][1..] == [];
  }

  lemma WalkSetup(w: Weight, n: Ast, postponed: bool)
    requires n.FunctionDef? && n.args.Arguments?
    ensures WalkAll(w, SetupFields(n, postponed)) + Postponed(w, n, postponed) ==
            WalkAll(w, n.decorators) + WalkAll(w, ArgumentFields(n.args, true)) +
            WalkAll(w, ArgumentAnnotations(n.args)) + WalkAll(w, Given(n.result))
  {
    var fields := ArgumentFields(n.args, postponed);
    var r := if postponed then [] else Given(n.result);
    assert SetupFields(n, postponed) == (n.decorators + fields) + r;
    WalkAppend(w, n.decorators + fields, r);
    WalkAppend(w, n.decorators, fields);
    assert ArgumentFields(n.args, true) == n.args.defaults + n.args.kwDefaults;
    WalkAppend(w, ArgumentFields(n.args, true), ArgumentAnnotations(n.args));
  }

  lemma WalkClass(w: Weight, n: Ast)
    requires n.ClassDef?
    ensures Walk(w, n) == WalkAll(w, SetupFields(n, true)) + WalkAll(w, n.body)
  {
    WalkAppend(w, n.bases + n.keywords + n.body, n.decorators);
    WalkAppend(w, n.bases + n.keywords, n.body);
    WalkAppend(w, n.bases, n.keywords);
    WalkAppend(w, n.decorators + n.bases, n.keywords);
    WalkAppend(w, n.decorators, n.bases);
  }

  lemma ParsedSetup(n: Ast, postponed: bool)
    requires n.FunctionDef? || n.ClassDef?
    requires ParsedAll(SetupFields(n, false)) && Expressions(SetupFields(n, false))
    ensures ParsedAll(SetupFields(n, postponed)) && Expressions(SetupFields(n, postponed))
  {
    if n.FunctionDef? && n.args.Arguments? {
      var always := ArgumentFields(n.args, true);
      assert always == n.args.defaults + n.args.kwDefaults;
      assert ArgumentFields(n.args, false) == always + ArgumentAnnotations(n.args);
      assert SetupFields(n, true) == n.decorators + always;
      ParsedAppend(n.decorators + ArgumentFields(n.args, false), Given(n.result));
      ParsedAppend(n.decorators, ArgumentFields(n.args, false));
      ParsedAppend(always, ArgumentAnnotations(n.args));
      ParsedAppend(n.decorators, always);
      ExpressionsAppend(n.decorators + ArgumentFields(n.args, false), Given(n.result));
      ExpressionsAppend(n.decorators, ArgumentFields(n.args, false));
      ExpressionsAppend(always, ArgumentAnnotations(n.args));
      ExpressionsAppend(n.decorators, always);
    } else if n.FunctionDef? {
      ParsedAppend(n.decorators, Given(n.result));
      ExpressionsAppend(n.decorators, Given(n.result));
      assert SetupFields(n, true) == n.decorators;
      assert SetupFields(n, false) == n.decorators + Given(n.result);
    }
  }

  /** The scopes found around a definition are those found in its setup fields. */
  lemma SetupScopes(w: Weight, n: Ast, postponed: bool)
    requires n.FunctionDef? || n.ClassDef?
    ensures Tally(w, ScopesAll(Parameters(n, postponed), postponed, false), postponed) +
            Tally(w, ScopesAll(Surroundings(n, postponed), postponed, false), postponed) ==
            Tally(w, ScopesAll(SetupFields(n, postponed), postponed, false), postponed)
  {
    var d := if n.FunctionDef? then n.decorators else n.decorators + n.bases;
    var r := if n.ClassDef? then n.keywords else if postponed then [] else Given(n.result);
    var a := Parameters(n, postponed);
    assert Surroundings(n, postponed) == d + r;
    assert SetupFields(n, postponed) == (d + a) + r;
    ScopesAppend(d, r, postponed, false);
    ScopesAppend(d + a, r, postponed, false);
    ScopesAppend(d, a, postponed, false);
    TallyAppend(w, ScopesAll(d, postponed, false), ScopesAll(r, postponed, false), postponed);
    TallyAppend(w, ScopesAll(d + a, postponed, false), ScopesAll(r, postponed, false), postponed);
    TallyAppend(w, ScopesAll(d, postponed, false), ScopesAll(a, postponed, false), postponed);
  }

  lemma TallyDefinition(w: Weight, n: Ast, postponed: bool, owner: bool)
    requires n.FunctionDef? || n.ClassDef?
    ensures Tally(w, ScopesOf(n, postponed, owner), postponed) ==
            Sum(w, OwnAll(n.body, postponed, n.FunctionDef?)) +
            Tally(w, ScopesAll(SetupFields(n, postponed), postponed, false), postponed) +
            Tally(w, ScopesAll(n.body, postponed, n.ClassDef?), postponed)
  {
    var a := ScopesAll(Parameters(n, postponed), postponed, false);
    var b := ScopesAll(Surroundings(n, postponed), postponed, false);
    var c := ScopesAll(n.body, postponed, n.ClassDef?);
    assert ScopesOf(n, postponed, owner) == [n] + a + b + c;
    TallyAppend(w, [n] + a + b, c, postponed);
    TallyAppend(w, [n] + a, b, postponed);
    TallyAppend(w, [n], a, postponed);
    assert [n][1..] == [];
    assert Tally(w, [n], postponed) == Sum(w, OwnedBy(n, postponed));
    SetupScopes(w, n, postponed);
  }

  lemma SharedSingle(w: Weight, n: Ast, postponed: bool, inFunction: bool)
    ensures Shared(w, [n], postponed, inFunction) == Sum(w, Own(n, postponed, inFunction)) +
            Tally(w, ScopesOf(n, postponed, !inFunction), postponed) + Dead(w, n, postponed, inFunction)
  {
    OwnSingle(n, postponed, inFunction);
    assert [n][1..] == [];
    assert ScopesAll([n][1..], postponed, !inFunction) == [];
    assert ScopesAll([n], postponed, !inFunction) == ScopesOf(n, postponed, !inFunction);
    assert DeadAll(w, [n], postponed, inFunction) == Dead(w, n, postponed, inFunction);
  }

  lemma {:induction false} BareParameters(w: Weight, params: seq<Ast>, postponed: bool, inFunction: bool)
    requires OnlyParameters(params) && Annotations(params) == []
    ensures Below(w, params, postponed, inFunction) == 0
  {
    if params != [] {
      assert Given(params[0].annotation) == [] && Annotations(params[1..]) == [];
      BareParameters(w, params[1..], postponed, inFunction);
      assert [params[0]] + params[1..] == params;
      BelowAppend(w, [params[0]], params[1..], postponed, inFunction);
      BareParameter(w, params[0], postponed, inFunction);
    }
  }

  lemma BareParameter(w: Weight, a: Ast, postponed: bool, inFunction: bool)
    requires a == Arg(None)
    ensures Below(w, [a], postponed, inFunction) == 0
  {
    assert Children(a) == [] && [a][1..] == [];
    assert ScopesOf(a, postponed, !inFunction) == [];
    assert ScopesAll([a][1..], postponed, !inFunction) == [];
    assert Dead(w, a, postponed, inFunction) == 0;
  }

  lemma BareArguments(w: Weight, args: Ast, postponed: bool, inFunction: bool)
    requires GoodArguments(args) && ArgumentAnnotations(args) == []
    ensures ArgumentFields(args, postponed) == args.defaults + args.kwDefaults
    ensures Below(w, Children(args), postponed, inFunction)
        == Below(w, ArgumentFields(args, postponed), postponed, inFunction)
  {
    NoAnnotations(args);
    var s1 := args.posonly + args.plain;
    var s2 := s1 + Given(args.vararg);
    var s3 := s2 + args.kwonly;
    var s4 := s3 + args.kwDefaults;
    var s5 := s4 + Given(args.kwarg);
    BareParameters(w, args.posonly, postponed, inFunction);
    BareParameters(w, args.plain, postponed, inFunction);
    BareParameters(w, args.kwonly, postponed, inFunction);
    BareParameters(w, Given(args.vararg), postponed, inFunction);
    BareParameters(w, Given(args.kwarg), postponed, inFunction);
    BelowAppend(w, args.posonly, args.plain, postponed, inFunction);
    BelowAppend(w, s1, Given(args.vararg), postponed, inFunction);
    BelowAppend(w, s2, args.kwonly, postponed, inFunction);
    BelowAppend(w, s3, args.kwDefaults, postponed, inFunction);
    BelowAppend(w, s4, Given(args.kwarg), postponed, inFunction);
    BelowAppend(w, s5, args.defaults, postponed, inFunction);
    BelowAppend(w, args.defaults, args.kwDefaults, postponed, inFunction);
  }

  lemma NoAnnotations(args: Ast)
    requires args.Arguments? && ArgumentAnnotations(args) == []
    ensures Annotations(args.posonly) == Annotations(args.plain) == Annotations(args.kwonly) == []
    ensures Annotations(Given(args.vararg)) == Annotations(Given(args.kwarg)) == []
  {
    assert |ArgumentAnnotations(args)| == |Annotations(args.posonly)| + |Annotations(args.plain)|
        + |Annotations(args.kwonly)|
      + |Annotations(Given(args.vararg))| + |Annotations(Given(args.kwarg))|;
  }

  /** Recording an assigned lambda first does not change which scopes are found. */
  lemma AssignedLambdaScopes(w: Weight, n: Ast, postponed: bool, owner: bool)
    requires AssignsLambda(n)
    ensures Tally(w, ScopesOf(n, postponed, owner), postponed) ==
            Tally(w, ScopesAll(Evaluated(n, postponed, !owner), postponed, owner), postponed)
  {
    var targets := if n.Assign? then n.targets else [n.target];
    var v := AssignedValue(n);
    var ann := if n.AnnAssign? && owner && !postponed then [n.declared] else [];
    assert ScopesOf(n, postponed, owner) == [v] + ScopesAll(BesideLambda(n, postponed, owner), postponed, owner);
    assert BesideLambda(n, postponed, owner) == targets + Children(v) + ann;
    assert Evaluated(n, postponed, !owner) == (targets + ann) + [v];
    LambdaScopes(w, v, postponed, owner);
    hide ScopesOf, ScopesAll, Tally, Children, BesideLambda, Evaluated;
    TallyAppend(w, [v], ScopesAll(BesideLambda(n, postponed, owner), postponed, owner), postponed);
    TallyScopesAppend(w, targets + Children(v), ann, postponed, owner);
    TallyScopesAppend(w, targets, Children(v), postponed, owner);
    TallyScopesAppend(w, targets + ann, [v], postponed, owner);
    TallyScopesAppend(w, targets, ann, postponed, owner);
  }

  lemma LambdaScopes(w: Weight, v: Ast, postponed: bool, owner: bool)
    requires v.Lambda?
    ensures Tally(w, ScopesAll([v], postponed, owner), postponed) ==
            Tally(w, [v], postponed) + Tally(w, ScopesAll(Children(v), postponed, owner), postponed)
  {
    assert [v][1..] == [];
    assert ScopesAll([v][1..], postponed, owner) == [];
    assert ScopesAll([v], postponed, owner) == [v] + ScopesAll(Children(v), postponed, owner);
    TallyAppend(w, [v], ScopesAll(Children(v), postponed, owner), postponed);
  }

  lemma TallyScopesAppend(w: Weight, a: seq<Ast>, b: seq<Ast>, postponed: bool, owner: bool)
    ensures Tally(w, ScopesAll(a + b, postponed, owner), postponed) ==
            Tally(w, ScopesAll(a, postponed, owner), postponed) + Tally(w, ScopesAll(b, postponed, owner), postponed)
  {
    ScopesAppend(a, b, postponed, owner);
    TallyAppend(w, ScopesAll(a, postponed, owner), ScopesAll(b, postponed, owner), postponed);
  }

  /** The children of an ordinary node that are evaluated. */
  function Evaluated(n: Ast, postponed: bool, inFunction: bool): seq<Ast> {
    if n.AnnAssign? && (postponed || inFunction) then Unannotated(n) else Children(n)
  }

  lemma OrdinaryParts(w: Weight, n: Ast, postponed: bool, inFunction: bool)
    requires !IsDefinition(n) && Parsed(n)
    ensures ParsedAll(Evaluated(n, postponed, inFunction)) && SizeAll(Evaluated(n, postponed, inFunction)) < Size(n)
    ensures Sum(w, Own(n, postponed, inFunction)) + Dead(w, n, postponed, inFunction)
        + WalkAll(w, Evaluated(n, postponed, inFunction)) ==
            Sum(w, OwnAll(Evaluated(n, postponed, inFunction), postponed, inFunction)) +
            DeadAll(w, Evaluated(n, postponed, inFunction), postponed, inFunction) + Walk(w, n)
  {
    SizeChildren(n);
    if n.AnnAssign? {
      SizeUnannotated(n);
      AnnotatedParts(w, n);
    }
    if !n.AnnAssign? || !(postponed || inFunction) {
      SumAppend(w, [n], OwnAll(Children(n), postponed, inFunction));
      assert Sum(w, [n]) == w(n);
    } else {
      assert Own(n, postponed, inFunction) == OwnAll(Unannotated(n), postponed, inFunction);
    }
  }

  lemma OrdinaryScopes(w: Weight, n: Ast, postponed: bool, owner: bool)
    requires !IsDefinition(n)
    ensures Tally(w, ScopesOf(n, postponed, owner), postponed) ==
            Tally(w, ScopesAll(Evaluated(n, postponed, !owner), postponed, owner), postponed)
  {
    if AssignsLambda(n) { AssignedLambdaScopes(w, n, postponed, owner); }
  }

  lemma {:induction false} BalanceOrdinary(w: Weight, n: Ast, postponed: bool, inFunction: bool)
    requires !IsDefinition(n) && Parsed(n)
    ensures Shared(w, [n], postponed, inFunction) == Walk(w, n)
    decreases Size(n), 0
  {
    hide ScopesOf, ScopesAll, Tally, Evaluated, OwnAll, Own, DeadAll, Dead, Walk, WalkAll, Sum, ParsedAll,
        Parsed, Size, SizeAll;
    OrdinaryParts(w, n, postponed, inFunction);
    OrdinaryScopes(w, n, postponed, !inFunction);
    SharedSingle(w, n, postponed, inFunction);
    BalanceAll(w, Evaluated(n, postponed, inFunction), postponed, inFunction);
  }

  lemma AnnotatedParts(w: Weight, n: Ast)
    requires n.AnnAssign? && Parsed(n)
    ensures ParsedAll(Unannotated(n))
    ensures WalkAll(w, Children(n)) == Walk(w, n.declared) + WalkAll(w, Unannotated(n))
  {
    assert Children(n)[1..] == [n.declared] + Given(n.initial);
    assert Children(n)[1..][1..] == Given(n.initial);
    assert Unannotated(n)[1..] == Given(n.initial);
    assert ParsedAll(Children(n)[1..]);
  }

  lemma DefinitionParts(w: Weight, n: Ast, postponed: bool, inFunction: bool)
    requires (n.FunctionDef? || n.ClassDef?) && Parsed(n)
    ensures ParsedAll(SetupFields(n, postponed)) && ParsedAll(n.body)
    ensures Own(n, postponed, inFunction) == OwnAll(SetupFields(n, postponed), postponed, true)
    ensures Dead(w, n, postponed, inFunction) + WalkAll(w, SetupFields(n, postponed)) + WalkAll(w, n.body) ==
            DeadAll(w, SetupFields(n, postponed), postponed, true)
                + DeadAll(w, n.body, postponed, n.FunctionDef?) + Walk(w, n)
    ensures ScopesAll(SetupFields(n, postponed), postponed, true)
        == ScopesAll(SetupFields(n, postponed), postponed, false)
  {
    hide SetupFields, Expressions, ParsedAll, OwnAll, Own, DeadAll, Dead, ScopesAll, WalkAll, Walk;
    assert ParsedAll(SetupFields(n, postponed)) && Expressions(SetupFields(n, postponed)) && ParsedAll(n.body) by {
      ParsedSetup(n, postponed);
    }
    ExpressionsContext(w, SetupFields(n, postponed), postponed);
    DefinitionOwn(n, postponed, inFunction);
    DefinitionDead(w, n, postponed, inFunction);
    if n.FunctionDef? {
      WalkFunction(w, n, postponed);
    } else {
      WalkClass(w, n);
      ClassSetup(n);
    }
  }

  lemma DefinitionOwn(n: Ast, postponed: bool, inFunction: bool)
    requires n.FunctionDef? || n.ClassDef?
    ensures Own(n, postponed, inFunction) == OwnAll(SetupFields(n, postponed), postponed, inFunction)
  {
    hide SetupFields, OwnAll;
  }

  lemma DefinitionDead(w: Weight, n: Ast, postponed: bool, inFunction: bool)
    requires n.FunctionDef? || n.ClassDef?
    ensures Dead(w, n, postponed, inFunction) ==
            (if n.FunctionDef? then Postponed(w, n, postponed) else 0)
            + DeadAll(w, SetupFields(n, postponed), postponed, true) + DeadAll(w, n.body, postponed, n.FunctionDef?)
  {
    hide SetupFields, DeadAll, WalkAll;
  }

  lemma ClassSetup(n: Ast)
    requires n.ClassDef?
    ensures SetupFields(n, true) == SetupFields(n, false)
  {
  }

  lemma {:induction false} BalanceDefinition(w: Weight, n: Ast, postponed: bool, inFunction: bool)
    requires (n.FunctionDef? || n.ClassDef?) && Parsed(n)
    ensures Shared(w, [n], postponed, inFunction) == Walk(w, n)
    decreases Size(n), 0
  {
    hide ScopesOf, ScopesAll, Tally, OwnAll, Own, DeadAll, Dead, Walk, WalkAll, Sum, ParsedAll, Parsed,
        SetupFields, Size, SizeAll;
    SizeSetup(n, postponed);
    DefinitionParts(w, n, postponed, inFunction);
    SharedSingle(w, n, postponed, inFunction);
    TallyDefinition(w, n, postponed, !inFunction);
    BalanceAll(w, SetupFields(n, postponed), postponed, true);
    BalanceAll(w, n.body, postponed, n.FunctionDef?);
  }

  lemma LambdaParts(w: Weight, n: Ast, postponed: bool, inFunction: bool)
    requires n.Lambda? && Parsed(n)
    ensures GoodArguments(n.args) && ArgumentAnnotations(n.args) == [] && Expression(n.value) && Parsed(n.value)
    ensures ParsedAll(ArgumentFields(n.args, postponed))
    ensures Walk(w, n) == Walk(w, n.args) + Walk(w, n.value)
    ensures Own(n, postponed, inFunction) == OwnAll(ArgumentFields(n.args, postponed), postponed, inFunction)
  {
    BareArguments(w, n.args, false, inFunction);
    BareArguments(w, n.args, postponed, inFunction);
    WalkLambda(w, n);
  }

  lemma WalkLambda(w: Weight, n: Ast)
    requires n.Lambda?
    ensures Walk(w, n) == Walk(w, n.args) + Walk(w, n.value)
  {
    assert Children(n) == [n.args] + [n.value];
    WalkAppend(w, [n.args], [n.value]);
    assert [n.args][1..] == [] && [n.value][1..] == [];
  }

  lemma LambdaFields(w: Weight, n: Ast, postponed: bool, inFunction: bool)
    requires n.Lambda? && GoodArguments(n.args) && ArgumentAnnotations(n.args) == [] && Expression(n.value)
    ensures SizeAll(ArgumentFields(n.args, postponed)) + Size(n.value) < Size(n)
    ensures Walk(w, n.args) == WalkAll(w, ArgumentFields(n.args, postponed))
    ensures Below(w, Children(n.args), postponed, inFunction)
        == Below(w, ArgumentFields(n.args, postponed), postponed, inFunction)
    ensures OwnAll([n.value], postponed, false) == OwnAll([n.value], postponed, inFunction)
  {
    SizeSetup(n, postponed);
    SizeSingle(n.value);
    hide OwnAll, Expression;
    BareArguments(w, n.args, true, inFunction);
    BareArguments(w, n.args, postponed, inFunction);
    ExpressionContext(w, n.value, postponed);
    OwnSingle(n.value, postponed, false);
    OwnSingle(n.value, postponed, true);
    WalkArguments(w, n.args);
  }

  lemma {:induction false} BalanceLambda(w: Weight, n: Ast, postponed: bool, inFunction: bool)
    requires n.Lambda? && Parsed(n)
    ensures Shared(w, [n], postponed, inFunction) == Walk(w, n)
    decreases Size(n), 0
  {
    hide ScopesOf, ScopesAll, Tally, OwnAll, Own, DeadAll, Dead, Walk, WalkAll, Sum, ParsedAll, Parsed,
        ArgumentFields, Size, SizeAll;
    LambdaParts(w, n, postponed, inFunction);
    LambdaFields(w, n, postponed, inFunction);
    SharedSingle(w, n, postponed, inFunction);
    LambdaBelow(w, n, postponed, inFunction);
    BalanceAll(w, ArgumentFields(n.args, postponed), postponed, inFunction);
    BalanceNode(w, n.value, postponed, inFunction);
  }

  lemma LambdaBelow(w: Weight, n: Ast, postponed: bool, inFunction: bool)
    requires n.Lambda? && n.args.Arguments?
    ensures Tally(w, ScopesOf(n, postponed, !inFunction), postponed) + Dead(w, n, postponed, inFunction) ==
            Sum(w, OwnAll([n.value], postponed, false)) + Below(w, Children(n.args), postponed, inFunction) +
            Below(w, [n.value], postponed, inFunction)
  {
    hide ScopesOf, ScopesAll, Tally, OwnAll, DeadAll, Dead, Sum, Children;
    var args := n.args;
    LambdaUnfolds(w, n, postponed, inFunction);
    BelowAppend(w, [args], [n.value], postponed, inFunction);
    TallyAppend(w, [n], ScopesAll(Children(n), postponed, !inFunction), postponed);
    ArgumentsBelow(w, args, postponed, inFunction);
    LambdaTally(w, n, postponed);
  }

  lemma LambdaUnfolds(w: Weight, n: Ast, postponed: bool, inFunction: bool)
    requires n.Lambda?
    ensures Children(n) == [n.args] + [n.value]
    ensures ScopesOf(n, postponed, !inFunction) == [n] + ScopesAll(Children(n), postponed, !inFunction)
    ensures Dead(w, n, postponed, inFunction) == DeadAll(w, Children(n), postponed, inFunction)
  {
    hide ScopesAll, DeadAll;
  }

  lemma LambdaTally(w: Weight, n: Ast, postponed: bool)
    requires n.Lambda?
    ensures Tally(w, [n], postponed) == Sum(w, OwnAll([n.value], postponed, false))
  {
    hide OwnAll, Sum;
    assert [n][1..] == [];
  }

  lemma ArgumentsBelow(w: Weight, args: Ast, postponed: bool, inFunction: bool)
    requires args.Arguments?
    ensures Below(w, [args], postponed, inFunction) == Below(w, Children(args), postponed, inFunction)
  {
    assert [args][1..] == [];
    assert ScopesAll([args][1..], postponed, !inFunction) == [];
    assert ScopesAll([args], postponed, !inFunction) == ScopesAll(Children(args), postponed, !inFunction);
    assert DeadAll(w, [args], postponed, inFunction) == DeadAll(w, Children(args), postponed, inFunction);
  }

  lemma {:induction false} BalanceNode(w: Weight, n: Ast, postponed: bool, inFunction: bool)
    requires Parsed(n)
    ensures Shared(w, [n], postponed, inFunction) == Walk(w, n)
    decreases Size(n), 1
  {
    if n.FunctionDef? || n.ClassDef? {
      BalanceDefinition(w, n, postponed, inFunction);
    } else if n.Lambda? {
      BalanceLambda(w, n, postponed, inFunction);
    } else {
      BalanceOrdinary(w, n, postponed, inFunction);
    }
  }

  lemma {:induction false} BalanceAll(w: Weight, ns: seq<Ast>, postponed: bool, inFunction: bool)
    requires ParsedAll(ns)
    ensures Shared(w, ns, postponed, inFunction) == WalkAll(w, ns)
    decreases SizeAll(ns), 2
  {
    if ns != [] {
      BalanceNode(w, ns[0], postponed, inFunction);
      BalanceAll(w, ns[1..], postponed, inFunction);
      assert [ns[0]] + ns[1..] == ns;
      SharedAppend(w, [ns[0]], ns[1..], postponed, inFunction);
    }
  }

  // ---------------------------------------------------------------- main results

  function AllScopes(tree: seq<Ast>, postponed: bool): seq<Ast> {
    [Module(tree)] + Nodes(Inventoried(tree, postponed))
  }

  /** For every measure of nodes, what the scopes own together with the never
      evaluated annotations is the whole tree. */
  lemma ScopesPartitionTree(w: Weight, tree: seq<Ast>, postponed: bool)
    requires ParsedAll(tree)
    ensures Tally(w, AllScopes(tree, postponed), postponed) + DeadAll(w, tree, postponed, false) == WalkAll(w, tree)
  {
    hide Tally, OwnAll, DeadAll, WalkAll, ScopesAll, ParsedAll, Sum, VisitAll;
    VisitAllRecords(tree, [], true, postponed, EMPTY);
    assert Nodes(EMPTY.found) + ScopesAll(tree, postponed, true) == ScopesAll(tree, postponed, true);
    TallyAppend(w, [Module(tree)], ScopesAll(tree, postponed, true), postponed);
    TallyModule(w, tree, postponed);
    BalanceAll(w, tree, postponed, false);
  }

  lemma TallyModule(w: Weight, tree: seq<Ast>, postponed: bool)
    ensures Tally(w, [Module(tree)], postponed) == Sum(w, OwnAll(tree, postponed, false))
  {
    assert [Module(tree)][1..] == [];
  }

  function Indicator(m: Ast): Weight { n => if n == m then 1 else 0 }

  /** Every node is owned as often as it occurs outside dead annotations: once per
      occurrence, by whichever scope. */
  lemma EveryNodeOwnedOnce(m: Ast, tree: seq<Ast>, postponed: bool)
    requires ParsedAll(tree)
    ensures Tally(Indicator(m), AllScopes(tree, postponed), postponed) ==
            WalkAll(Indicator(m), tree) - DeadAll(Indicator(m), tree, postponed, false)
  {
    ScopesPartitionTree(Indicator(m), tree, postponed);
  }

  /** Scope `i` of the list owns the node once, and no other scope owns it. */
  predicate OnlyOwner(m: Ast, scopes: seq<Ast>, postponed: bool, i: nat) {
    i < |scopes| &&
    forall j :: 0 <= j < |scopes| ==>
      Sum(Indicator(m), OwnedBy(scopes[j], postponed)) == if j == i then 1 else 0
  }

  /** A node that occurs at one place of the tree is owned by exactly one scope, once;
      or by none, if that place is a dead annotation. */
  lemma NodeOwnedByOneScope(m: Ast, tree: seq<Ast>, postponed: bool)
    requires ParsedAll(tree) && WalkAll(Indicator(m), tree) == 1
    ensures var scopes := AllScopes(tree, postponed);
      match DeadAll(Indicator(m), tree, postponed, false)
      case 0 => exists i :: OnlyOwner(m, scopes, postponed, i)
      case 1 => forall j :: 0 <= j < |scopes| ==> Sum(Indicator(m), OwnedBy(scopes[j], postponed)) == 0
      case _ => false
  {
    hide Tally, WalkAll, DeadAll, Sum, OwnedBy, ParsedAll, OnlyOwner;
    var scopes := AllScopes(tree, postponed);
    EveryNodeOwnedOnce(m, tree, postponed);
    DeadNotNegative(m, tree, postponed, false);
    TallyNotNegative(m, scopes, postponed);
    if Tally(Indicator(m), scopes, postponed) == 1 { var i := SingleOwner(m, scopes, postponed); }
  }

  lemma {:induction false} SumNotNegative(m: Ast, ns: seq<Ast>)
    ensures Sum(Indicator(m), ns) >= 0
  {
    if ns != [] { SumNotNegative(m, ns[1..]); }
  }

  lemma {:induction false} TallyNotNegative(m: Ast, scopes: seq<Ast>, postponed: bool)
    ensures Tally(Indicator(m), scopes, postponed) >= 0
    ensures Tally(Indicator(m), scopes, postponed) == 0 ==>
      forall j :: 0 <= j < |scopes| ==> Sum(Indicator(m), OwnedBy(scopes[j], postponed)) == 0
  {
    hide Sum, OwnedBy, Indicator;
    if scopes != [] {
      SumNotNegative(m, OwnedBy(scopes[0], postponed));
      TallyNotNegative(m, scopes[1..], postponed);
    }
  }

  lemma {:induction false} SingleOwner(m: Ast, scopes: seq<Ast>, postponed: bool) returns (i: nat)
    requires Tally(Indicator(m), scopes, postponed) == 1
    ensures OnlyOwner(m, scopes, postponed, i)
  {
    hide Sum, OwnedBy, Indicator;
    SumNotNegative(m, OwnedBy(scopes[0], postponed));
    TallyNotNegative(m, scopes[1..], postponed);
    if Sum(Indicator(m), OwnedBy(scopes[0], postponed)) == 1 {
      i := 0;
      forall j | 0 <= j < |scopes|
        ensures Sum(Indicator(m), OwnedBy(scopes[j], postponed)) == if j == 0 then 1 else 0
      {
        if j > 0 { assert scopes[j] == scopes[1..][j - 1]; }
      }
    } else {
      var k := SingleOwner(m, scopes[1..], postponed);
      i := k + 1;
      forall j | 0 <= j < |scopes|
        ensures Sum(Indicator(m), OwnedBy(scopes[j], postponed)) == if j == i then 1 else 0
      {
        if j > 0 { assert scopes[j] == scopes[1..][j - 1]; }
      }
    }
  }

  lemma {:induction false} WalkNotNegative(m: Ast, ns: seq<Ast>)
    ensures WalkAll(Indicator(m), ns) >= 0
    decreases SizeAll(ns)
  {
    if ns != [] {
      SizeChildren(ns[0]);
      WalkNotNegative(m, Children(ns[0]));
      WalkNotNegative(m, ns[1..]);
    }
  }

  lemma {:induction false} DeadNotNegative(m: Ast, ns: seq<Ast>, postponed: bool, inFunction: bool)
    ensures DeadAll(Indicator(m), ns, postponed, inFunction) >= 0
    decreases SizeAll(ns), 1
  {
    hide Dead, Children;
    if ns != [] {
      DeadNodeNotNegative(m, ns[0], postponed, inFunction);
      DeadNotNegative(m, ns[1..], postponed, inFunction);
    }
  }

  lemma {:induction false} DeadNodeNotNegative(m: Ast, n: Ast, postponed: bool, inFunction: bool)
    ensures Dead(Indicator(m), n, postponed, inFunction) >= 0
    decreases Size(n), 0
  {
    hide DeadAll, WalkAll, Size, SizeAll, SetupFields, Unannotated, Children, ArgumentAnnotations;
    SizeChildren(n);
    match n
    case FunctionDef(_, args, body, _, result) =>
      SizeSetup(n, postponed);
      WalkNotNegative(m, ArgumentAnnotations(args));
      WalkNotNegative(m, Given(result));
      DeadNotNegative(m, SetupFields(n, postponed), postponed, true);
      DeadNotNegative(m, body, postponed, true);
    case ClassDef(_, _, _, body, _) =>
      SizeSetup(n, postponed);
      DeadNotNegative(m, SetupFields(n, postponed), postponed, true);
      DeadNotNegative(m, body, postponed, false);
    case AnnAssign(_, declared, _, _) =>
      SizeUnannotated(n);
      WalkOneNotNegative(m, declared);
      DeadNotNegative(m, Unannotated(n), postponed, inFunction);
      DeadNotNegative(m, Children(n), postponed, inFunction);
    case _ =>
      DeadNotNegative(m, Children(n), postponed, inFunction);
  }

  lemma WalkOneNotNegative(m: Ast, n: Ast)
    ensures Walk(Indicator(m), n) >= 0
  {
    hide WalkAll, Children;
    WalkNotNegative(m, Children(n));
  }

  // ---------------------------------------------------------------- complexity

  /** Whether an unguarded match pattern cannot fall through. */
  predicate Irrefutable(pattern: Ast) {
    match pattern
    case Node(MatchAs, _, parts) => parts == [] || Irrefutable(parts[0])
    case Node(MatchOr, _, parts) => exists i :: 0 <= i < |parts| && Irrefutable(parts[i])
    case _ => false
  }

  /** Additional decisions represented by MatchOr, including nested alternatives. */
  function Alternatives(pattern: Ast): int
    decreases Size(pattern), 0
  {
    SizeChildren(pattern);
    (if pattern.Node? && pattern.kind.MatchOr? then |pattern.children| - 1 else 0) + AlternativesAll(Children(pattern))
  }

  function AlternativesAll(ns: seq<Ast>): int
    decreases SizeAll(ns), 1
  {
    if ns == [] then 0 else Alternatives(ns[0]) + AlternativesAll(ns[1..])
  }

  function CaseDecisions(c: Ast): int {
    if c.Node? && c.kind.MatchCase? && c.children != [] then
      (if Irrefutable(c.children[0]) then 0 else 1) + Alternatives(c.children[0]) + (if c.kind.guarded then 1 else 0)
    else 0
  }

  function CasesDecisions(cases: seq<Ast>): int {
    if cases == [] then 0 else CaseDecisions(cases[0]) + CasesDecisions(cases[1..])
  }

  /** What one owned node adds to the cyclomatic complexity. */
  function Decisions(n: Ast): int {
    match n
    case Node(Branch, _, _) => 1
    case Node(BoolOp, _, values) => |values| - 1
    case Node(Compare, _, operands) => |operands| - 2
    case Node(Comprehension, _, parts) => 1 + (|parts| - 2)
    case Node(Match, _, parts) => if parts == [] then 0 else CasesDecisions(parts[1..])
    case _ => 0
  }

  function ComplexityOf(scope: Ast, postponed: bool): int { 1 + Sum(Decisions, OwnedBy(scope, postponed)) }

  /** McCabe cyclomatic complexity of one independently owned scope. */
  method Complexity(scope: Ast, postponed: bool) returns (count: int)
    ensures count == ComplexityOf(scope, postponed)
  {
    var nodes := OwnNodes(scope, postponed);
    count := 1;
    for k := 0 to |nodes|
      invariant count == 1 + Sum(Decisions, nodes[..k])
    {
      SumAppend(Decisions, nodes[..k], [nodes[k]]);
      assert nodes[..k + 1] == nodes[..k] + [nodes[k]];
      assert Sum(Decisions, [nodes[k]]) == Decisions(nodes[k]);
      count := count + Decisions(nodes[k]);
    }
    assert nodes[..|nodes|] == nodes;
  }

  function TotalDecisions(scopes: seq<Ast>, postponed: bool): int {
    if scopes == [] then 0 else ComplexityOf(scopes[0], postponed) - 1 + TotalDecisions(scopes[1..], postponed)
  }

  lemma {:induction false} TotalIsTally(scopes: seq<Ast>, postponed: bool)
    ensures TotalDecisions(scopes, postponed) == Tally(Decisions, scopes, postponed)
  {
    if scopes != [] { TotalIsTally(scopes[1..], postponed); }
  }

  /** The complexities of all scopes together count every decision of the module
      that is evaluated, each once. */
  lemma ComplexityConserved(tree: seq<Ast>, postponed: bool)
    requires ParsedAll(tree)
    ensures TotalDecisions(AllScopes(tree, postponed), postponed) ==
            WalkAll(Decisions, tree) - DeadAll(Decisions, tree, postponed, false)
  {
    TotalIsTally(AllScopes(tree, postponed), postponed);
    ScopesPartitionTree(Decisions, tree, postponed);
  }
}
