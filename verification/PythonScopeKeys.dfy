/** No scope can hide behind another: the keys of the inventory are distinct. */
module PythonScopeKeys {
  import opened Sequences
  import opened Dotted
  import opened PythonAst
  import opened PythonScopes
  import Decimal

  /** True of identifiers and of `lambda@<line>`. */
  predicate Plain(name: string) { '#' !in name && '<' !in name }

  predicate PlainScope(scope: seq<string>) { forall i :: 0 <= i < |scope| ==> Plain(scope[i]) }

  /** Definitions and bound names below `n` are identifiers. */
  predicate Identifiers(n: Ast)
    decreases Size(n), 0
  {
    SizeChildren(n);
    && (n.FunctionDef? || n.ClassDef? ==> Plain(n.name))
    && (n.Node? && n.kind.Name? ==> Plain(n.kind.id))
    && IdentifiersAll(Children(n))
  }

  predicate IdentifiersAll(ns: seq<Ast>)
    decreases SizeAll(ns), 1
  {
    ns == [] || (Identifiers(ns[0]) && IdentifiersAll(ns[1..]))
  }

  /** Every entry carries an ordinal its qualified name has reached, and no two
      entries share both. */
  ghost predicate Distinct(st: Inventory) {
    && (forall i :: 0 <= i < |st.found| ==>
          && st.found[i].qualified in st.seen && Plain(st.found[i].qualified)
          && 1 <= st.found[i].ordinal <= st.seen[st.found[i].qualified])
    && (forall i, j :: 0 <= i < j < |st.found| ==>
          st.found[i].qualified != st.found[j].qualified || st.found[i].ordinal != st.found[j].ordinal)
  }

  lemma {:induction false} JoinPlain(scope: seq<string>, name: string)
    requires PlainScope(scope) && Plain(name)
    ensures Plain(Join(scope + [name]))
  {
    if scope == [] {
      assert scope + [name] == [name];
    } else {
      assert (scope + [name])[1..] == scope[1..] + [name];
      JoinPlain(scope[1..], name);
    }
  }

  lemma RecordDistinct(st: Inventory, scope: seq<string>, name: string, node: Ast)
    requires Distinct(st) && PlainScope(scope) && Plain(name)
    ensures Distinct(RecordIn(st, scope, name, node))
  {
    JoinPlain(scope, name);
  }

  lemma LineNamePlain(line: nat)
    ensures Plain(LineName(line))
  {
    assert forall c :: c in Decimal.Print(line) ==> Decimal.IsDigit(c);
  }

  lemma {:induction false} IdentifiersAppend(a: seq<Ast>, b: seq<Ast>)
    ensures IdentifiersAll(a + b) <==> IdentifiersAll(a) && IdentifiersAll(b)
  {
    if a == [] {
      assert a + b == b;
    } else {
      assert (a + b)[1..] == a[1..] + b;
      IdentifiersAppend(a[1..], b);
    }
  }

  lemma {:induction false} AnnotationsIdentifiers(params: seq<Ast>)
    requires IdentifiersAll(params)
    ensures IdentifiersAll(Annotations(params))
  {
    if params != [] {
      AnnotationsIdentifiers(params[1..]);
      var first := if params[0].Arg? then Given(params[0].annotation) else [];
      assert Identifiers(params[0]);
      assert params[0].Arg? ==> first == Children(params[0]);
      IdentifiersAppend(first, Annotations(params[1..]));
    }
  }

  lemma ArgumentParts(args: Ast)
    requires args.Arguments? && Identifiers(args)
    ensures IdentifiersAll(args.posonly) && IdentifiersAll(args.plain) && IdentifiersAll(args.kwonly)
    ensures IdentifiersAll(Given(args.vararg)) && IdentifiersAll(Given(args.kwarg))
    ensures IdentifiersAll(args.kwDefaults) && IdentifiersAll(args.defaults)
  {
    var s1 := args.posonly + args.plain;
    var s2 := s1 + Given(args.vararg);
    var s3 := s2 + args.kwonly;
    var s4 := s3 + args.kwDefaults;
    var s5 := s4 + Given(args.kwarg);
    IdentifiersAppend(s5, args.defaults);
    IdentifiersAppend(s4, Given(args.kwarg));
    IdentifiersAppend(s3, args.kwDefaults);
    IdentifiersAppend(s2, args.kwonly);
    IdentifiersAppend(s1, Given(args.vararg));
    IdentifiersAppend(args.posonly, args.plain);
  }

  lemma ArgumentIdentifiers(args: Ast, postponed: bool)
    requires Identifiers(args)
    ensures IdentifiersAll(ArgumentFields(args, postponed))
  {
    if args.Arguments? {
      ArgumentParts(args);
      hide IdentifiersAll, Annotations;
      var s1 := Annotations(args.posonly) + Annotations(args.plain);
      var s2 := s1 + Annotations(args.kwonly);
      var s3 := s2 + Annotations(Given(args.vararg));
      AnnotationsIdentifiers(args.posonly);
      AnnotationsIdentifiers(args.plain);
      AnnotationsIdentifiers(args.kwonly);
      AnnotationsIdentifiers(Given(args.vararg));
      AnnotationsIdentifiers(Given(args.kwarg));
      IdentifiersAppend(Annotations(args.posonly), Annotations(args.plain));
      IdentifiersAppend(s1, Annotations(args.kwonly));
      IdentifiersAppend(s2, Annotations(Given(args.vararg)));
      IdentifiersAppend(s3, Annotations(Given(args.kwarg)));
      IdentifiersAppend(args.defaults, args.kwDefaults);
      IdentifiersAppend(args.defaults + args.kwDefaults, []);
      IdentifiersAppend(args.defaults + args.kwDefaults, ArgumentAnnotations(args));
    }
  }

  lemma DefinitionIdentifiers(n: Ast, postponed: bool)
    requires (n.FunctionDef? || n.ClassDef?) && Identifiers(n)
    ensures IdentifiersAll(Parameters(n, postponed)) && IdentifiersAll(Surroundings(n, postponed))
        && IdentifiersAll(n.body)
  {
    if n.FunctionDef? {
      IdentifiersAppend([n.args] + n.body + n.decorators, Given(n.result));
      IdentifiersAppend([n.args] + n.body, n.decorators);
      IdentifiersAppend([n.args], n.body);
      assert [n.args][0] == n.args;
      ArgumentIdentifiers(n.args, postponed);
      IdentifiersAppend(n.decorators, if postponed then [] else Given(n.result));
    } else {
      IdentifiersAppend(n.bases + n.keywords + n.body, n.decorators);
      IdentifiersAppend(n.bases + n.keywords, n.body);
      IdentifiersAppend(n.bases, n.keywords);
      IdentifiersAppend(n.decorators, n.bases);
      IdentifiersAppend(n.decorators + n.bases, n.keywords);
    }
  }

  lemma AssignedIdentifiers(n: Ast, postponed: bool, owner: bool)
    requires AssignsLambda(n) && Identifiers(n)
    ensures IdentifiersAll(BesideLambda(n, postponed, owner)) && Plain(AssignedName(n))
  {
    var targets := if n.Assign? then n.targets else [n.target];
    var v := AssignedValue(n);
    var ann := if n.AnnAssign? && owner && !postponed then [n.declared] else [];
    if n.Assign? {
      IdentifiersAppend(n.targets, [v]);
    } else {
      assert Children(n) == [n.target] + ([n.declared] + [v]);
      IdentifiersAppend([n.target], [n.declared] + [v]);
      IdentifiersAppend([n.declared], [v]);
    }
    assert [v][0] == v;
    IdentifiersAppend(targets, Children(v));
    IdentifiersAppend(targets + Children(v), ann);
    LineNamePlain(n.line);
  }

  lemma {:induction false} VisitNodeDistinct(n: Ast, scope: seq<string>, owner: bool, postponed: bool, st: Inventory)
    requires Identifiers(n) && PlainScope(scope) && Distinct(st)
    ensures Distinct(VisitNode(n, scope, owner, postponed, st))
    decreases Size(n), 0
  {
    hide Distinct, Identifiers, IdentifiersAll, RecordIn, Children, Size, SizeAll, Plain;
    IdentifiersHere(n);
    SizeChildren(n);
    if n.FunctionDef? || n.ClassDef? {
      SizeDefinition(n, postponed);
      DefinitionIdentifiers(n, postponed);
      var inner := scope + [n.name];
      var s1 := RecordIn(st, scope, n.name, n);
      RecordDistinct(st, scope, n.name, n);
      VisitAllDistinct(Parameters(n, postponed), inner, false, postponed, s1);
      var s2 := VisitAll(Parameters(n, postponed), inner, false, postponed, s1);
      VisitAllDistinct(Surroundings(n, postponed), inner, false, postponed, s2);
      var s3 := VisitAll(Surroundings(n, postponed), inner, false, postponed, s2);
      VisitAllDistinct(n.body, inner, n.ClassDef?, postponed, s3);
    } else if AssignsLambda(n) {
      SizeBesideLambda(n, postponed, owner);
      AssignedIdentifiers(n, postponed, owner);
      RecordDistinct(st, scope, AssignedName(n), AssignedValue(n));
      VisitAllDistinct(BesideLambda(n, postponed, owner), scope, owner, postponed,
                       RecordIn(st, scope, AssignedName(n), AssignedValue(n)));
    } else if n.Lambda? {
      LineNamePlain(n.line);
      RecordDistinct(st, scope, LineName(n.line), n);
      VisitAllDistinct(Children(n), scope, owner, postponed, RecordIn(st, scope, LineName(n.line), n));
    } else if n.AnnAssign? && (postponed || !owner) {
      SizeUnannotated(n);
      VisitAllDistinct(Unannotated(n), scope, owner, postponed, st);
    } else {
      VisitAllDistinct(Children(n), scope, owner, postponed, st);
    }
  }

  lemma IdentifiersHere(n: Ast)
    requires Identifiers(n)
    ensures IdentifiersAll(Children(n))
    ensures n.FunctionDef? || n.ClassDef? ==> Plain(n.name)
    ensures n.AnnAssign? ==> IdentifiersAll(Unannotated(n))
  {
    if n.AnnAssign? {
      assert Children(n) == [n.target] + ([n.declared] + Given(n.initial));
      IdentifiersAppend([n.target], [n.declared] + Given(n.initial));
      IdentifiersAppend([n.declared], Given(n.initial));
      IdentifiersAppend([n.target], Given(n.initial));
    }
  }

  lemma {:induction false} VisitAllDistinct(ns: seq<Ast>, scope: seq<string>, owner: bool, postponed: bool,
      st: Inventory)
    requires IdentifiersAll(ns) && PlainScope(scope) && Distinct(st)
    ensures Distinct(VisitAll(ns, scope, owner, postponed, st))
    decreases SizeAll(ns), 1
  {
    hide Distinct, Identifiers;
    if ns != [] {
      VisitNodeDistinct(ns[0], scope, owner, postponed, st);
      VisitAllDistinct(ns[1..], scope, owner, postponed, VisitNode(ns[0], scope, owner, postponed, st));
    }
  }

  lemma KeyInjective(f: Found, g: Found)
    requires Plain(f.qualified) && Plain(g.qualified) && Key(f) == Key(g)
    ensures f.qualified == g.qualified && f.ordinal == g.ordinal
  {
    var df, dg := Decimal.Print(f.ordinal), Decimal.Print(g.ordinal);
    if f.qualified + "#" + df == g.qualified + "#" + dg {
      FirstDelimiter(f.qualified, df, g.qualified, dg, '#');
    }
    assert '#' in f.qualified + "#" + df && '#' in g.qualified + "#" + dg;
    if f.ordinal != 1 && g.ordinal != 1 {
      Decimal.ParsePrint(f.ordinal);
      Decimal.ParsePrint(g.ordinal);
    }
  }

  lemma NotModule(f: Found)
    requires Plain(f.qualified)
    ensures '<' !in Key(f)
  {
    assert forall c :: c in Decimal.Print(f.ordinal) ==> Decimal.IsDigit(c);
    assert forall c :: c in f.qualified + "#" ==> c != '<';
  }

  lemma EmptyDistinct()
    ensures Distinct(EMPTY)
  {
  }

  lemma EntriesApart(st: Inventory, i: nat, j: nat)
    requires Distinct(st) && i < j < |st.found|
    ensures Key(st.found[i]) != Key(st.found[j])
  {
    assert st.found[i].qualified != st.found[j].qualified || st.found[i].ordinal != st.found[j].ordinal;
    if Key(st.found[i]) == Key(st.found[j]) { KeyInjective(st.found[i], st.found[j]); }
  }

  lemma ModuleApart(st: Inventory, j: nat)
    requires Distinct(st) && j < |st.found|
    ensures Key(st.found[j]) != "<module>"
  {
    NotModule(st.found[j]);
    assert "<module>"[0] == '<';
  }

  /** Keyed by these names, the measurements of no two scopes overwrite each other. */
  lemma ScopeKeysDistinct(tree: seq<Ast>, postponed: bool, i: nat, j: nat)
    requires IdentifiersAll(tree) && i < j <= |Inventoried(tree, postponed)|
    ensures Listing(tree, Inventoried(tree, postponed))[i].0 != Listing(tree, Inventoried(tree, postponed))[j].0
  {
    hide VisitAll, IdentifiersAll, Key, Distinct, Listing;
    EmptyDistinct();
    VisitAllDistinct(tree, [], true, postponed, EMPTY);
    var st := VisitAll(tree, [], true, postponed, EMPTY);
    if i > 0 { EntriesApart(st, i - 1, j - 1); } else { ModuleApart(st, j - 1); }
  }
}
