/** The keys of a small module, as `scopes` (scripts/check_python_quality.py) lists them. */
module PythonScopeSample {

  import opened Wrappers
  import opened Dotted
  import opened PythonAst
  import opened PythonScopes
  import Decimal

  const NO_ARGUMENTS: Ast := Arguments([], [], None, [], [], None, [])
  const LEAF: Ast := Node(Plain, 0, [])

  function Def(name: string, body: seq<Ast>): Ast { FunctionDef(name, NO_ARGUMENTS, body, [], None) }

  const NAMED: Ast := Lambda(NO_ARGUMENTS, LEAF, 7)
  const DECLARED: Ast := Lambda(NO_ARGUMENTS, LEAF, 8)
  const UNNAMED: Ast := Lambda(NO_ARGUMENTS, LEAF, 9)

  /** A function with one inside, a class with a method, the function again, two named lambdas, one of
      them declared, and one without a name. */
  const SAMPLE: seq<Ast> := [
    Def("f", [Def("g", [])]),
    ClassDef("C", [], [], [Def("f", [])], []),
    Def("f", []),
    Assign([Node(Name("h"), 0, [])], NAMED, 7),
    AnnAssign(Node(Name("k"), 0, []), LEAF, Some(DECLARED), 8),
    Node(Plain, 1, [UNNAMED])]

  function Keys(listing: seq<(string, Ast)>): (r: seq<string>)
    ensures |r| == |listing| && forall i :: 0 <= i < |r| ==> r[i] == listing[i].0
  {
    seq(|listing|, i requires 0 <= i < |listing| => listing[i].0)
  }

  // ----- Visiting node by node ---------------------------------------------

  lemma VisitNothing(scope: seq<string>, owner: bool, postponed: bool, st: Inventory)
    ensures VisitAll([], scope, owner, postponed, st) == st
  {
  }

  lemma VisitFirst(ns: seq<Ast>, scope: seq<string>, owner: bool, postponed: bool, st: Inventory)
    requires ns != []
    ensures VisitAll(ns, scope, owner, postponed, st)
         == VisitAll(ns[1..], scope, owner, postponed, VisitNode(ns[0], scope, owner, postponed, st))
  {
    hide VisitNode;
  }

  lemma VisitDef(name: string, body: seq<Ast>, scope: seq<string>, owner: bool, postponed: bool, st: Inventory)
    ensures VisitNode(Def(name, body), scope, owner, postponed, st)
         == VisitAll(body, scope + [name], false, postponed, RecordIn(st, scope, name, Def(name, body)))
  {
    hide RecordIn;
    var s1 := RecordIn(st, scope, name, Def(name, body));
    VisitNothing(scope + [name], false, postponed, s1);
    assert Parameters(Def(name, body), postponed) == [];
    assert Surroundings(Def(name, body), postponed) == [];
  }

  lemma VisitClass(name: string, body: seq<Ast>, scope: seq<string>, owner: bool, postponed: bool, st: Inventory)
    ensures VisitNode(ClassDef(name, [], [], body, []), scope, owner, postponed, st)
         == VisitAll(body, scope + [name], true, postponed,
                     RecordIn(st, scope, name, ClassDef(name, [], [], body, [])))
  {
    hide RecordIn;
    var n := ClassDef(name, [], [], body, []);
    var s1 := RecordIn(st, scope, name, n);
    VisitNothing(scope + [name], false, postponed, s1);
    assert Parameters(n, postponed) == [] && Surroundings(n, postponed) == [];
  }

  lemma VisitPlain(n: Ast, scope: seq<string>, owner: bool, postponed: bool, st: Inventory)
    requires n.Node? || n.Arguments?
    ensures VisitNode(n, scope, owner, postponed, st) == VisitAll(Children(n), scope, owner, postponed, st)
  {
  }

  /** Nothing below adds a scope. */
  predicate Leaf(n: Ast) { n == NO_ARGUMENTS || (n.Node? && n.children == []) }

  lemma {:induction false} VisitLeaves(ns: seq<Ast>, owner: bool, postponed: bool, st: Inventory)
    requires forall i :: 0 <= i < |ns| ==> Leaf(ns[i])
    ensures VisitAll(ns, [], owner, postponed, st) == st
  {
    hide VisitAll, VisitNode;
    if ns == [] {
      VisitNothing([], owner, postponed, st);
    } else {
      VisitFirst(ns, [], owner, postponed, st);
      VisitPlain(ns[0], [], owner, postponed, st);
      assert Children(ns[0]) == [];
      VisitNothing([], owner, postponed, st);
      VisitLeaves(ns[1..], owner, postponed, st);
    }
  }

  lemma VisitNamed(postponed: bool, st: Inventory)
    ensures VisitNode(SAMPLE[3], [], true, postponed, st) == RecordIn(st, [], "h", NAMED)
  {
    hide VisitAll, RecordIn;
    var n := SAMPLE[3];
    assert BesideLambda(n, postponed, true) == [Node(Name("h"), 0, []), NO_ARGUMENTS, LEAF];
    VisitLeaves([Node(Name("h"), 0, []), NO_ARGUMENTS, LEAF], true, postponed, RecordIn(st, [], "h", NAMED));
    assert AssignedName(n) == "h" && AssignedValue(n) == NAMED;
  }

  lemma VisitDeclared(postponed: bool, st: Inventory)
    ensures VisitNode(SAMPLE[4], [], true, postponed, st) == RecordIn(st, [], "k", DECLARED)
  {
    hide VisitAll, RecordIn;
    var n := SAMPLE[4];
    var beside := [Node(Name("k"), 0, []), NO_ARGUMENTS, LEAF] + if postponed then [] else [LEAF];
    assert BesideLambda(n, postponed, true) == beside;
    VisitLeaves(beside, true, postponed, RecordIn(st, [], "k", DECLARED));
    assert AssignedName(n) == "k" && AssignedValue(n) == DECLARED;
  }

  lemma VisitUnnamed(postponed: bool, st: Inventory)
    ensures VisitNode(SAMPLE[5], [], true, postponed, st) == RecordIn(st, [], "lambda@9", UNNAMED)
  {
    hide VisitAll, RecordIn;
    VisitPlain(SAMPLE[5], [], true, postponed, st);
    VisitFirst([UNNAMED], [], true, postponed, st);
    assert [UNNAMED][1..] == [];
    var s1 := RecordIn(st, [], "lambda@9", UNNAMED);
    assert LineName(9) == "lambda@9" by { assert Decimal.Print(9) == "9"; }
    VisitLeaves([NO_ARGUMENTS, LEAF], true, postponed, s1);
    assert VisitNode(UNNAMED, [], true, postponed, st) == VisitAll(Children(UNNAMED), [], true, postponed, s1);
    assert Children(UNNAMED) == [NO_ARGUMENTS, LEAF];
    VisitNothing([], true, postponed, s1);
  }

  // ----- The listing -------------------------------------------------------

  /** A scope whose dotted path is new. */
  lemma NewScope(st: Inventory, scope: seq<string>, name: string, node: Ast, path: string)
    requires Join(scope + [name]) == path && path !in st.seen
    ensures RecordIn(st, scope, name, node) == Inventory(st.found + [Found(path, 1, node)], st.seen[path := 1])
  {
  }

  lemma Paths()
    ensures Join([] + ["f"]) == "f" && Join([] + ["C"]) == "C" && Join([] + ["h"]) == "h"
    ensures Join([] + ["k"]) == "k"
    ensures Join([] + ["lambda@9"]) == "lambda@9"
    ensures Join(["f"] + ["g"]) == "f.g" && Join(["C"] + ["f"]) == "C.f"
  {
    assert [] + ["f"] == ["f"] && [] + ["C"] == ["C"] && [] + ["h"] == ["h"] && [] + ["lambda@9"] == ["lambda@9"];
    assert [] + ["k"] == ["k"];
    assert ["f"] + ["g"] == ["f", "g"] && ["C"] + ["f"] == ["C", "f"];
    assert ["f", "g"][1..] == ["g"] && ["C", "f"][1..] == ["f"];
  }

  lemma FirstTwo(postponed: bool)
    ensures var s := VisitNode(SAMPLE[1], [], true, postponed, VisitNode(SAMPLE[0], [], true, postponed, EMPTY));
      && s.found == [Found("f", 1, SAMPLE[0]), Found("f.g", 1, Def("g", [])), Found("C", 1, SAMPLE[1]),
                     Found("C.f", 1, Def("f", []))]
      && s.seen == map["f" := 1, "f.g" := 1, "C" := 1, "C.f" := 1]
  {
    hide VisitAll, VisitNode, RecordIn, Join;
    var g, m := Def("g", []), Def("f", []);
    Paths();
    VisitDef("f", [g], [], true, postponed, EMPTY);
    var s1 := RecordIn(EMPTY, [], "f", SAMPLE[0]);
    NewScope(EMPTY, [], "f", SAMPLE[0], "f");
    InF(g, postponed, s1);
    var s2 := RecordIn(s1, ["f"], "g", g);
    NewScope(s1, ["f"], "g", g, "f.g");
    VisitClass("C", [m], [], true, postponed, s2);
    var s3 := RecordIn(s2, [], "C", SAMPLE[1]);
    NewScope(s2, [], "C", SAMPLE[1], "C");
    InC(m, postponed, s3);
    NewScope(s3, ["C"], "f", m, "C.f");
  }

  lemma InF(g: Ast, postponed: bool, st: Inventory)
    requires g == Def("g", [])
    ensures VisitAll([g], [] + ["f"], false, postponed, st) == RecordIn(st, ["f"], "g", g)
  {
    hide VisitAll, VisitNode, RecordIn;
    assert [] + ["f"] == ["f"];
    VisitOne(g, ["f"], false, postponed, st);
    VisitDef("g", [], ["f"], false, postponed, st);
    VisitNothing(["f"] + ["g"], false, postponed, RecordIn(st, ["f"], "g", g));
  }

  lemma InC(m: Ast, postponed: bool, st: Inventory)
    requires m == Def("f", [])
    ensures VisitAll([m], [] + ["C"], true, postponed, st) == RecordIn(st, ["C"], "f", m)
  {
    hide VisitAll, VisitNode, RecordIn;
    assert [] + ["C"] == ["C"];
    VisitOne(m, ["C"], true, postponed, st);
    VisitDef("f", [], ["C"], true, postponed, st);
    VisitNothing(["C"] + ["f"], false, postponed, RecordIn(st, ["C"], "f", m));
  }

  lemma VisitOne(n: Ast, scope: seq<string>, owner: bool, postponed: bool, st: Inventory)
    ensures VisitAll([n], scope, owner, postponed, st) == VisitNode(n, scope, owner, postponed, st)
  {
    hide VisitAll, VisitNode;
    VisitFirst([n], scope, owner, postponed, st);
    assert [n][1..] == [];
    VisitNothing(scope, owner, postponed, VisitNode(n, scope, owner, postponed, st));
  }

  /** Dotted paths, an ordinal for the second `f`, the name or the line of a lambda. */
  lemma SampleKeys(postponed: bool)
    ensures Keys(Listing(SAMPLE, Inventoried(SAMPLE, postponed)))
         == ["<module>", "f", "f.g", "C", "C.f", "f#2", "h", "k", "lambda@9"]
  {
    hide VisitAll, VisitNode, RecordIn;
    FirstTwo(postponed);
    var s2 := VisitNode(SAMPLE[1], [], true, postponed, VisitNode(SAMPLE[0], [], true, postponed, EMPTY));
    VisitDef("f", [], [], true, postponed, s2);
    var s3 := RecordIn(s2, [], "f", SAMPLE[2]);
    VisitNothing([] + ["f"], false, postponed, s3);
    VisitNamed(postponed, s3);
    var s4 := RecordIn(s3, [], "h", NAMED);
    VisitDeclared(postponed, s4);
    var s5 := RecordIn(s4, [], "k", DECLARED);
    VisitUnnamed(postponed, s5);
    VisitSix(postponed, s2, s3, s4, s5, RecordIn(s5, [], "lambda@9", UNNAMED));
    LastFour(s2, s3, s4, s5);
    SampleListing(RecordIn(s5, [], "lambda@9", UNNAMED).found);
  }

  lemma SampleListing(found: seq<Found>)
    requires |found| == 8 && found[0].qualified == "f" && found[1].qualified == "f.g" && found[2].qualified == "C"
    requires found[3].qualified == "C.f" && found[4].qualified == "f" && found[5].qualified == "h"
    requires found[6].qualified == "k" && found[7].qualified == "lambda@9"
    requires forall i :: 0 <= i < 8 ==> found[i].ordinal == if i == 4 then 2 else 1
    ensures Keys(Listing(SAMPLE, found)) == ["<module>", "f", "f.g", "C", "C.f", "f#2", "h", "k", "lambda@9"]
  {
    assert Decimal.Print(2) == "2";
    assert Key(found[4]) == "f#2";
  }

  lemma VisitSix(postponed: bool, s2: Inventory, s3: Inventory, s4: Inventory, s5: Inventory, s6: Inventory)
    requires s2 == VisitNode(SAMPLE[1], [], true, postponed, VisitNode(SAMPLE[0], [], true, postponed, EMPTY))
    requires s3 == VisitNode(SAMPLE[2], [], true, postponed, s2)
    requires s4 == VisitNode(SAMPLE[3], [], true, postponed, s3)
    requires s5 == VisitNode(SAMPLE[4], [], true, postponed, s4)
    requires s6 == VisitNode(SAMPLE[5], [], true, postponed, s5)
    ensures VisitAll(SAMPLE, [], true, postponed, EMPTY) == s6
  {
    hide VisitAll, VisitNode;
    VisitFrom(0, postponed, EMPTY);
    VisitFrom(1, postponed, VisitNode(SAMPLE[0], [], true, postponed, EMPTY));
    VisitFrom(2, postponed, s2);
    VisitFrom(3, postponed, s3);
    VisitFrom(4, postponed, s4);
    VisitFrom(5, postponed, s5);
    VisitNothing([], true, postponed, s6);
    assert SAMPLE[0..] == SAMPLE && SAMPLE[6..] == [];
  }

  lemma VisitFrom(k: nat, postponed: bool, st: Inventory)
    requires k < 6
    ensures VisitAll(SAMPLE[k..], [], true, postponed, st)
         == VisitAll(SAMPLE[k + 1..], [], true, postponed, VisitNode(SAMPLE[k], [], true, postponed, st))
  {
    hide VisitAll, VisitNode;
    VisitFirst(SAMPLE[k..], [], true, postponed, st);
    assert SAMPLE[k..][1..] == SAMPLE[k + 1..];
  }

  lemma LastFour(s2: Inventory, s3: Inventory, s4: Inventory, s5: Inventory)
    requires |s2.found| == 4 && s2.seen == map["f" := 1, "f.g" := 1, "C" := 1, "C.f" := 1]
    requires s3 == RecordIn(s2, [], "f", SAMPLE[2]) && s4 == RecordIn(s3, [], "h", NAMED)
    requires s5 == RecordIn(s4, [], "k", DECLARED)
    ensures RecordIn(s5, [], "lambda@9", UNNAMED).found
         == s2.found + [Found("f", 2, SAMPLE[2]), Found("h", 1, NAMED), Found("k", 1, DECLARED),
                        Found("lambda@9", 1, UNNAMED)]
  {
    hide Join;
    Paths();
    assert s3 == Inventory(s2.found + [Found("f", 2, SAMPLE[2])], s2.seen["f" := 2]);
    hide RecordIn;
    NewScope(s3, [], "h", NAMED, "h");
    NewScope(s4, [], "k", DECLARED, "k");
    NewScope(s5, [], "lambda@9", UNNAMED, "lambda@9");
  }
}
