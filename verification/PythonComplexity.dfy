/**
  * What the number `complexity` (scripts/check_python_quality.py) means: each construct
  * counts like the branches it stands for, and a scope without any has complexity one.
  */
module PythonComplexity {

  import opened Sequences
  import opened Wrappers
  import opened PythonAst
  import opened PythonScopes
  import opened PythonScopesPartition

  // ----- A scope with nodes in its body ------------------------------------

  /** The scope with this body. */
  function Holding(scope: Ast, body: seq<Ast>): Ast
    requires scope.Module? || scope.FunctionDef? || scope.ClassDef?
  {
    scope.(body := body)
  }

  /** The complexity of a scope whose body holds `middle` between `front` and `back`. */
  function Measured(scope: Ast, front: seq<Ast>, middle: seq<Ast>, back: seq<Ast>, postponed: bool): int
    requires scope.Module? || scope.FunctionDef? || scope.ClassDef?
  {
    ComplexityOf(Holding(scope, front + middle + back), postponed)
  }

  function Share(ns: seq<Ast>, postponed: bool, inFunction: bool): int {
    Sum(Decisions, OwnAll(ns, postponed, inFunction))
  }

  lemma ShareAppend(a: seq<Ast>, b: seq<Ast>, postponed: bool, inFunction: bool)
    ensures Share(a + b, postponed, inFunction)
         == Share(a, postponed, inFunction) + Share(b, postponed, inFunction)
  {
    hide Sum, OwnAll;
    OwnAppend(a, b, postponed, inFunction);
    SumAppend(Decisions, OwnAll(b, postponed, inFunction), OwnAll(a, postponed, inFunction));
  }

  lemma MeasuredIs(scope: Ast, front: seq<Ast>, middle: seq<Ast>, back: seq<Ast>, postponed: bool)
    requires scope.Module? || scope.FunctionDef? || scope.ClassDef?
    ensures Measured(scope, front, middle, back, postponed)
         == 1 + Share(front, postponed, IsFunction(scope)) + Share(middle, postponed, IsFunction(scope))
            + Share(back, postponed, IsFunction(scope))
  {
    hide Sum, OwnAll, Share;
    ShareAppend(front + middle, back, postponed, IsFunction(scope));
    ShareAppend(front, middle, postponed, IsFunction(scope));
    BodyShare(scope, front + middle + back, postponed);
  }

  lemma BodyShare(scope: Ast, body: seq<Ast>, postponed: bool)
    requires scope.Module? || scope.FunctionDef? || scope.ClassDef?
    ensures ComplexityOf(Holding(scope, body), postponed) == 1 + Share(body, postponed, IsFunction(scope))
  {
    hide Sum, OwnAll;
  }

  /** A node's share is its own, then its children's. */
  lemma NodeShare(kind: Kind, id: nat, kids: seq<Ast>, postponed: bool, inFunction: bool)
    ensures Share([Node(kind, id, kids)], postponed, inFunction)
         == Decisions(Node(kind, id, kids)) + Share(kids, postponed, inFunction)
  {
    hide Decisions;
    var n := Node(kind, id, kids);
    OwnSingle(n, postponed, inFunction);
    assert Own(n, postponed, inFunction) == [n] + OwnAll(kids, postponed, inFunction);
    SumAppend(Decisions, [n], OwnAll(kids, postponed, inFunction));
    assert Sum(Decisions, [n]) == Decisions(n) by { assert [n][1..] == []; }
  }

  lemma NoShare(postponed: bool, inFunction: bool)
    ensures Share([], postponed, inFunction) == 0
  {
  }

  lemma TwoShares(a: Ast, b: Ast, postponed: bool, inFunction: bool)
    ensures Share([a, b], postponed, inFunction)
         == Share([a], postponed, inFunction) + Share([b], postponed, inFunction)
  {
    hide Share;
    assert [a, b] == [a] + [b];
    ShareAppend([a], [b], postponed, inFunction);
  }

  // ----- Nodes that count nothing ------------------------------------------

  /** A node of none of the kinds that decide. */
  predicate Undecided(n: Ast) {
    n.Node? ==>
      n.kind != Branch && n.kind != BoolOp && n.kind != Compare && n.kind != Comprehension && n.kind != Kind.Match
  }

  /** A scope that owns no such node has complexity one. */
  lemma NothingDecided(scope: Ast, postponed: bool)
    requires forall n :: n in OwnedBy(scope, postponed) ==> Undecided(n)
    ensures ComplexityOf(scope, postponed) == 1
  {
    hide OwnedBy;
    ZeroSum(OwnedBy(scope, postponed));
  }

  lemma {:induction false} ZeroSum(ns: seq<Ast>)
    requires forall n :: n in ns ==> Undecided(n)
    ensures Sum(Decisions, ns) == 0
  {
    if ns != [] {
      assert ns[0] in ns;
      ZeroSum(ns[1..]);
    }
  }

  // ----- Branches ----------------------------------------------------------

  /** One more branch around nodes of the body adds one. */
  lemma BranchAddsOne(scope: Ast, front: seq<Ast>, id: nat, kids: seq<Ast>, back: seq<Ast>, postponed: bool)
    requires scope.Module? || scope.FunctionDef? || scope.ClassDef?
    ensures Measured(scope, front, [Node(Branch, id, kids)], back, postponed)
         == Measured(scope, front, kids, back, postponed) + 1
  {
    hide Share, Measured;
    MeasuredIs(scope, front, [Node(Branch, id, kids)], back, postponed);
    MeasuredIs(scope, front, kids, back, postponed);
    NodeShare(Branch, id, kids, postponed, IsFunction(scope));
  }

  /** A node of no deciding kind around nodes of the body adds nothing. */
  lemma OthersAddNothing(scope: Ast, front: seq<Ast>, kind: Kind, id: nat, kids: seq<Ast>, back: seq<Ast>,
                         postponed: bool)
    requires scope.Module? || scope.FunctionDef? || scope.ClassDef?
    requires Undecided(Node(kind, id, kids))
    ensures Measured(scope, front, [Node(kind, id, kids)], back, postponed)
         == Measured(scope, front, kids, back, postponed)
  {
    hide Share, Measured;
    MeasuredIs(scope, front, [Node(kind, id, kids)], back, postponed);
    MeasuredIs(scope, front, kids, back, postponed);
    NodeShare(kind, id, kids, postponed, IsFunction(scope));
  }

  // ----- Boolean operators and comparisons ---------------------------------

  /** `a and b` counts like a branch on `a`; a longer operator like its nested two-valued form. */
  lemma BoolOpNests(scope: Ast, front: seq<Ast>, id: nat, values: seq<Ast>, back: seq<Ast>, postponed: bool)
    requires scope.Module? || scope.FunctionDef? || scope.ClassDef?
    requires |values| >= 2
    ensures |values| == 2 ==>
              Measured(scope, front, [Node(BoolOp, id, values)], back, postponed)
              == Measured(scope, front, [Node(Branch, id, values)], back, postponed)
    ensures |values| > 2 ==>
              Measured(scope, front, [Node(BoolOp, id, values)], back, postponed)
              == Measured(scope, front, [Node(BoolOp, id, [values[0], Node(BoolOp, id, values[1..])])], back, postponed)
  {
    hide Share, Measured;
    var inner := Node(BoolOp, id, values[1..]);
    MeasuredIs(scope, front, [Node(BoolOp, id, values)], back, postponed);
    MeasuredIs(scope, front, [Node(Branch, id, values)], back, postponed);
    MeasuredIs(scope, front, [Node(BoolOp, id, [values[0], inner])], back, postponed);
    NodeShare(BoolOp, id, values, postponed, IsFunction(scope));
    NodeShare(Branch, id, values, postponed, IsFunction(scope));
    NodeShare(BoolOp, id, [values[0], inner], postponed, IsFunction(scope));
    NodeShare(BoolOp, id, values[1..], postponed, IsFunction(scope));
    TwoShares(values[0], inner, postponed, IsFunction(scope));
    assert values == [values[0]] + values[1..];
    ShareAppend([values[0]], values[1..], postponed, IsFunction(scope));
  }

  /** `a < b` counts nothing; `a < b < c …` counts like `a < b and b < c …`, where the second
      `b` is a name for the value already computed. */
  lemma ChainIsConjunction(scope: Ast, front: seq<Ast>, id: nat, operands: seq<Ast>, b: string, back: seq<Ast>,
                           postponed: bool)
    requires scope.Module? || scope.FunctionDef? || scope.ClassDef?
    requires |operands| >= 2
    ensures |operands| == 2 ==>
              Measured(scope, front, [Node(Compare, id, operands)], back, postponed)
              == Measured(scope, front, operands, back, postponed)
    ensures |operands| > 2 ==>
              Measured(scope, front, [Node(Compare, id, operands)], back, postponed)
              == Measured(scope, front,
                          [Node(BoolOp, id, [Node(Compare, id, operands[..2]),
                                             Node(Compare, id, [Node(Name(b), id, [])] + operands[2..])])],
                          back, postponed)
  {
    hide Share, Measured;
    var inFunction := IsFunction(scope);
    var name := Node(Name(b), id, []);
    var first, second := Node(Compare, id, operands[..2]), Node(Compare, id, [name] + operands[2..]);
    MeasuredIs(scope, front, [Node(Compare, id, operands)], back, postponed);
    MeasuredIs(scope, front, operands, back, postponed);
    MeasuredIs(scope, front, [Node(BoolOp, id, [first, second])], back, postponed);
    NodeShare(Compare, id, operands, postponed, inFunction);
    NodeShare(BoolOp, id, [first, second], postponed, inFunction);
    TwoShares(first, second, postponed, inFunction);
    NodeShare(Compare, id, operands[..2], postponed, inFunction);
    NodeShare(Compare, id, [name] + operands[2..], postponed, inFunction);
    NodeShare(Name(b), id, [], postponed, inFunction);
    NoShare(postponed, inFunction);
    ShareAppend([name], operands[2..], postponed, inFunction);
    assert operands == operands[..2] + operands[2..];
    ShareAppend(operands[..2], operands[2..], postponed, inFunction);
  }

  // ----- Comprehensions ----------------------------------------------------

  /** Each condition as a branch of its own. */
  function Tested(id: nat, conditions: seq<Ast>): (r: seq<Ast>)
    ensures |r| == |conditions|
  {
    if conditions == [] then [] else [Node(Branch, id, [conditions[0]])] + Tested(id, conditions[1..])
  }

  lemma {:induction false} TestedShare(id: nat, conditions: seq<Ast>, postponed: bool, inFunction: bool)
    ensures Share(Tested(id, conditions), postponed, inFunction)
         == |conditions| + Share(conditions, postponed, inFunction)
  {
    hide Share;
    if conditions == [] {
      NoShare(postponed, inFunction);
    } else {
      TestedShare(id, conditions[1..], postponed, inFunction);
      NodeShare(Branch, id, [conditions[0]], postponed, inFunction);
      ShareAppend([Node(Branch, id, [conditions[0]])], Tested(id, conditions[1..]), postponed, inFunction);
      assert conditions == [conditions[0]] + conditions[1..];
      ShareAppend([conditions[0]], conditions[1..], postponed, inFunction);
    }
  }

  /** A comprehension counts like the loop over its iterable with a branch for each condition. */
  lemma ComprehensionIsLoop(scope: Ast, front: seq<Ast>, id: nat, target: Ast, iterable: Ast, conditions: seq<Ast>,
                            back: seq<Ast>, postponed: bool)
    requires scope.Module? || scope.FunctionDef? || scope.ClassDef?
    ensures Measured(scope, front, [Node(Comprehension, id, [target, iterable] + conditions)], back, postponed)
         == Measured(scope, front, [Node(Branch, id, [target, iterable] + Tested(id, conditions))], back, postponed)
  {
    hide Share, Measured;
    var inFunction := IsFunction(scope);
    var head := [target, iterable];
    MeasuredIs(scope, front, [Node(Comprehension, id, head + conditions)], back, postponed);
    MeasuredIs(scope, front, [Node(Branch, id, head + Tested(id, conditions))], back, postponed);
    NodeShare(Comprehension, id, head + conditions, postponed, inFunction);
    NodeShare(Branch, id, head + Tested(id, conditions), postponed, inFunction);
    ShareAppend(head, conditions, postponed, inFunction);
    ShareAppend(head, Tested(id, conditions), postponed, inFunction);
    TestedShare(id, conditions, postponed, inFunction);
  }

  // ----- Match statements --------------------------------------------------

  /** Whether a value matches, when `verdict` says which of the other patterns it matches. */
  predicate Accepts(pattern: Ast, verdict: Ast -> bool) {
    match pattern
    case Node(MatchAs, _, parts) => parts == [] || Accepts(parts[0], verdict)
    case Node(MatchOr, _, parts) => exists i :: 0 <= i < |parts| && Accepts(parts[i], verdict)
    case _ => verdict(pattern)
  }

  /** A pattern cannot fall through exactly when it accepts whatever the others say. */
  lemma IrrefutableExactly(pattern: Ast)
    ensures Irrefutable(pattern) <==> forall verdict :: Accepts(pattern, verdict)
  {
    if Irrefutable(pattern) {
      forall verdict: Ast -> bool ensures Accepts(pattern, verdict) { AlwaysAccepts(pattern, verdict); }
    } else {
      NotAccepted(pattern);
    }
  }

  lemma {:induction false} AlwaysAccepts(pattern: Ast, verdict: Ast -> bool)
    requires Irrefutable(pattern)
    ensures Accepts(pattern, verdict)
  {
    match pattern {
      case Node(MatchAs, _, parts) => if parts != [] { AlwaysAccepts(parts[0], verdict); }
      case Node(MatchOr, _, parts) =>
        var i :| 0 <= i < |parts| && Irrefutable(parts[i]);
        AlwaysAccepts(parts[i], verdict);
      case _ =>
    }
  }

  lemma {:induction false} NotAccepted(pattern: Ast)
    requires !Irrefutable(pattern)
    ensures !Accepts(pattern, _ => false)
  {
    match pattern {
      case Node(MatchAs, _, parts) => NotAccepted(parts[0]);
      case Node(MatchOr, _, parts) =>
        forall i | 0 <= i < |parts| ensures !Accepts(parts[i], _ => false) { NotAccepted(parts[i]); }
      case _ =>
    }
  }

  /** Bars written in an or-pattern. */
  function Bars(n: Ast): int { if n.Node? && n.kind == MatchOr then |n.children| - 1 else 0 }

  lemma {:induction false} AlternativesAreBars(pattern: Ast)
    ensures Alternatives(pattern) == Walk(Bars, pattern)
    decreases Size(pattern), 0
  {
    SizeChildren(pattern);
    AllAlternativesAreBars(Children(pattern));
  }

  lemma {:induction false} AllAlternativesAreBars(ns: seq<Ast>)
    ensures AlternativesAll(ns) == WalkAll(Bars, ns)
    decreases SizeAll(ns), 1
  {
    if ns != [] {
      AlternativesAreBars(ns[0]);
      AllAlternativesAreBars(ns[1..]);
    }
  }

  lemma {:induction false} CasesAppend(a: seq<Ast>, c: Ast)
    ensures CasesDecisions(a + [c]) == CasesDecisions(a) + CaseDecisions(c)
  {
    hide CaseDecisions;
    if a == [] {
      assert [] + [c] == [c];
    } else {
      assert (a + [c])[1..] == a[1..] + [c];
      CasesAppend(a[1..], c);
    }
  }

  /**
    * A match without cases counts nothing. One more case adds one if its pattern can fall
    * through, one for its guard, and one for each bar of its or-patterns.
    */
  lemma CaseCounts(scope: Ast, front: seq<Ast>, id: nat, subject: Ast, cases: seq<Ast>,
                   guarded: bool, caseId: nat, pattern: Ast, rest: seq<Ast>, back: seq<Ast>, postponed: bool)
    requires scope.Module? || scope.FunctionDef? || scope.ClassDef?
    ensures Measured(scope, front, [Node(Kind.Match, id, [subject])], back, postponed)
         == Measured(scope, front, [subject], back, postponed)
    ensures var c := Node(MatchCase(guarded), caseId, [pattern] + rest);
            Measured(scope, front, [Node(Kind.Match, id, [subject] + (cases + [c]))], back, postponed)
            == Measured(scope, front, [Node(Kind.Match, id, [subject] + cases)] + [c], back, postponed)
               + (if exists verdict :: !Accepts(pattern, verdict) then 1 else 0)
               + Walk(Bars, pattern) + (if guarded then 1 else 0)
  {
    hide Share, Measured, Accepts, Irrefutable, Walk, Alternatives;
    var inFunction := IsFunction(scope);
    var c := Node(MatchCase(guarded), caseId, [pattern] + rest);
    MeasuredIs(scope, front, [Node(Kind.Match, id, [subject])], back, postponed);
    MeasuredIs(scope, front, [subject], back, postponed);
    NodeShare(Kind.Match, id, [subject], postponed, inFunction);
    assert [subject][1..] == [];
    MeasuredIs(scope, front, [Node(Kind.Match, id, [subject] + (cases + [c]))], back, postponed);
    MeasuredIs(scope, front, [Node(Kind.Match, id, [subject] + cases)] + [c], back, postponed);
    NodeShare(Kind.Match, id, [subject] + (cases + [c]), postponed, inFunction);
    NodeShare(Kind.Match, id, [subject] + cases, postponed, inFunction);
    assert ([subject] + (cases + [c]))[1..] == cases + [c] && ([subject] + cases)[1..] == cases;
    ShareAppend([subject], cases + [c], postponed, inFunction);
    ShareAppend([subject], cases, postponed, inFunction);
    ShareAppend(cases, [c], postponed, inFunction);
    ShareAppend([Node(Kind.Match, id, [subject] + cases)], [c], postponed, inFunction);
    CasesAppend(cases, c);
    IrrefutableExactly(pattern);
    AlternativesAreBars(pattern);
  }
}
