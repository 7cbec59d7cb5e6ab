/**
  * The exact-debt ratchet of scripts/check_python_quality.py: `violations` compares
  * what was measured with the baseline, in the order of the sorted keys.
  */
module Ratchet {

  import opened Wrappers
  import opened LexOrder

  const MAX_COMPLEXITY: nat := 22
  const MAX_LINES: nat := 500

  type Table = map<string, nat>

  function Threshold(key: string): nat {
    if ':' in key then MAX_COMPLEXITY else MAX_LINES
  }

  datatype Problem =
    | NotBaselined(key: string, value: nat, limit: nat)
    | Grew(key: string, value: nat, recorded: nat)
    | Improved(key: string, value: nat, recorded: nat)
    | NamesNothing(key: string)
    | UnderLimit(key: string, value: nat)

  // ----- Sorted keys -------------------------------------------------------

  function Codes(s: string): (r: seq<int>)
    ensures |r| == |s| && forall i :: 0 <= i < |s| ==> r[i] == s[i] as int
  {
    seq(|s|, i requires 0 <= i < |s| => s[i] as int)
  }

  /** Python's order of strings, by code point. */
  predicate Precedes(a: string, b: string) { Less(Codes(a), Codes(b)) }

  lemma CodesInjective(a: string, b: string)
    requires Codes(a) == Codes(b)
    ensures a == b
  {
    assert forall i :: 0 <= i < |a| ==> Codes(a)[i] == a[i] as int && Codes(b)[i] == b[i] as int;
  }

  predicate Ordered(order: seq<string>) {
    forall i, j :: 0 <= i < j < |order| ==> Precedes(order[i], order[j])
  }

  /** The keys in order, each once. */
  ghost predicate Enumerates(order: seq<string>, keys: set<string>) {
    Ordered(order) && forall k :: k in keys <==> k in order
  }

  /** There is only one such list. */
  lemma {:induction false} EnumerationUnique(a: seq<string>, b: seq<string>, keys: set<string>)
    requires Enumerates(a, keys) && Enumerates(b, keys)
    ensures a == b
  {
    hide Precedes;
    NonEmpty(a, keys);
    NonEmpty(b, keys);
    if a != [] {
      FirstIsLeast(a, b, keys);
      var rest := keys - {a[0]};
      WithoutFirst(a, keys);
      WithoutFirst(b, keys);
      EnumerationUnique(a[1..], b[1..], rest);
    }
  }

  lemma NonEmpty(a: seq<string>, keys: set<string>)
    requires Enumerates(a, keys)
    ensures a == [] <==> keys == {}
  {
    if a != [] { assert a[0] in keys; }
  }

  lemma FirstIsLeast(a: seq<string>, b: seq<string>, keys: set<string>)
    requires Enumerates(a, keys) && Enumerates(b, keys) && a != [] && b != []
    ensures a[0] == b[0]
  {
    hide Precedes;
    assert a[0] in keys && b[0] in keys;
    var i :| 0 <= i < |a| && a[i] == b[0];
    var j :| 0 <= j < |b| && b[j] == a[0];
    if i > 0 && j > 0 {
      assert Precedes(a[0], a[i]) && Precedes(b[0], b[j]);
      NotBoth(a[0], b[0]);
    }
  }

  lemma NotBoth(a: string, b: string)
    ensures !(Precedes(a, b) && Precedes(b, a))
    ensures !Precedes(a, a)
  {
    Irreflexive(Codes(a));
    if Precedes(a, b) { Asymmetric(Codes(a), Codes(b)); }
  }

  lemma WithoutFirst(a: seq<string>, keys: set<string>)
    requires Enumerates(a, keys) && a != []
    ensures Enumerates(a[1..], keys - {a[0]})
  {
    hide Precedes;
    forall i | 1 <= i < |a| ensures a[i] != a[0] {
      assert Precedes(a[0], a[i]);
      NotBoth(a[0], a[0]);
    }
    assert a == [a[0]] + a[1..];
  }

  lemma InsertOrdered(order: seq<string>, i: nat, key: string)
    requires Ordered(order) && i <= |order|
    requires forall j :: 0 <= j < i ==> Precedes(order[j], key)
    requires forall j :: i <= j < |order| ==> Precedes(key, order[j])
    ensures Ordered(order[..i] + [key] + order[i..])
  {
    hide Precedes;
  }

  /** `sorted` over the keys of a table. */
  method SortedKeys(keys: set<string>) returns (order: seq<string>)
    ensures Enumerates(order, keys)
  {
    hide Precedes;
    order := [];
    var left := keys;
    while left != {}
      invariant left <= keys && Enumerates(order, keys - left)
      decreases left
    {
      var key :| key in left;
      var i := Place(order, key);
      InsertOrdered(order, i, key);
      assert order == order[..i] + order[i..];
      order := order[..i] + [key] + order[i..];
      assert keys - (left - {key}) == (keys - left) + {key};
      left := left - {key};
    }
    assert keys - left == keys;
  }

  method Place(order: seq<string>, key: string) returns (i: nat)
    requires Ordered(order) && key !in order
    ensures i <= |order|
    ensures forall j :: 0 <= j < i ==> Precedes(order[j], key)
    ensures forall j :: i <= j < |order| ==> Precedes(key, order[j])
  {
    i := 0;
    while i < |order| && Precedes(order[i], key)
      invariant i <= |order|
      invariant forall j :: 0 <= j < i ==> Precedes(order[j], key)
    {
      i := i + 1;
    }
    forall j | i <= j < |order| ensures Precedes(key, order[j]) {
      PlaceAfter(order, key, i, j);
    }
  }

  lemma PlaceAfter(order: seq<string>, key: string, i: nat, j: nat)
    requires Ordered(order) && key !in order && i <= j < |order| && !Precedes(order[i], key)
    ensures Precedes(key, order[j])
  {
    assert order[i] in order;
    Trichotomy(Codes(key), Codes(order[i]));
    if Codes(key) == Codes(order[i]) { CodesInjective(key, order[i]); }
    if i < j { Transitive(Codes(key), Codes(order[i]), Codes(order[j])); }
  }

  // ----- Violations --------------------------------------------------------

  /** What the first loop says of a measured key. */
  function OfMeasured(measured: Table, baseline: Table, key: string): (r: Option<Problem>)
    requires key in measured
  {
    var value, limit := measured[key], Threshold(key);
    if key !in baseline then
      if value >= limit then Some(NotBaselined(key, value, limit)) else None
    else if value > baseline[key] then Some(Grew(key, value, baseline[key]))
    else if limit <= value < baseline[key] then Some(Improved(key, value, baseline[key]))
    else None
  }

  /** What the second loop says of a baseline key. */
  function OfBaseline(measured: Table, baseline: Table, key: string): (r: Option<Problem>)
    requires key in baseline
  {
    if key !in measured then Some(NamesNothing(key))
    else if measured[key] < Threshold(key) then Some(UnderLimit(key, measured[key]))
    else None
  }

  function AllOfMeasured(measured: Table, baseline: Table, order: seq<string>): seq<Problem>
    requires forall k :: k in order ==> k in measured
  {
    if order == [] then []
    else
      AllOfMeasured(measured, baseline, order[..|order| - 1])
      + match OfMeasured(measured, baseline, order[|order| - 1])
        case None => []
        case Some(problem) => [problem]
  }

  function AllOfBaseline(measured: Table, baseline: Table, order: seq<string>): seq<Problem>
    requires forall k :: k in order ==> k in baseline
  {
    if order == [] then []
    else
      AllOfBaseline(measured, baseline, order[..|order| - 1])
      + match OfBaseline(measured, baseline, order[|order| - 1])
        case None => []
        case Some(problem) => [problem]
  }

  /** The list the source returns: the first loop over one order, the second over the other. */
  ghost predicate Reports(measured: Table, baseline: Table, problems: seq<Problem>) {
    exists a, b :: Enumerates(a, measured.Keys) && Enumerates(b, baseline.Keys)
      && problems == AllOfMeasured(measured, baseline, a) + AllOfBaseline(measured, baseline, b)
  }

  lemma ReportUnique(measured: Table, baseline: Table, x: seq<Problem>, y: seq<Problem>)
    requires Reports(measured, baseline, x) && Reports(measured, baseline, y)
    ensures x == y
  {
    hide Ordered;
    var a, b :| Enumerates(a, measured.Keys) && Enumerates(b, baseline.Keys)
      && x == AllOfMeasured(measured, baseline, a) + AllOfBaseline(measured, baseline, b);
    var c, d :| Enumerates(c, measured.Keys) && Enumerates(d, baseline.Keys)
      && y == AllOfMeasured(measured, baseline, c) + AllOfBaseline(measured, baseline, d);
    EnumerationUnique(a, c, measured.Keys);
    EnumerationUnique(b, d, baseline.Keys);
  }

  method Violations(measured: Table, baseline: Table) returns (problems: seq<Problem>)
    ensures Reports(measured, baseline, problems)
  {
    hide Ordered;
    problems := [];
    var a := SortedKeys(measured.Keys);
    for i := 0 to |a|
      invariant forall k :: k in a[..i] ==> k in measured
      invariant problems == AllOfMeasured(measured, baseline, a[..i])
    {
      var key := a[i];
      assert a[..i + 1][..i] == a[..i];
      var value, limit := measured[key], Threshold(key);
      if key !in baseline {
        if value >= limit { problems := problems + [NotBaselined(key, value, limit)]; }
      } else if value > baseline[key] {
        problems := problems + [Grew(key, value, baseline[key])];
      } else if limit <= value < baseline[key] {
        problems := problems + [Improved(key, value, baseline[key])];
      }
    }
    assert a[..|a|] == a;
    var first := problems;
    var b := SortedKeys(baseline.Keys);
    var second := BaselineProblems(measured, baseline, b);
    problems := first + second;
  }

  /** The second loop. */
  method BaselineProblems(measured: Table, baseline: Table, order: seq<string>)
    returns (problems: seq<Problem>)
    requires forall k :: k in order ==> k in baseline
    ensures problems == AllOfBaseline(measured, baseline, order)
  {
    problems := [];
    for i := 0 to |order|
      invariant forall k :: k in order[..i] ==> k in baseline
      invariant problems == AllOfBaseline(measured, baseline, order[..i])
    {
      var key := order[i];
      assert order[..i + 1][..i] == order[..i];
      if key !in measured {
        problems := problems + [NamesNothing(key)];
      } else if measured[key] < Threshold(key) {
        problems := problems + [UnderLimit(key, measured[key])];
      }
    }
    assert order[..|order|] == order;
  }

  // ----- What passing means ------------------------------------------------

  /** The debt: what measures at or above its threshold. */
  function Debt(measured: Table): Table {
    map k | k in measured && measured[k] >= Threshold(k) :: measured[k]
  }

  lemma {:induction false} MeasuredMembers(measured: Table, baseline: Table, order: seq<string>, problem: Problem)
    requires forall k :: k in order ==> k in measured
    ensures problem in AllOfMeasured(measured, baseline, order)
       <==> exists k :: k in order && OfMeasured(measured, baseline, k) == Some(problem)
  {
    if order != [] {
      var init, last := order[..|order| - 1], order[|order| - 1];
      MeasuredMembers(measured, baseline, init, problem);
      assert order == init + [last];
    }
  }

  lemma {:induction false} BaselineMembers(measured: Table, baseline: Table, order: seq<string>, problem: Problem)
    requires forall k :: k in order ==> k in baseline
    ensures problem in AllOfBaseline(measured, baseline, order)
       <==> exists k :: k in order && OfBaseline(measured, baseline, k) == Some(problem)
  {
    if order != [] {
      var init, last := order[..|order| - 1], order[|order| - 1];
      BaselineMembers(measured, baseline, init, problem);
      assert order == init + [last];
    }
  }

  /** A problem is reported exactly for the key and the reason it names. */
  ghost predicate Deserved(measured: Table, baseline: Table, problem: Problem) {
    match problem
    case NotBaselined(key, value, limit) =>
      key in measured && key !in baseline
      && value == measured[key] >= limit == Threshold(key)
    case Grew(key, value, recorded) =>
      key in measured && key in baseline && value == measured[key] > recorded == baseline[key]
    case Improved(key, value, recorded) =>
      key in measured && key in baseline
      && Threshold(key) <= value == measured[key] < recorded == baseline[key]
    case NamesNothing(key) => key in baseline && key !in measured
    case UnderLimit(key, value) =>
      key in baseline && key in measured && value == measured[key] < Threshold(key)
  }

  lemma ReportedExactly(measured: Table, baseline: Table, problems: seq<Problem>, problem: Problem)
    requires Reports(measured, baseline, problems)
    ensures problem in problems <==> Deserved(measured, baseline, problem)
  {
    hide Ordered, Deserved, OfMeasured, OfBaseline;
    var a, b :| Enumerates(a, measured.Keys) && Enumerates(b, baseline.Keys)
      && problems == AllOfMeasured(measured, baseline, a) + AllOfBaseline(measured, baseline, b);
    MeasuredMembers(measured, baseline, a, problem);
    BaselineMembers(measured, baseline, b, problem);
    assert problem in problems
      <==> Found(measured, baseline, problem);
    DeservedExactly(measured, baseline, problem);
  }

  /** One of the two loops finds the problem at some key. */
  ghost predicate Found(measured: Table, baseline: Table, problem: Problem) {
    || (exists k :: k in measured && OfMeasured(measured, baseline, k) == Some(problem))
    || (exists k :: k in baseline && OfBaseline(measured, baseline, k) == Some(problem))
  }

  /** A problem is deserved exactly when one of the two loops finds it. */
  lemma DeservedExactly(measured: Table, baseline: Table, problem: Problem)
    ensures Deserved(measured, baseline, problem) <==> Found(measured, baseline, problem)
  {
    hide Threshold;
    if Deserved(measured, baseline, problem) {
      if problem.NamesNothing? || problem.UnderLimit? {
        assert OfBaseline(measured, baseline, problem.key) == Some(problem);
      } else {
        assert OfMeasured(measured, baseline, problem.key) == Some(problem);
      }
    }
  }

  /** The check passes exactly when the baseline is the debt, row for row. */
  lemma PassesExactly(measured: Table, baseline: Table, problems: seq<Problem>)
    requires Reports(measured, baseline, problems)
    ensures problems == [] <==> baseline == Debt(measured)
  {
    hide Reports;
    if problems == [] {
      forall k ensures k in baseline <==> k in Debt(measured)
               ensures k in baseline && k in Debt(measured) ==> baseline[k] == Debt(measured)[k]
      {
        NothingDeserved(measured, baseline, problems, k);
      }
    } else {
      ReportedExactly(measured, baseline, problems, problems[0]);
    }
  }

  /** The published limits: 22 for the complexity of a scope, whose key has a colon, and 500 lines. */
  function Limit(key: string): nat {
    if exists i :: 0 <= i < |key| && key[i] == ':' then 22 else 500
  }

  /** The check passes exactly when the rows are the measures at or above those limits. */
  lemma PassesAtLimits(measured: Table, baseline: Table, problems: seq<Problem>)
    requires Reports(measured, baseline, problems)
    ensures problems == [] <==> baseline == map k | k in measured && measured[k] >= Limit(k) :: measured[k]
  {
    hide Reports;
    PassesExactly(measured, baseline, problems);
    forall k ensures Threshold(k) == Limit(k) {
    }
  }

  lemma NothingDeserved(measured: Table, baseline: Table, problems: seq<Problem>, k: string)
    requires Reports(measured, baseline, problems) && problems == []
    ensures k in baseline <==> k in measured && measured[k] >= Threshold(k)
    ensures k in baseline ==> baseline[k] == measured[k]
  {
    hide Reports;
    var limit := Threshold(k);
    if k in measured {
      ReportedExactly(measured, baseline, problems, NotBaselined(k, measured[k], limit));
      ReportedExactly(measured, baseline, problems, UnderLimit(k, measured[k]));
      if k in baseline {
        ReportedExactly(measured, baseline, problems, Grew(k, measured[k], baseline[k]));
        ReportedExactly(measured, baseline, problems, Improved(k, measured[k], baseline[k]));
      }
    } else {
      ReportedExactly(measured, baseline, problems, NamesNothing(k));
    }
  }
}
