/**
  * The elements a page does not render, in scripts/markdown_text.py:
  * `non_rendered_spans` and `strip_non_rendered_elements`.
  *
  * The two tag patterns are not part of this model. What a left-to-right scan
  * with one of them yields is: matches that are nonempty, in order, and do not
  * overlap.
  */
module NonRendered {

  import opened Sequences
  import opened Wrappers

  /** A match of a tag pattern, with the element's name in lower case. */
  datatype Tag = Tag(start: nat, stop: nat, name: string)

  datatype Span = Span(start: nat, stop: nat)

  /** What one scan of a text of length `end` yields. */
  ghost predicate Scanned(tags: seq<Tag>, end: nat) {
    && (forall i :: 0 <= i < |tags| ==> tags[i].start < tags[i].stop <= end)
    && (forall i, j :: 0 <= i < j < |tags| ==> tags[i].stop <= tags[j].start)
  }

  /** The open tags of one scan, and for each name the close tags of its own scan. */
  ghost predicate Tagged(openers: seq<Tag>, closers: map<string, seq<Tag>>, end: nat) {
    && Scanned(openers, end)
    && (forall i :: 0 <= i < |openers| ==> openers[i].name in closers)
    && (forall name :: name in closers ==> Scanned(closers[name], end))
  }

  // ----- What a page hides, from the tags alone ----------------------------

  /** `c` closes what `o` opened: same name, and not before the open tag ends. */
  ghost predicate ClosesAfter(closers: map<string, seq<Tag>>, o: Tag, k: nat)
    requires o.name in closers
  {
    k < |closers[o.name]| && o.stop <= closers[o.name][k].start
  }

  /** The end of the last close tag of that name after the open tag, or the text's end. */
  ghost predicate RunsTo(closers: map<string, seq<Tag>>, end: nat, o: Tag, stop: nat)
    requires o.name in closers
  {
    if exists k: nat :: ClosesAfter(closers, o, k) then
      && (exists k: nat :: ClosesAfter(closers, o, k) && closers[o.name][k].stop == stop)
      && (forall k: nat :: ClosesAfter(closers, o, k) ==> closers[o.name][k].stop <= stop)
    else stop == end
  }

  /** `reach` in the source: it looks at the last close tag of the name only. */
  function Reach(closers: map<string, seq<Tag>>, end: nat, o: Tag): nat
    requires o.name in closers
  {
    var found := closers[o.name];
    if found != [] && o.stop <= found[|found| - 1].start then found[|found| - 1].stop else end
  }

  /** Looking at the last one is enough. */
  lemma ReachIsLast(closers: map<string, seq<Tag>>, end: nat, o: Tag, stop: nat)
    requires o.name in closers && Scanned(closers[o.name], end)
    ensures RunsTo(closers, end, o, stop) <==> stop == Reach(closers, end, o)
  {
    var found := closers[o.name];
    var last := |found| - 1;
    if found != [] && o.stop <= found[last].start {
      assert ClosesAfter(closers, o, last);
      forall k: nat | ClosesAfter(closers, o, k)
        ensures found[k].stop <= found[last].stop
      {
        if k < last { assert found[k].stop <= found[last].start; }
      }
      if RunsTo(closers, end, o, stop) {
        assert found[last].stop <= stop;
      }
    } else {
      forall k | 0 <= k < |found| ensures found[k].start <= found[last].start {
        if k < last { assert found[k].stop <= found[last].start; }
      }
    }
  }

  /** The offset is inside what open tag `i` opens. */
  ghost predicate Inside(openers: seq<Tag>, closers: map<string, seq<Tag>>, end: nat, i: nat, p: nat)
    requires Tagged(openers, closers, end)
  {
    i < |openers| && openers[i].start <= p < Reach(closers, end, openers[i])
  }

  ghost predicate InsideOneOf(openers: seq<Tag>, closers: map<string, seq<Tag>>, end: nat,
                              lo: nat, hi: nat, p: nat)
    requires Tagged(openers, closers, end)
  {
    exists i: nat :: lo <= i < hi && Inside(openers, closers, end, i, p)
  }

  ghost predicate Hidden(openers: seq<Tag>, closers: map<string, seq<Tag>>, end: nat, p: nat)
    requires Tagged(openers, closers, end)
  {
    exists i: nat :: Inside(openers, closers, end, i, p)
  }

  /** An open tag starts here, and nothing opened before it is still running. */
  ghost predicate Begins(openers: seq<Tag>, closers: map<string, seq<Tag>>, end: nat, p: nat)
    requires Tagged(openers, closers, end)
  {
    exists i: nat :: i < |openers| && BeginsAt(openers, closers, end, i) && openers[i].start == p
  }

  ghost predicate BeginsAt(openers: seq<Tag>, closers: map<string, seq<Tag>>, end: nat, i: nat)
    requires Tagged(openers, closers, end) && i < |openers|
  {
    forall j :: 0 <= j < i ==> Reach(closers, end, openers[j]) <= openers[i].start
  }

  // ----- The interval closure ----------------------------------------------

  ghost predicate Ascending(spans: seq<Span>, end: nat) {
    && (forall s :: 0 <= s < |spans| ==> spans[s].start < spans[s].stop <= end)
    && (forall s, t :: 0 <= s < t < |spans| ==> spans[s].stop <= spans[t].start)
  }

  ghost predicate Covered(spans: seq<Span>, p: nat) {
    exists s :: 0 <= s < |spans| && spans[s].start <= p < spans[s].stop
  }

  ghost predicate Starts(spans: seq<Span>, p: nat) {
    exists s :: 0 <= s < |spans| && spans[s].start == p
  }

  /** Ordered and disjoint, hiding just what the open tags hide, cut where nothing runs on. */
  ghost predicate Closure(openers: seq<Tag>, closers: map<string, seq<Tag>>, end: nat, spans: seq<Span>)
    requires Tagged(openers, closers, end)
  {
    && Ascending(spans, end)
    && (forall p: nat :: Covered(spans, p) <==> Hidden(openers, closers, end, p))
    && (forall p: nat :: Starts(spans, p) <==> Begins(openers, closers, end, p))
  }

  lemma ReachBounds(openers: seq<Tag>, closers: map<string, seq<Tag>>, end: nat, i: nat)
    requires Tagged(openers, closers, end) && i < |openers|
    ensures openers[i].stop <= Reach(closers, end, openers[i]) <= end
  {
    assert Scanned(closers[openers[i].name], end);
  }

  /** The first `n` open tags, as the outer loop leaves them. */
  ghost predicate ClosedUpTo(openers: seq<Tag>, closers: map<string, seq<Tag>>, end: nat,
                             spans: seq<Span>, n: nat)
    requires Tagged(openers, closers, end) && n <= |openers|
  {
    && Ascending(spans, end)
    && (forall p: nat :: Covered(spans, p) <==> exists i: nat :: i < n && Inside(openers, closers, end, i, p))
    && (forall p: nat :: Starts(spans, p)
          <==> exists i: nat :: i < n && BeginsAt(openers, closers, end, i) && openers[i].start == p)
    && (forall i :: 0 <= i < n ==> BoundedBy(closers, end, openers[i], spans))
    && (spans != [] ==> n < |openers| ==> spans[|spans| - 1].stop <= openers[n].start)
  }

  ghost predicate BoundedBy(closers: map<string, seq<Tag>>, end: nat, o: Tag, spans: seq<Span>)
    requires o.name in closers
  {
    spans != [] && Reach(closers, end, o) <= spans[|spans| - 1].stop
  }

  /** One group: open tags `index..following` grow one span up to `stop`. */
  ghost predicate Grown(openers: seq<Tag>, closers: map<string, seq<Tag>>, end: nat,
                        index: nat, following: nat, stop: nat)
    requires Tagged(openers, closers, end)
  {
    && index < following <= |openers|
    && openers[index].start < stop <= end
    && (forall i: nat :: index <= i < following ==> Reach(closers, end, openers[i]) <= stop)
    && (forall i: nat :: index <= i < following ==> openers[index].start <= openers[i].start)
    && (forall p: nat :: openers[index].start <= p < stop ==>
          InsideOneOf(openers, closers, end, index, following, p))
    && (forall i: nat :: index < i < following ==> !BeginsAt(openers, closers, end, i))
  }

  lemma GroupStarts(openers: seq<Tag>, closers: map<string, seq<Tag>>, end: nat, index: nat)
    requires Tagged(openers, closers, end) && index < |openers|
    ensures Grown(openers, closers, end, index, index + 1, Reach(closers, end, openers[index]))
  {
    ReachBounds(openers, closers, end, index);
    var stop, after := Reach(closers, end, openers[index]), index + 1;
    forall p: nat
      ensures openers[index].start <= p < stop ==> InsideOneOf(openers, closers, end, index, after, p)
    {
      if openers[index].start <= p < stop {
        assert Inside(openers, closers, end, index, p);
      }
    }
  }

  lemma GroupGrows(openers: seq<Tag>, closers: map<string, seq<Tag>>, end: nat,
                   index: nat, following: nat, stop: nat, next: nat)
    requires Tagged(openers, closers, end)
    requires Grown(openers, closers, end, index, following, stop)
    requires following < |openers| && openers[following].start < stop
    requires next == if Reach(closers, end, openers[following]) > stop
                     then Reach(closers, end, openers[following]) else stop
    ensures Grown(openers, closers, end, index, following + 1, next)
  {
    hide Reach, BeginsAt, InsideOneOf;
    ReachBounds(openers, closers, end, following);
    assert openers[index].stop <= openers[following].start;
    var after := following + 1;
    forall p: nat
      ensures openers[index].start <= p < next ==> InsideOneOf(openers, closers, end, index, after, p)
    {
      if openers[index].start <= p < stop {
        assert InsideOneOf(openers, closers, end, index, following, p);
        StillInside(openers, closers, end, index, following, p);
      } else if stop <= p < next {
        LastInside(openers, closers, end, index, following, p);
      }
    }
    assert !BeginsAt(openers, closers, end, following) by {
      assert InsideOneOf(openers, closers, end, index, following, openers[following].start);
      NotAtOnce(openers, closers, end, index, following);
    }
  }

  lemma StillInside(openers: seq<Tag>, closers: map<string, seq<Tag>>, end: nat,
                    index: nat, following: nat, p: nat)
    requires Tagged(openers, closers, end) && InsideOneOf(openers, closers, end, index, following, p)
    ensures InsideOneOf(openers, closers, end, index, following + 1, p)
  {
    hide Tagged, Inside;
    var i: nat :| index <= i < following && Inside(openers, closers, end, i, p);
    assert i < following + 1;
  }

  lemma LastInside(openers: seq<Tag>, closers: map<string, seq<Tag>>, end: nat,
                   index: nat, following: nat, p: nat)
    requires Tagged(openers, closers, end) && index <= following < |openers|
    requires openers[following].start <= p < Reach(closers, end, openers[following])
    ensures InsideOneOf(openers, closers, end, index, following + 1, p)
  {
    hide Reach;
    assert Inside(openers, closers, end, following, p);
  }

  /** Nothing begins where something earlier is still running. */
  lemma NotAtOnce(openers: seq<Tag>, closers: map<string, seq<Tag>>, end: nat, index: nat, following: nat)
    requires Tagged(openers, closers, end) && following < |openers|
    requires InsideOneOf(openers, closers, end, index, following, openers[following].start)
    ensures !BeginsAt(openers, closers, end, following)
  {
    hide Tagged, Reach;
    var i: nat :| index <= i < following && Inside(openers, closers, end, i, openers[following].start);
  }

  /** A finished group becomes one more span. */
  lemma GroupEnds(openers: seq<Tag>, closers: map<string, seq<Tag>>, end: nat,
                  spans: seq<Span>, index: nat, following: nat, stop: nat)
    requires Tagged(openers, closers, end) && index < |openers|
    requires ClosedUpTo(openers, closers, end, spans, index)
    requires Grown(openers, closers, end, index, following, stop)
    requires following < |openers| ==> stop <= openers[following].start
    ensures ClosedUpTo(openers, closers, end, spans + [Span(openers[index].start, stop)], following)
  {
    hide Reach;
    var next := spans + [Span(openers[index].start, stop)];
    assert Ascending(next, end);
    forall p: nat
      ensures Covered(next, p) <==> exists i: nat :: i < following && Inside(openers, closers, end, i, p)
    {
      GroupCovers(openers, closers, end, spans, index, following, stop, p);
    }
    forall p: nat
      ensures Starts(next, p)
         <==> exists i: nat :: i < following && BeginsAt(openers, closers, end, i) && openers[i].start == p
    {
      GroupBegins(openers, closers, end, spans, index, following, stop, p);
    }
    forall i | 0 <= i < following ensures BoundedBy(closers, end, openers[i], next) {
      if i < index { assert BoundedBy(closers, end, openers[i], spans); }
    }
  }

  lemma GroupCovers(openers: seq<Tag>, closers: map<string, seq<Tag>>, end: nat,
                    spans: seq<Span>, index: nat, following: nat, stop: nat, p: nat)
    requires Tagged(openers, closers, end) && index < |openers|
    requires ClosedUpTo(openers, closers, end, spans, index)
    requires Grown(openers, closers, end, index, following, stop)
    ensures Covered(spans + [Span(openers[index].start, stop)], p)
       <==> exists i: nat :: i < following && Inside(openers, closers, end, i, p)
  {
    hide Reach;
    var next := spans + [Span(openers[index].start, stop)];
    if Covered(next, p) {
      var s :| 0 <= s < |next| && next[s].start <= p < next[s].stop;
      if s < |spans| {
        assert spans[s].start <= p < spans[s].stop;
        assert Covered(spans, p);
      } else {
        assert InsideOneOf(openers, closers, end, index, following, p);
      }
    }
    if i: nat :| i < following && Inside(openers, closers, end, i, p) {
      if i < index {
        assert Covered(spans, p);
        var s :| 0 <= s < |spans| && spans[s].start <= p < spans[s].stop;
        assert next[s] == spans[s];
      } else {
        assert next[|spans|].start <= p < next[|spans|].stop;
      }
    }
  }

  lemma GroupBegins(openers: seq<Tag>, closers: map<string, seq<Tag>>, end: nat,
                    spans: seq<Span>, index: nat, following: nat, stop: nat, p: nat)
    requires Tagged(openers, closers, end) && index < |openers|
    requires ClosedUpTo(openers, closers, end, spans, index)
    requires Grown(openers, closers, end, index, following, stop)
    ensures Starts(spans + [Span(openers[index].start, stop)], p)
       <==> exists i: nat :: i < following && BeginsAt(openers, closers, end, i) && openers[i].start == p
  {
    hide Reach;
    var next := spans + [Span(openers[index].start, stop)];
    forall j | 0 <= j < index ensures Reach(closers, end, openers[j]) <= openers[index].start {
      assert BoundedBy(closers, end, openers[j], spans);
    }
    assert BeginsAt(openers, closers, end, index);
    if Starts(next, p) {
      var s :| 0 <= s < |next| && next[s].start == p;
      if s < |spans| {
        assert spans[s].start == p;
        assert Starts(spans, p);
      }
    }
    if i: nat :| i < following && BeginsAt(openers, closers, end, i) && openers[i].start == p {
      if i < index {
        assert Starts(spans, p);
        var s :| 0 <= s < |spans| && spans[s].start == p;
        assert next[s] == spans[s];
      } else {
        assert next[|spans|].start == p;
      }
    }
  }

  /** `non_rendered_spans`. */
  method NonRenderedSpans(openers: seq<Tag>, closers: map<string, seq<Tag>>, end: nat)
    returns (spans: seq<Span>)
    requires Tagged(openers, closers, end)
    ensures Closure(openers, closers, end, spans)
  {
    hide Reach, Grown, Inside, BeginsAt, ClosedUpTo, Closure;
    spans := [];
    NoneClosed(openers, closers, end);
    if openers == [] {
      AllClosed(openers, closers, end, spans);
      return;
    }
    var index := 0;
    while index < |openers|
      invariant index <= |openers|
      invariant ClosedUpTo(openers, closers, end, spans, index)
    {
      var stop := Reach(closers, end, openers[index]);
      GroupStarts(openers, closers, end, index);
      var following := index + 1;
      while following < |openers| && openers[following].start < stop
        invariant index < following <= |openers|
        invariant Grown(openers, closers, end, index, following, stop)
      {
        var reach := Reach(closers, end, openers[following]);
        var next := if reach > stop then reach else stop;
        GroupGrows(openers, closers, end, index, following, stop, next);
        stop := next;
        following := following + 1;
      }
      GroupEnds(openers, closers, end, spans, index, following, stop);
      spans := spans + [Span(openers[index].start, stop)];
      index := following;
    }
    AllClosed(openers, closers, end, spans);
  }

  lemma NoneClosed(openers: seq<Tag>, closers: map<string, seq<Tag>>, end: nat)
    requires Tagged(openers, closers, end)
    ensures ClosedUpTo(openers, closers, end, [], 0)
  {
  }

  lemma AllClosed(openers: seq<Tag>, closers: map<string, seq<Tag>>, end: nat, spans: seq<Span>)
    requires Tagged(openers, closers, end)
    requires ClosedUpTo(openers, closers, end, spans, |openers|)
    ensures Closure(openers, closers, end, spans)
  {
    forall p: nat ensures Covered(spans, p) <==> Hidden(openers, closers, end, p) {
      if i: nat :| Inside(openers, closers, end, i, p) {
        assert i < |openers|;
      }
    }
    forall p: nat ensures Starts(spans, p) <==> Begins(openers, closers, end, p) {
    }
  }

  // ----- What the closure is for -------------------------------------------

  /** The closure is a single list: the tags leave no choice. */
  lemma {:induction false} SpansUnique(openers: seq<Tag>, closers: map<string, seq<Tag>>, end: nat,
                                       a: seq<Span>, b: seq<Span>)
    requires Tagged(openers, closers, end)
    requires Closure(openers, closers, end, a) && Closure(openers, closers, end, b)
    ensures a == b
  {
    hide Hidden, Begins, Tagged;
    forall p: nat
      ensures Covered(a, p) <==> Covered(b, p)
      ensures Starts(a, p) <==> Starts(b, p)
    {
      assert Covered(a, p) <==> Hidden(openers, closers, end, p);
      assert Starts(a, p) <==> Begins(openers, closers, end, p);
    }
    SameSpans(a, b, end);
  }

  lemma {:induction false} SameSpans(a: seq<Span>, b: seq<Span>, end: nat)
    requires Ascending(a, end) && Ascending(b, end)
    requires forall p: nat :: Covered(a, p) <==> Covered(b, p)
    requires forall p: nat :: Starts(a, p) <==> Starts(b, p)
    ensures a == b
  {
    hide Ascending, Covered, Starts;
    if |a| <= |b| {
      SamePrefix(a, b, end, |a|);
      NoMore(a, b, end);
    } else {
      forall p: nat
        ensures Covered(b, p) <==> Covered(a, p)
        ensures Starts(b, p) <==> Starts(a, p)
      {
        assert Covered(a, p) <==> Covered(b, p);
        assert Starts(a, p) <==> Starts(b, p);
      }
      SamePrefix(b, a, end, |b|);
      NoMore(b, a, end);
    }
  }

  lemma Increasing(spans: seq<Span>, end: nat)
    requires Ascending(spans, end)
    ensures forall s, t :: 0 <= s < t < |spans| ==> spans[s].start < spans[t].start
  {
    forall s, t | 0 <= s < t < |spans| ensures spans[s].start < spans[t].start {
      assert spans[s].stop <= spans[t].start;
    }
  }

  lemma NoMore(a: seq<Span>, b: seq<Span>, end: nat)
    requires Ascending(a, end) && Ascending(b, end)
    requires forall p: nat :: Starts(a, p) <==> Starts(b, p)
    requires |a| <= |b| && a == b[..|a|]
    ensures a == b
  {
    hide Ascending, Starts;
    if |a| < |b| {
      StartOf(b, |a|);
      NotBefore(b, end, |a|);
    }
  }

  lemma StartOf(spans: seq<Span>, n: nat)
    requires n < |spans|
    ensures Starts(spans, spans[n].start)
  {
  }

  lemma NotBefore(spans: seq<Span>, end: nat, n: nat)
    requires Ascending(spans, end) && n < |spans|
    ensures !Starts(spans[..n], spans[n].start)
  {
    Increasing(spans, end);
    assert forall s :: 0 <= s < n ==> spans[..n][s] == spans[s];
  }

  /** A start of one is a start of the other, and no earlier than its next span. */
  lemma StartBelow(a: seq<Span>, b: seq<Span>, end: nat, n: nat)
    requires Ascending(a, end) && Ascending(b, end)
    requires n < |a| && n < |b| && a[..n] == b[..n]
    requires forall p: nat :: Starts(a, p) <==> Starts(b, p)
    ensures b[n].start <= a[n].start
  {
    hide Ascending;
    Increasing(a, end);
    Increasing(b, end);
    assert forall s :: 0 <= s < n ==> a[..n][s] == b[s];
    assert Starts(a, a[n].start);
    assert Starts(b, a[n].start);
  }

  lemma StopBelow(a: seq<Span>, b: seq<Span>, end: nat, n: nat)
    requires Ascending(a, end) && Ascending(b, end)
    requires n < |a| && n < |b| && a[n].start == b[n].start
    requires forall p: nat :: Covered(a, p) <==> Covered(b, p)
    requires forall p: nat :: Starts(a, p) <==> Starts(b, p)
    ensures b[n].stop <= a[n].stop
  {
    if a[n].stop < b[n].stop {
      // The offset where the shorter one stops is inside the longer one, so it
      // is inside a later span of the shorter list, which then starts inside
      // the longer one.
      var p := a[n].stop;
      assert Covered(b, p);
      assert Covered(a, p);
      CoveredAtStop(a, end, n);
      assert Starts(b, p);
      NoStartInside(b, end, n, p);
    }
  }

  /** An offset where one span stops is covered only if another span starts there. */
  lemma CoveredAtStop(spans: seq<Span>, end: nat, n: nat)
    requires Ascending(spans, end) && n < |spans| && Covered(spans, spans[n].stop)
    ensures Starts(spans, spans[n].stop)
  {
    Increasing(spans, end);
    var p := spans[n].stop;
    var s :| 0 <= s < |spans| && spans[s].start <= p < spans[s].stop;
    assert forall t :: 0 <= t < n ==> spans[t].stop <= spans[n].start;
    assert n < s;
    assert spans[n].stop <= spans[s].start;
  }

  lemma {:induction false} SamePrefix(a: seq<Span>, b: seq<Span>, end: nat, n: nat)
    requires Ascending(a, end) && Ascending(b, end)
    requires n <= |a| <= |b|
    requires forall p: nat :: Covered(a, p) <==> Covered(b, p)
    requires forall p: nat :: Starts(a, p) <==> Starts(b, p)
    ensures a[..n] == b[..n]
  {
    hide Ascending, Covered, Starts;
    if n > 0 {
      SamePrefix(a, b, end, n - 1);
      StartBelow(a, b, end, n - 1);
      StartBelow(b, a, end, n - 1);
      StopBelow(a, b, end, n - 1);
      StopBelow(b, a, end, n - 1);
      assert a[..n] == a[..n - 1] + [a[n - 1]];
      assert b[..n] == b[..n - 1] + [b[n - 1]];
    }
  }

  /** No part of a body survives: its open tag and every later close tag are in one span. */
  lemma BodyInOneSpan(openers: seq<Tag>, closers: map<string, seq<Tag>>, end: nat,
                      spans: seq<Span>, i: nat, k: nat)
    requires Tagged(openers, closers, end) && Closure(openers, closers, end, spans)
    requires i < |openers| && ClosesAfter(closers, openers[i], k)
    ensures exists s :: 0 <= s < |spans|
                     && spans[s].start <= openers[i].start
                     && closers[openers[i].name][k].stop <= spans[s].stop
  {
    hide Begins, BeginsAt;
    var o := openers[i];
    var reach := Reach(closers, end, o);
    ReachBounds(openers, closers, end, i);
    ReachIsLast(closers, end, o, reach);
    assert closers[o.name][k].stop <= reach;
    assert Inside(openers, closers, end, i, o.start);
    assert Covered(spans, o.start);
    var s :| 0 <= s < |spans| && spans[s].start <= o.start < spans[s].stop;
    if spans[s].stop < reach {
      RunsOn(openers, closers, end, spans, i, s);
    }
  }

  /** A span cannot stop while something opened inside it is still running. */
  lemma RunsOn(openers: seq<Tag>, closers: map<string, seq<Tag>>, end: nat,
               spans: seq<Span>, i: nat, s: nat)
    requires Tagged(openers, closers, end) && Closure(openers, closers, end, spans)
    requires i < |openers| && s < |spans|
    requires spans[s].start <= openers[i].start < spans[s].stop
    ensures Reach(closers, end, openers[i]) <= spans[s].stop
  {
    hide Reach;
    var p := spans[s].stop;
    if p < Reach(closers, end, openers[i]) {
      assert Inside(openers, closers, end, i, p);
      assert Covered(spans, p);
      CoveredAtStop(spans, end, s);
      NothingBegins(openers, closers, end, i, p);
    }
  }

  /** Nothing begins where something opened earlier is still running. */
  lemma NothingBegins(openers: seq<Tag>, closers: map<string, seq<Tag>>, end: nat, i: nat, p: nat)
    requires Tagged(openers, closers, end) && i < |openers|
    requires openers[i].start < p < Reach(closers, end, openers[i])
    ensures !Begins(openers, closers, end, p)
  {
    hide Reach;
    forall j: nat | j < |openers| && openers[j].start == p
      ensures !BeginsAt(openers, closers, end, j)
    {
      InSourceOrder(openers, closers, end, i, j);
    }
  }

  lemma InSourceOrder(openers: seq<Tag>, closers: map<string, seq<Tag>>, end: nat, i: nat, j: nat)
    requires Tagged(openers, closers, end)
    requires i < |openers| && j < |openers| && openers[i].start < openers[j].start
    ensures i < j
  {
  }

  // ----- Stripping ---------------------------------------------------------

  /** From offset `p` on: a space where a hidden stretch begins, and what is not hidden. */
  ghost function Shown(text: string, openers: seq<Tag>, closers: map<string, seq<Tag>>, p: nat): string
    requires Tagged(openers, closers, |text|) && p <= |text|
    decreases |text| - p
  {
    if p == |text| then ""
    else
      (if Begins(openers, closers, |text|, p) then " " else "")
      + (if Hidden(openers, closers, |text|, p) then "" else [text[p]])
      + Shown(text, openers, closers, p + 1)
  }

  lemma ShownStep(text: string, openers: seq<Tag>, closers: map<string, seq<Tag>>, p: nat)
    requires Tagged(openers, closers, |text|) && p < |text|
    requires !Begins(openers, closers, |text|, p)
    ensures Shown(text, openers, closers, p)
         == (if Hidden(openers, closers, |text|, p) then "" else [text[p]]) + Shown(text, openers, closers, p + 1)
  {
    hide Hidden, Begins, Tagged;
  }

  /** A stretch with nothing hidden in it is kept as it is. */
  lemma {:induction false} ShownPlain(text: string, openers: seq<Tag>, closers: map<string, seq<Tag>>,
                                      p: nat, q: nat)
    requires Tagged(openers, closers, |text|) && p <= q <= |text|
    requires forall k :: p <= k < q ==> !Hidden(openers, closers, |text|, k)
    requires forall k :: p <= k < q ==> !Begins(openers, closers, |text|, k)
    ensures Shown(text, openers, closers, p) == text[p..q] + Shown(text, openers, closers, q)
    decreases q - p
  {
    hide Hidden, Begins, Tagged, Shown;
    if p < q {
      ShownPlain(text, openers, closers, p + 1, q);
      ShownStep(text, openers, closers, p);
      Associative([text[p]], text[p + 1..q], Shown(text, openers, closers, q));
      assert text[p..q] == [text[p]] + text[p + 1..q];
    } else {
      assert text[p..q] == "";
    }
  }

  /** A hidden stretch leaves nothing after its first offset. */
  lemma {:induction false} ShownHidden(text: string, openers: seq<Tag>, closers: map<string, seq<Tag>>,
                                       p: nat, q: nat)
    requires Tagged(openers, closers, |text|) && p <= q <= |text|
    requires forall k :: p <= k < q ==> Hidden(openers, closers, |text|, k)
    requires forall k :: p <= k < q ==> !Begins(openers, closers, |text|, k)
    ensures Shown(text, openers, closers, p) == Shown(text, openers, closers, q)
    decreases q - p
  {
    hide Hidden, Begins, Tagged;
    if p < q {
      ShownHidden(text, openers, closers, p + 1, q);
    }
  }

  /** Between spans nothing is hidden; inside one everything is, and it begins once. */
  lemma SpanShown(text: string, openers: seq<Tag>, closers: map<string, seq<Tag>>,
                  spans: seq<Span>, s: nat, cursor: nat)
    requires Tagged(openers, closers, |text|) && Closure(openers, closers, |text|, spans)
    requires s < |spans| && cursor == if s == 0 then 0 else spans[s - 1].stop
    ensures cursor <= spans[s].start
    ensures Shown(text, openers, closers, cursor)
         == text[cursor..spans[s].start] + " " + Shown(text, openers, closers, spans[s].stop)
  {
    hide Hidden, Begins, Tagged, Shown;
    var start, stop := spans[s].start, spans[s].stop;
    forall k: nat | cursor <= k < start
      ensures !Hidden(openers, closers, |text|, k) && !Begins(openers, closers, |text|, k)
    {
      Uncovered(spans, |text|, s, k);
    }
    ShownPlain(text, openers, closers, cursor, start);
    assert Covered(spans, start) && Starts(spans, start);
    assert Hidden(openers, closers, |text|, start) && Begins(openers, closers, |text|, start);
    ShownBegins(text, openers, closers, start);
    forall k: nat | start < k < stop
      ensures Hidden(openers, closers, |text|, k) && !Begins(openers, closers, |text|, k)
    {
      assert Covered(spans, k);
      NoStartInside(spans, |text|, s, k);
    }
    ShownHidden(text, openers, closers, start + 1, stop);
    Associative(text[cursor..start], " ", Shown(text, openers, closers, stop));
  }

  lemma ShownBegins(text: string, openers: seq<Tag>, closers: map<string, seq<Tag>>, p: nat)
    requires Tagged(openers, closers, |text|) && p < |text|
    requires Hidden(openers, closers, |text|, p) && Begins(openers, closers, |text|, p)
    ensures Shown(text, openers, closers, p) == " " + Shown(text, openers, closers, p + 1)
  {
    hide Hidden, Begins, Tagged;
  }

  lemma Uncovered(spans: seq<Span>, end: nat, s: nat, k: nat)
    requires Ascending(spans, end) && s <= |spans|
    requires (if s == 0 then 0 else spans[s - 1].stop) <= k
    requires s < |spans| ==> k < spans[s].start
    ensures !Covered(spans, k) && !Starts(spans, k)
  {
    forall t | 0 <= t < |spans| ensures !(spans[t].start <= k < spans[t].stop) && spans[t].start != k {
      if t < s - 1 { assert spans[t].stop <= spans[s - 1].start; }
      if t > s { assert spans[s].stop <= spans[t].start; }
    }
  }

  lemma NoStartInside(spans: seq<Span>, end: nat, s: nat, k: nat)
    requires Ascending(spans, end) && s < |spans| && spans[s].start < k < spans[s].stop
    ensures !Starts(spans, k)
  {
    forall t | 0 <= t < |spans| ensures spans[t].start != k {
      if t < s { assert spans[t].stop <= spans[s].start; }
      if t > s { assert spans[s].stop <= spans[t].start; }
    }
  }

  /** `strip_non_rendered_elements`: what is not hidden, and a space for each hidden stretch. */
  method StripNonRendered(text: string, openers: seq<Tag>, closers: map<string, seq<Tag>>)
    returns (out: string)
    requires Tagged(openers, closers, |text|)
    ensures out == Shown(text, openers, closers, 0)
  {
    hide Tagged, Closure, Shown, Ascending;
    var spans := NonRenderedSpans(openers, closers, |text|);
    out := "";
    var cursor := 0;
    Within(openers, closers, |text|, spans);
    for s := 0 to |spans|
      invariant cursor == if s == 0 then 0 else spans[s - 1].stop
      invariant cursor <= |text|
      invariant Shown(text, openers, closers, 0) == out + Shown(text, openers, closers, cursor)
    {
      SpanShown(text, openers, closers, spans, s, cursor);
      var start, stop := spans[s].start, spans[s].stop;
      Associative(out, text[cursor..start] + " ", Shown(text, openers, closers, stop));
      out := out + (text[cursor..start] + " ");
      cursor := stop;
    }
    RestShown(text, openers, closers, spans, cursor);
    out := out + text[cursor..];
  }

  lemma Within(openers: seq<Tag>, closers: map<string, seq<Tag>>, end: nat, spans: seq<Span>)
    requires Tagged(openers, closers, end) && Closure(openers, closers, end, spans)
    ensures forall s :: 0 <= s < |spans| ==> spans[s].start < spans[s].stop <= end
  {
  }

  lemma RestShown(text: string, openers: seq<Tag>, closers: map<string, seq<Tag>>,
                  spans: seq<Span>, cursor: nat)
    requires Tagged(openers, closers, |text|) && Closure(openers, closers, |text|, spans)
    requires cursor == if spans == [] then 0 else spans[|spans| - 1].stop
    ensures cursor <= |text|
    ensures Shown(text, openers, closers, cursor) == text[cursor..]
  {
    hide Hidden, Begins, Tagged, Shown;
    forall k: nat | cursor <= k < |text|
      ensures !Hidden(openers, closers, |text|, k) && !Begins(openers, closers, |text|, k)
    {
      Uncovered(spans, |text|, |spans|, k);
    }
    ShownPlain(text, openers, closers, cursor, |text|);
    ShownAtEnd(text, openers, closers);
    assert text[cursor..|text|] == text[cursor..];
  }

  lemma ShownAtEnd(text: string, openers: seq<Tag>, closers: map<string, seq<Tag>>)
    requires Tagged(openers, closers, |text|)
    ensures Shown(text, openers, closers, |text|) == ""
  {
  }
}
