/**
  * Tags and the tails of links as the comment stripper reads them
  * (scripts/check_verity_provenance.py), said without its scans.
  */
module HtmlPatterns {

  import opened Sequences
  import opened Wrappers
  import opened HtmlScan
  import opened HtmlConstructs

  // ----- Line ends ---------------------------------------------------------

  /** As many line ends as the stretch holds. */
  function LineEnds(s: string): (r: string)
    ensures |r| == multiset(s)['\n'] && forall i :: 0 <= i < |r| ==> r[i] == '\n'
  {
    seq(multiset(s)['\n'], _ => '\n')
  }

  lemma LineEndsFirst(s: string)
    requires s != ""
    ensures LineEnds(s) == (if s[0] == '\n' then "\n" else "") + LineEnds(s[1..])
  {
    var rest := s[1..];
    assert s == [s[0]] + rest;
    assert multiset(s) == multiset{s[0]} + multiset(rest);
  }

  lemma {:induction false} OnlyLineEnds(s: string)
    ensures OnlyNewlines(s) == LineEnds(s)
  {
    hide LineEnds;
    if s == "" {
      assert LineEnds("") == "" by { NoLineEnds(); }
    } else {
      OnlyLineEnds(s[1..]);
      LineEndsFirst(s);
    }
  }

  lemma NoLineEnds()
    ensures LineEnds("") == ""
  {
  }

  // ----- Tags --------------------------------------------------------------

  predicate IsQuote(c: char) { c == '"' || c == '\'' }

  /** The quote that is open at `k`, for attributes that begin at `from`. */
  function QuoteAt(t: string, from: nat, k: nat): Option<char>
    requires k <= |t|
  {
    if k <= from then None
    else
      var c := t[k - 1];
      match QuoteAt(t, from, k - 1)
      case Some(q) => if c == q then None else Some(q)
      case None => if IsQuote(c) then Some(c) else None
  }

  /** An angle bracket outside quoted values. */
  predicate Bracket(t: string, from: nat, k: nat) {
    from <= k < |t| && QuoteAt(t, from, k).None? && (t[k] == '<' || t[k] == '>')
  }

  predicate FirstBracket(t: string, from: nat, k: nat) {
    Bracket(t, from, k) && forall m :: from <= m < k ==> !Bracket(t, from, m)
  }

  /** A value in quotes from `q` to `s`. */
  predicate ValueAt(t: string, from: nat, q: nat, s: nat) {
    && from <= q < s < |t| && QuoteAt(t, from, q).None? && IsQuote(t[q])
    && t[s] == t[q] && forall m :: q < m < s ==> t[m] != t[q]
  }

  /** Inside a value that runs over a line end. */
  predicate Dropped(t: string, from: nat, k: nat) {
    exists q, s :: 0 <= q < k < s < |t| && ValueAt(t, from, q, s) && '\n' in t[q + 1..s]
  }

  /** The stretch without what is dropped. */
  function Shown(t: string, from: nat, j: nat, e: nat): string
    requires e <= |t|
    decreases e - j
  {
    if j >= e then "" else (if Dropped(t, from, j) then "" else [t[j]]) + Shown(t, from, j + 1, e)
  }

  /** What the attributes of a tag come to from `from` on: where the tag ends, or none. */
  ghost predicate TagEnds(t: string, from: nat, r: Option<nat>)
    requires from <= |t|
  {
    && (forall e: nat :: FirstBracket(t, from, e) ==> r == if t[e] == '>' then Some(e + 1) else None)
    && ((forall e: nat :: !FirstBracket(t, from, e)) ==>
          r == if QuoteAt(t, from, |t|).None? then Some(|t|) else None)
  }

  lemma {:induction false} QuoteHolds(t: string, from: nat, q: nat, m: nat)
    requires from <= q < m <= |t| && QuoteAt(t, from, q).None? && IsQuote(t[q])
    requires forall k :: q < k < m ==> t[k] != t[q]
    ensures QuoteAt(t, from, m) == Some(t[q])
  {
    if m > q + 1 { QuoteHolds(t, from, q, m - 1); }
  }

  lemma {:induction false} QuoteStopsFirst(t: string, j: nat, quote: char)
    requires j <= |t|
    ensures forall k :: j <= k < QuoteStop(t, j, quote) ==> t[k] != quote
    decreases |t| - j
  {
    if j < |t| && t[j] != quote { QuoteStopsFirst(t, j + 1, quote); }
  }

  /** Within a value only that value counts. */
  lemma DroppedInValue(t: string, from: nat, q: nat, s: nat, k: nat)
    requires ValueAt(t, from, q, s) && q <= k <= s
    ensures Dropped(t, from, k) <==> q < k < s && '\n' in t[q + 1..s]
  {
    if Dropped(t, from, k) {
      var a, b :| 0 <= a < k < b < |t| && ValueAt(t, from, a, b) && '\n' in t[a + 1..b];
      if a < q {
        if q < b { QuoteHolds(t, from, a, q); }
      } else if a > q {
        QuoteHolds(t, from, q, a);
      } else {
        SameEnd(t, from, q, s, b);
      }
    }
  }

  lemma SameEnd(t: string, from: nat, q: nat, s: nat, b: nat)
    requires ValueAt(t, from, q, s) && ValueAt(t, from, q, b)
    ensures s == b
  {
  }

  /** Outside values nothing is dropped. */
  lemma NotDropped(t: string, from: nat, k: nat)
    requires from <= k < |t| && QuoteAt(t, from, k).None?
    ensures !Dropped(t, from, k)
  {
    if Dropped(t, from, k) {
      var a, b :| 0 <= a < k < b < |t| && ValueAt(t, from, a, b) && '\n' in t[a + 1..b];
      QuoteHolds(t, from, a, k);
    }
  }

  lemma {:induction false} ShownWhole(t: string, from: nat, j: nat, e: nat)
    requires j <= e <= |t| && forall k :: j <= k < e ==> !Dropped(t, from, k)
    ensures Shown(t, from, j, e) == t[j..e]
    decreases e - j
  {
    hide Dropped;
    if j < e {
      ShownWhole(t, from, j + 1, e);
      assert t[j..e] == [t[j]] + t[j + 1..e];
    }
  }

  lemma {:induction false} ShownNone(t: string, from: nat, j: nat, e: nat)
    requires j <= e <= |t| && forall k :: j <= k < e ==> Dropped(t, from, k)
    ensures Shown(t, from, j, e) == ""
    decreases e - j
  {
    hide Dropped;
    if j < e {
      ShownNone(t, from, j + 1, e);
      assert "" + "" == "";
    }
  }

  lemma ShownStep(t: string, from: nat, j: nat, e: nat)
    requires j < e <= |t|
    ensures Shown(t, from, j, e) == (if Dropped(t, from, j) then "" else [t[j]]) + Shown(t, from, j + 1, e)
  {
    hide Dropped;
  }

  lemma ShownNothing(t: string, from: nat, j: nat)
    requires j <= |t|
    ensures Shown(t, from, j, j) == ""
  {
  }

  lemma {:induction false} ShownJoin(t: string, from: nat, i: nat, j: nat, e: nat)
    requires i <= j <= e <= |t|
    ensures Shown(t, from, i, e) == Shown(t, from, i, j) + Shown(t, from, j, e)
    decreases j - i
  {
    hide Dropped, Shown;
    if i < j {
      ShownJoin(t, from, i + 1, j, e);
      ShownStep(t, from, i, j);
      ShownStep(t, from, i, e);
      var c := if Dropped(t, from, i) then "" else [t[i]];
      Associative(c, Shown(t, from, i + 1, j), Shown(t, from, j, e));
    } else {
      ShownNothing(t, from, i);
      assert "" + Shown(t, from, j, e) == Shown(t, from, j, e);
    }
  }

  /** A value is printed whole on one line, as its two quotes over several. */
  lemma ValueShown(t: string, from: nat, q: nat, s: nat)
    requires ValueAt(t, from, q, s)
    ensures Shown(t, from, q, s + 1) == Value(t, q, s)
  {
    hide ValueAt, Dropped, Shown, QuoteAt;
    assert q < s < |t| by { ValueRange(t, from, q, s); }
    forall k | q <= k <= s ensures Dropped(t, from, k) <==> q < k < s && '\n' in t[q + 1..s] {
      DroppedInValue(t, from, q, s, k);
    }
    ShownJoin(t, from, q, q + 1, s + 1);
    ShownJoin(t, from, q + 1, s, s + 1);
    ShownWhole(t, from, q, q + 1);
    ShownWhole(t, from, s, s + 1);
    if '\n' in t[q + 1..s] { ShownNone(t, from, q + 1, s); } else { ShownWhole(t, from, q + 1, s); }
    assert t[s] == t[q] by { ValueRange(t, from, q, s); }
    assert t[q..q + 1] == [t[q]] && t[s..s + 1] == [t[s]];
    Associative([t[q]], Shown(t, from, q + 1, s), [t[s]]);
  }

  lemma ValueRange(t: string, from: nat, q: nat, s: nat)
    requires ValueAt(t, from, q, s)
    ensures from <= q < s < |t| && t[s] == t[q]
  {
  }

  /** Nothing but values and plain characters up to `j`. */
  ghost predicate Reached(t: string, from: nat, j: nat) {
    from <= j <= |t| && QuoteAt(t, from, j).None? && forall m :: from <= m < j ==> !Bracket(t, from, m)
  }

  ghost predicate TagRead(t: string, from: nat, j: nat, r: Option<Piece>)
    requires from <= |t|
  {
    match r
    case Some(p) => p.after <= |t| && TagEnds(t, from, Some(p.after)) && p.out == Shown(t, from, j, p.after)
    case None => TagEnds(t, from, None)
  }

  lemma BracketHere(t: string, from: nat, j: nat)
    requires Reached(t, from, j) && j < |t| && (t[j] == '<' || t[j] == '>')
    ensures TagEnds(t, from, if t[j] == '>' then Some(j + 1) else None)
  {
    hide QuoteAt;
    assert FirstBracket(t, from, j);
  }

  lemma NoBracket(t: string, from: nat)
    requires from <= |t| && forall m :: from <= m < |t| ==> !Bracket(t, from, m)
    ensures TagEnds(t, from, if QuoteAt(t, from, |t|).None? then Some(|t|) else None)
  {
    hide QuoteAt;
  }

  /** Past one character that is neither quote nor bracket. */
  lemma OneMore(t: string, from: nat, j: nat)
    requires Reached(t, from, j) && j < |t| && !IsQuote(t[j]) && t[j] != '<' && t[j] != '>'
    ensures Reached(t, from, j + 1)
  {
  }

  /** Past a value. */
  lemma PastValue(t: string, from: nat, j: nat, s: nat)
    requires Reached(t, from, j) && ValueAt(t, from, j, s)
    ensures Reached(t, from, s + 1)
  {
    forall m | j < m <= s ensures QuoteAt(t, from, m) == Some(t[j]) { QuoteHolds(t, from, j, m); }
    hide QuoteAt;
    forall m | from <= m < s + 1 ensures !Bracket(t, from, m) { if m == j { NotBoth(t[j]); } }
    assert QuoteAt(t, from, s + 1).None? by { QuoteCloses(t, from, s); }
  }

  lemma NotBoth(c: char)
    ensures IsQuote(c) ==> c != '<' && c != '>'
  {
  }

  lemma QuoteCloses(t: string, from: nat, s: nat)
    requires from <= s < |t| && QuoteAt(t, from, s) == Some(t[s])
    ensures QuoteAt(t, from, s + 1).None?
  {
  }

  /** A value that is never closed leaves no tag. */
  lemma NeverClosed(t: string, from: nat, j: nat)
    requires Reached(t, from, j) && j < |t| && IsQuote(t[j]) && forall m :: j < m < |t| ==> t[m] != t[j]
    ensures TagEnds(t, from, None)
  {
    forall m | j < m <= |t| ensures QuoteAt(t, from, m) == Some(t[j]) { QuoteHolds(t, from, j, m); }
    hide QuoteAt;
    forall m | from <= m < |t| ensures !Bracket(t, from, m) { if m == j { NotBoth(t[j]); } }
    NoBracket(t, from);
  }

  /** The attributes end where the first bracket outside values says, and print what is not dropped. */
  lemma {:induction false} TagRestExact(t: string, from: nat, j: nat)
    requires Reached(t, from, j)
    ensures TagRead(t, from, j, TagRest(t, j))
    decreases |t| - j
  {
    hide TagRest, QuoteStop, TagEnds, Shown, Value, Dropped, QuoteAt, ValueAt, Bracket;
    if j == |t| {
      TagRestEnd(t);
      NoBracket(t, from);
      ShownWhole(t, from, j, j);
    } else {
      TagRestStep(t, j);
      if IsQuote(t[j]) {
        var stop := QuoteStop(t, j + 1, t[j]);
        QuoteStopsFirst(t, j + 1, t[j]);
        if stop == |t| {
          NeverClosed(t, from, j);
        } else {
          assert ValueAt(t, from, j, stop) by { ValueFound(t, from, j, stop); }
          PastValue(t, from, j, stop);
          TagRestExact(t, from, stop + 1);
          ValueShown(t, from, j, stop);
          Joined(t, from, j, stop + 1, TagRest(t, stop + 1));
        }
      } else {
        NotDropped(t, from, j);
        ShownWhole(t, from, j, j + 1);
        assert t[j..j + 1] == [t[j]];
        if t[j] == '<' || t[j] == '>' {
          BracketHere(t, from, j);
        } else {
          OneMore(t, from, j);
          TagRestExact(t, from, j + 1);
          Joined(t, from, j, j + 1, TagRest(t, j + 1));
        }
      }
    }
  }

  lemma ValueFound(t: string, from: nat, j: nat, s: nat)
    requires Reached(t, from, j) && j < s < |t| && IsQuote(t[j]) && t[s] == t[j]
    requires forall m :: j < m < s ==> t[m] != t[j]
    ensures ValueAt(t, from, j, s)
  {
    hide QuoteAt;
  }

  lemma Joined(t: string, from: nat, i: nat, j: nat, rest: Option<Piece>)
    requires from <= i <= j <= |t| && TagRead(t, from, j, rest)
    requires rest.Some? ==> j <= rest.value.after
    ensures TagRead(t, from, i, Before(Shown(t, from, i, j), rest))
  {
    hide TagEnds, Shown;
    if rest.Some? { ShownJoin(t, from, i, j, rest.value.after); }
  }

  // ----- The whole tag -----------------------------------------------------

  predicate NameChar(c: char, alnum: char -> bool) { alnum(c) || c == '-' || c == ':' || c == '_' || c == '/' }

  /** The name of the tag at `i` reaches as far as its characters do. */
  predicate NameReaches(t: string, i: nat, from: nat, alnum: char -> bool) {
    && i < from <= |t| && (forall k :: i < k < from ==> NameChar(t[k], alnum))
    && (from < |t| ==> !NameChar(t[from], alnum))
  }

  lemma {:induction false} NameEndExact(t: string, j: nat, alnum: char -> bool)
    requires j <= |t|
    ensures forall k :: j <= k < NameEnd(t, j, alnum) ==> NameChar(t[k], alnum)
    ensures NameEnd(t, j, alnum) < |t| ==> !NameChar(t[NameEnd(t, j, alnum)], alnum)
    decreases |t| - j
  {
    if j < |t| && (alnum(t[j]) || t[j] in "-:_/") { NameEndExact(t, j + 1, alnum); }
  }

  /** The tag at `i`: name, attributes, and the end that `TagEnds` says, with only the dropped left out. */
  lemma TagExactly(t: string, i: nat, from: nat, alnum: char -> bool)
    requires i < |t| && NameReaches(t, i, from, alnum)
    ensures match Tag(t, i, alnum)
            case Some(p) =>
              from <= p.after <= |t| && TagEnds(t, from, Some(p.after))
              && p.out == t[i..from] + Shown(t, from, from, p.after)
            case None => TagEnds(t, from, None)
  {
    hide TagRest, NameEnd, TagEnds, Shown;
    NameEndExact(t, i + 1, alnum);
    var e := NameEnd(t, i + 1, alnum);
    assert e == from by { SameNameEnd(t, i, from, e, alnum); }
    assert Reached(t, from, from);
    TagRestExact(t, from, from);
  }

  lemma SameNameEnd(t: string, i: nat, a: nat, b: nat, alnum: char -> bool)
    requires NameReaches(t, i, a, alnum) && NameReaches(t, i, b, alnum)
    ensures a == b
  {
  }
}
