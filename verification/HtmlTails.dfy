/**
  * The tail of a link as the comment stripper reads it (scripts/check_verity_provenance.py):
  * blanks, destination, blanks, title, blanks and a parenthesis, said without its scans.
  */
module HtmlTails {

  import opened Wrappers
  import opened HtmlScan
  import opened HtmlConstructs
  import opened HtmlPatterns

  // ----- The parts ---------------------------------------------------------

  predicate IsBlank(c: char) { c == ' ' || c == '\t' }

  predicate IsSpace(c: char) { c == ' ' || c == '\t' || c == '\n' }

  /** All blanks from `j` to `r`, and no more of them. */
  predicate PastBlanks(t: string, j: nat, r: nat) {
    j <= r <= |t| && (forall k :: j <= k < r ==> IsBlank(t[k])) && (r < |t| ==> !IsBlank(t[r]))
  }

  /** The same, with line ends. */
  predicate PastSpace(t: string, j: nat, r: nat) {
    j <= r <= |t| && (forall k :: j <= k < r ==> IsSpace(t[k])) && (r < |t| ==> !IsSpace(t[r]))
  }

  /** Open parentheses of the stretch less the closed ones. */
  function Balance(t: string, j: nat, k: nat): int
    requires j <= k <= |t|
  {
    multiset(t[j..k])['('] as int - multiset(t[j..k])[')'] as int
  }

  /** A bare destination stops here: at a space, or at a parenthesis of somebody else. */
  predicate Stops(t: string, j: nat, k: nat)
    requires j <= k < |t|
  {
    Balance(t, j, k) == 0 && (IsSpace(t[k]) || t[k] == ')')
  }

  /** In angle brackets up to the first one that closes, or to a line end; else up to the first stop. */
  predicate DestinationAt(t: string, j: nat, d: nat) {
    j <= d <= |t| &&
    if j < |t| && t[j] == '<' then
      && j < d
      && (forall k :: j < k < d - 1 ==> t[k] != '>' && t[k] != '\n')
      && (if d - 1 > j && t[d - 1] == '>' then true
          else (d - 1 > j ==> t[d - 1] != '\n') && (d < |t| ==> t[d] == '\n'))
    else (forall k :: j <= k < d ==> !Stops(t, j, k)) && (d < |t| ==> Stops(t, j, d))
  }

  predicate OpensTitle(c: char) { c == '"' || c == '\'' || c == '(' }

  /** What closes a title. */
  function Closing(c: char): char { if c == '(' then ')' else c }

  /** A line end with only blanks after it on the next line. */
  predicate BlankLineAt(t: string, m: nat) {
    m < |t| && t[m] == '\n' && exists r :: m < r <= |t| && PastBlanks(t, m + 1, r) && (r == |t| || t[r] == '\n')
  }

  /** The title whose interior begins at `j` ends at `e`: the first unescaped closing mark, with no blank
      line and no parenthesis inside a parenthesized title before it. */
  predicate TitleTo(t: string, j: nat, e: nat, opener: char) {
    && j <= e < |t| && Live(t, e, Closing(opener))
    && (forall m :: j <= m < e ==> !Live(t, m, Closing(opener)) && !BlankLineAt(t, m))
    && (opener == '(' ==> forall m :: j <= m < e ==> !Live(t, m, '('))
  }

  /** Either no title stands at `j`, or one that ends before `m`; its interior prints line ends only. */
  predicate TitleAt(t: string, j: nat, m: nat, shown: string) {
    if j < |t| && OpensTitle(t[j]) then
      && j < m && TitleTo(t, j + 1, m - 1, t[j])
      && shown == [t[j]] + LineEnds(t[j + 1..m - 1]) + [Closing(t[j])]
    else m == j && shown == ""
  }

  /** The tail of the `]` at `i`, part by part: it ends before `e` and prints `out`. */
  predicate TailParts(t: string, i: nat, a: nat, d: nat, b: nat, m: nat, shown: string, k: nat, e: nat, out: string) {
    && PastSpace(t, i + 2, a) && DestinationAt(t, a, d) && PastSpace(t, d, b)
    && TitleAt(t, b, m, shown) && PastBlanks(t, m, k)
    && k < |t| && t[k] == ')' && e == k + 1 && out == t[i..b] + shown + t[m..e]
  }

  /** Some reading of the parts gives the tail. */
  ghost predicate IsTail(t: string, i: nat, e: nat, out: string) {
    exists a: nat, d: nat, b: nat, m: nat, shown, k: nat :: TailParts(t, i, a, d, b, m, shown, k, e, out)
  }

  // ----- Blanks ------------------------------------------------------------

  lemma {:induction false} SpaceSkipped(t: string, j: nat)
    requires j <= |t|
    ensures PastSpace(t, j, SkipSpace(t, j))
    decreases |t| - j
  {
    if j < |t| && t[j] in " \t\n" { SpaceSkipped(t, j + 1); }
  }

  lemma {:induction false} BlankSkipped(t: string, j: nat)
    requires j <= |t|
    ensures PastBlanks(t, j, SkipBlank(t, j))
    decreases |t| - j
  {
    if j < |t| && t[j] in " \t" { BlankSkipped(t, j + 1); }
  }

  /** There is one such place. */
  lemma SpaceExactly(t: string, j: nat, r: nat)
    requires j <= |t|
    ensures PastSpace(t, j, r) <==> r == SkipSpace(t, j)
  {
    SpaceSkipped(t, j);
    if PastSpace(t, j, r) {
      OneSpaceEnd(t, j, r, SkipSpace(t, j));
    }
  }

  lemma OneSpaceEnd(t: string, j: nat, r: nat, s: nat)
    requires PastSpace(t, j, r) && PastSpace(t, j, s)
    ensures r == s
  {
  }

  lemma OneBlankEnd(t: string, j: nat, r: nat, s: nat)
    requires PastBlanks(t, j, r) && PastBlanks(t, j, s)
    ensures r == s
  {
  }

  lemma BlankExactly(t: string, j: nat, r: nat)
    requires j <= |t|
    ensures PastBlanks(t, j, r) <==> r == SkipBlank(t, j)
  {
    BlankSkipped(t, j);
    if PastBlanks(t, j, r) {
      OneBlankEnd(t, j, r, SkipBlank(t, j));
    }
  }

  // ----- Destinations ------------------------------------------------------

  lemma {:induction false} AngleStops(t: string, j: nat)
    requires j <= |t|
    ensures forall k :: j <= k < AngleStop(t, j) ==> t[k] != '>' && t[k] != '\n'
    ensures AngleStop(t, j) < |t| ==> t[AngleStop(t, j)] == '>' || t[AngleStop(t, j)] == '\n'
    decreases |t| - j
  {
    if j < |t| && t[j] != '>' && t[j] != '\n' { AngleStops(t, j + 1); }
  }

  lemma BalanceMore(t: string, j: nat, k: nat)
    requires j <= k < |t|
    ensures Balance(t, j, k + 1)
         == Balance(t, j, k) + (if t[k] == '(' then 1 else if t[k] == ')' then -1 else 0)
  {
    assert t[j..k + 1] == t[j..k] + [t[k]];
  }

  lemma {:induction false} BareStops(t: string, j: nat, k: nat)
    requires j <= k <= |t| && forall m :: j <= m < k ==> !Stops(t, j, m)
    ensures var d := BareStop(t, k, Balance(t, j, k));
            && (forall m :: j <= m < d ==> !Stops(t, j, m))
            && (d < |t| ==> Stops(t, j, d))
    decreases |t| - k
  {
    hide Balance;
    if k < |t| && !Stops(t, j, k) {
      BalanceMore(t, j, k);
      BareStops(t, j, k + 1);
    }
  }

  lemma DestinationFound(t: string, j: nat)
    requires j <= |t|
    ensures DestinationAt(t, j, DestinationEnd(t, j))
  {
    hide Balance, AngleStop, BareStop, Stops;
    if j < |t| && t[j] == '<' {
      AngleStops(t, j + 1);
    } else {
      assert Balance(t, j, j) == 0 by { NoneYet(t, j); }
      BareStops(t, j, j);
    }
  }

  lemma NoneYet(t: string, j: nat)
    requires j <= |t|
    ensures Balance(t, j, j) == 0
  {
    assert t[j..j] == "";
  }

  lemma OneDestination(t: string, j: nat, d: nat, e: nat)
    requires DestinationAt(t, j, d) && DestinationAt(t, j, e)
    ensures d <= e
  {
    hide Stops;
    if e < d {
      if j < |t| && t[j] == '<' { OneAngle(t, j, d, e); }
    }
  }

  lemma OneAngle(t: string, j: nat, d: nat, e: nat)
    requires j < |t| && t[j] == '<' && DestinationAt(t, j, d) && DestinationAt(t, j, e)
    ensures d <= e
  {
  }

  lemma DestinationExactly(t: string, j: nat, d: nat)
    requires j <= |t|
    ensures DestinationAt(t, j, d) <==> d == DestinationEnd(t, j)
  {
    hide DestinationEnd, DestinationAt;
    DestinationFound(t, j);
    if DestinationAt(t, j, d) {
      OneDestination(t, j, d, DestinationEnd(t, j));
      OneDestination(t, j, DestinationEnd(t, j), d);
    }
  }

  // ----- Titles ------------------------------------------------------------

  lemma BlankLineExactly(t: string, m: nat)
    requires m < |t|
    ensures BlankLineAt(t, m) <==> t[m] == '\n' && BlankAfter(t, m + 1)
  {
    var r := SkipBlank(t, m + 1);
    BlankExactly(t, m + 1, r);
    if BlankLineAt(t, m) {
      var s :| m < s <= |t| && PastBlanks(t, m + 1, s) && (s == |t| || t[s] == '\n');
      BlankExactly(t, m + 1, s);
    }
  }

  lemma GoesOnExactly(t: string, m: nat, opener: char)
    requires m < |t|
    ensures GoesOn(t, m, opener)
       <==> !Live(t, m, Closing(opener)) && !BlankLineAt(t, m) && (opener == '(' ==> !Live(t, m, '('))
  {
    hide Live, BlankAfter, BlankLineAt;
    BlankLineExactly(t, m);
  }

  lemma TitleToExactly(t: string, j: nat, e: nat, opener: char)
    ensures TitleTo(t, j, e, opener) <==> TitleEnds(t, j, e, opener)
  {
    hide Live, BlankLineAt, GoesOn;
    if j <= e < |t| {
      forall m | j <= m < e
        ensures GoesOn(t, m, opener)
           <==> !Live(t, m, Closing(opener)) && !BlankLineAt(t, m) && (opener == '(' ==> !Live(t, m, '('))
      {
        GoesOnExactly(t, m, opener);
      }
    }
  }

  /** The title read at `j` is the one that stands there. */
  lemma TitleExactly(t: string, j: nat, m: nat, shown: string)
    requires j <= |t|
    ensures TitleAt(t, j, m, shown) <==> Title(t, j) == Some(Piece(m, shown))
  {
    hide TitleRest, TitleTo, TitleEnds, OnlyNewlines, LineEnds;
    if j < |t| && OpensTitle(t[j]) {
      if j + 1 < m <= |t| {
        TitleToExactly(t, j + 1, m - 1, t[j]);
        TitleFormsExactly(t, j, m - 1);
        OnlyLineEnds(t[j + 1..m - 1]);
      }
      TitleInside(t, j, m, shown);
      if j + 1 < m <= |t| { ThreeParts(t[j], LineEnds(t[j + 1..m - 1])); }
      TitlePrints(t, j, m);
    }
  }

  lemma ThreeParts(c: char, lines: string)
    ensures [c] + lines + [Closing(c)] == [c] + (lines + [Closer(c)])
  {
  }

  lemma TitleInside(t: string, j: nat, m: nat, shown: string)
    requires j < |t| && OpensTitle(t[j])
    ensures TitleAt(t, j, m, shown) ==> j + 1 < m <= |t|
  {
    hide Live, BlankLineAt, LineEnds;
  }

  lemma TitlePrints(t: string, j: nat, m: nat)
    requires j < |t| && OpensTitle(t[j])
    ensures TitleRest(t, j + 1, t[j]).Some? ==>
              Title(t, j) == Some(Piece(TitleRest(t, j + 1, t[j]).value.after,
                                        [t[j]] + TitleRest(t, j + 1, t[j]).value.out))
    ensures TitleRest(t, j + 1, t[j]).None? ==> Title(t, j) == None
  {
    hide TitleRest;
  }

  // ----- The tail ----------------------------------------------------------

  lemma Ranges(t: string, j: nat, r: nat)
    ensures PastSpace(t, j, r) ==> j <= r <= |t|
    ensures PastBlanks(t, j, r) ==> j <= r <= |t|
    ensures DestinationAt(t, j, r) ==> j <= r <= |t|
  {
  }

  lemma PartsRead(t: string, i: nat, a: nat, d: nat, b: nat, m: nat, shown: string, k: nat, e: nat, out: string)
    requires i + 2 <= |t| && TailParts(t, i, a, d, b, m, shown, k, e, out)
    ensures LinkTail(t, i) == Some(Piece(e, out))
  {
    hide PastSpace, PastBlanks, DestinationAt, TitleAt, SkipSpace, SkipBlank, DestinationEnd, Title;
    Ranges(t, i + 2, a);
    Ranges(t, a, d);
    Ranges(t, d, b);
    Ranges(t, m, k);
    SpaceExactly(t, i + 2, a);
    DestinationExactly(t, a, d);
    SpaceExactly(t, d, b);
    assert b == TitleStart(t, i);
    TitleExactly(t, b, m, shown);
    BlankExactly(t, m, k);
  }

  lemma PartsFound(t: string, i: nat, e: nat, out: string)
    requires i + 2 <= |t| && LinkTail(t, i) == Some(Piece(e, out))
    ensures IsTail(t, i, e, out)
  {
    hide PastSpace, PastBlanks, DestinationAt, TitleAt, SkipSpace, SkipBlank, DestinationEnd, Title;
    var a := SkipSpace(t, i + 2);
    var d := DestinationEnd(t, a);
    var b := SkipSpace(t, d);
    assert b == TitleStart(t, i);
    SpaceExactly(t, i + 2, a);
    DestinationExactly(t, a, d);
    SpaceExactly(t, d, b);
    var title := Title(t, b).value;
    TitleExactly(t, b, title.after, title.out);
    var k := SkipBlank(t, title.after);
    BlankExactly(t, title.after, k);
    assert TailParts(t, i, a, d, b, title.after, title.out, k, e, out);
  }

  /** The tail the scan finds is the one that is written there, if any is. */
  lemma TailExactly(t: string, i: nat, e: nat, out: string)
    requires i + 2 <= |t|
    ensures IsTail(t, i, e, out) <==> LinkTail(t, i) == Some(Piece(e, out))
  {
    hide TailParts, LinkTail;
    if IsTail(t, i, e, out) {
      var a: nat, d: nat, b: nat, m: nat, shown, k: nat :| TailParts(t, i, a, d, b, m, shown, k, e, out);
      PartsRead(t, i, a, d, b, m, shown, k, e, out);
    }
    if LinkTail(t, i) == Some(Piece(e, out)) { PartsFound(t, i, e, out); }
  }
}
