/**
  * The physical lines of a text as `str.splitlines` makes them (scripts/gfm_table.py), and
  * the separators of its tables, said of the characters.
  */
module TableLines {

  import opened GfmLines
  import opened GfmTables
  import opened TableSeparators

  /** The code points at which Python ends a line. */
  predicate EndsLine(c: char) {
    c as int in {0x0A, 0x0B, 0x0C, 0x0D, 0x1C, 0x1D, 0x1E, 0x85, 0x2028, 0x2029}
  }

  /** A line ends before `e`: carriage return and line feed are not parted. */
  predicate Terminates(s: string, e: nat) {
    0 < e <= |s| && EndsLine(s[e - 1]) && !(s[e - 1] == '\r' && e < |s| && s[e] == '\n')
  }

  lemma BreaksExactly(c: char)
    ensures IsLineBreak(c) <==> EndsLine(c)
  {
  }

  lemma TerminatesTail(s: string, n: nat, e: nat)
    requires n <= |s| && e > 0
    ensures Terminates(s[n..], e) <==> Terminates(s, n + e)
  {
  }

  /** The first line of a text ends at the first place that terminates one. */
  lemma {:induction false} FirstLine(s: string)
    requires s != ""
    ensures LineLength(s) == |s| || Terminates(s, LineLength(s))
    ensures forall m :: 0 < m < LineLength(s) ==> !Terminates(s, m)
  {
    hide EndsLine;
    BreaksExactly(s[0]);
    if s[0] == '\r' && |s| > 1 && s[1] == '\n' {
      BreaksExactly('\n');
      BreaksExactly('\r');
    } else if !IsLineBreak(s[0]) && |s| > 1 {
      FirstLine(s[1..]);
      forall m | 0 < m <= LineLength(s) ensures m > 1 ==> (Terminates(s, m) <==> Terminates(s[1..], m - 1)) {
        if m > 1 { TerminatesTail(s, 1, m - 1); }
      }
    } else {
      assert IsLineBreak(s[0]) ==> LineLength(s) == 1;
    }
  }

  /** The characters of a line without a line feed, a carriage return, or both, at its end. */
  function Body(raw: string): string {
    if |raw| > 1 && raw[|raw| - 2] == '\r' && raw[|raw| - 1] == '\n' then raw[..|raw| - 2]
    else if raw != "" && (raw[|raw| - 1] == '\n' || raw[|raw| - 1] == '\r') then raw[..|raw| - 1]
    else raw
  }

  lemma NothingTrimmed(s: string, c: char)
    requires s != "" ==> s[|s| - 1] != c
    ensures TrimRight(s, c) == s
  {
  }

  /** Of one line only its terminator is trimmed. */
  lemma BodyExactly(raw: string)
    requires raw != "" && forall m :: 0 < m < |raw| ==> !Terminates(raw, m)
    ensures Unterminated(raw) == Body(raw)
  {
    var n := |raw|;
    assert n > 1 ==> !Terminates(raw, n - 1);
    assert n > 2 ==> !Terminates(raw, n - 2);
    BreaksExactly('\n');
    BreaksExactly('\r');
    if raw[n - 1] == '\n' {
      NothingTrimmed(raw[..n - 1], '\n');
      if n > 1 && raw[n - 2] == '\r' {
        NothingTrimmed(raw[..n - 2], '\r');
      } else {
        NothingTrimmed(raw[..n - 1], '\r');
      }
    } else {
      NothingTrimmed(raw, '\n');
      if raw[n - 1] == '\r' { NothingTrimmed(raw[..n - 1], '\r'); } else { NothingTrimmed(raw, '\r'); }
    }
  }

  /** `l` is one line of the text: from its start to the next place where a line ends. */
  ghost predicate IsLine(text: string, l: Line, facts: Recognizer) {
    && l.start < l.end <= |text| && (l.end == |text| || Terminates(text, l.end))
    && (forall m :: l.start < m < l.end ==> !Terminates(text, m))
    && l.text == Body(text[l.start..l.end]) && l.facts == facts(l.text)
  }

  lemma LineAtExactly(text: string, offset: nat, facts: Recognizer)
    requires offset < |text|
    ensures IsLine(text, LineAt(text, offset, facts), facts)
  {
    hide LineLength, Unterminated, Body, EndsLine;
    var rest := text[offset..];
    var n := LineLength(rest);
    FirstLine(rest);
    forall m | 0 < m <= n ensures Terminates(rest, m) <==> Terminates(text, offset + m) {
      TerminatesTail(text, offset, m);
    }
    var raw := text[offset..offset + n];
    assert raw == rest[..n];
    forall m | 0 < m < n ensures !Terminates(raw, m) { Inner(rest, n, m); }
    BodyExactly(raw);
    forall m | offset < m < offset + n ensures !Terminates(text, m) { assert !Terminates(rest, m - offset); }
  }

  lemma Inner(s: string, n: nat, m: nat)
    requires n <= |s| && 0 < m < n && !Terminates(s, m)
    ensures !Terminates(s[..n], m)
  {
    hide EndsLine;
  }

  /** The lines are those of the text, one after the other. */
  lemma {:induction false} LinesExactly(text: string, offset: nat, facts: Recognizer)
    requires offset <= |text|
    ensures var lines := LinesFrom(text, offset, facts);
            forall k :: 0 <= k < |lines| ==> IsLine(text, lines[k], facts)
    decreases |text| - offset
  {
    hide IsLine, LineAt;
    if offset < |text| {
      LineAtExactly(text, offset, facts);
      var l := LineAt(text, offset, facts);
      LinesExactly(text, l.end, facts);
      assert LinesFrom(text, offset, facts) == [l] + LinesFrom(text, l.end, facts);
    }
  }

  /** A pipe of a row with no backslash right before it, or the end of a row that has one. */
  predicate Divides(text: string, l: Line, p: nat) {
    || (l.start <= p < |text| && p < l.start + |l.text| && text[p] == '|' && (p > l.start ==> text[p - 1] != '\\'))
    || (l.start + |l.text| < l.end && p + 1 == l.end)
  }

  /** The index holds just these offsets of the tables' lines. */
  lemma SeparatorsWritten(text: string, facts: Recognizer, p: nat)
    ensures p in SeparatorIndex(LinesOf(text, facts))
       <==> exists s, k :: s in Spans(LinesOf(text, facts), true) && s.start <= k < s.end
                           && k < |LinesOf(text, facts)| && Divides(text, LinesOf(text, facts)[k], p)
  {
    hide SeparatorIndex, Partition, LinesFrom, LineText, SeparatesIn, Divides, Scan;
    var lines := LinesOf(text, facts);
    LinesPartition(text, 0, facts);
    SeparatorsExact(text, lines);
    forall k | 0 <= k < |lines| ensures SeparatesIn(lines[k], p) <==> Divides(text, lines[k], p) {
      LineInText(text, lines, k);
      DividesExactly(text, lines[k], p);
    }
  }

  lemma LineInText(text: string, lines: seq<Line>, k: nat)
    requires Partition(text, 0, lines) && k < |lines|
    ensures LineText(text, lines[k])
  {
  }

  lemma DividesExactly(text: string, l: Line, p: nat)
    requires LineText(text, l)
    ensures SeparatesIn(l, p) <==> Divides(text, l, p)
  {
    assert forall j :: 0 <= j < |l.text| ==> l.text[j] == text[l.start..l.end][j] == text[l.start + j];
  }
}
