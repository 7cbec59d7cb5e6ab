/**
  * The rows of a baseline as they are written and read (scripts/check_python_quality.py),
  * character by character.
  */
module BaselinePatterns {

  import opened Sequences
  import opened Wrappers
  import opened Whitespace
  import opened Ratchet
  import opened BaselineFile
  import Decimal

  // ----- Reading a line ----------------------------------------------------

  predicate Spaces(s: string) { forall i :: 0 <= i < |s| ==> IsSpace(s[i]) }

  predicate Solid(s: string) { s != "" && forall i :: 0 <= i < |s| ==> !IsSpace(s[i]) }

  predicate Digits(s: string) { s != "" && forall i :: 0 <= i < |s| ==> '0' <= s[i] <= '9' }

  /** White space, a key, white space, digits, white space. */
  predicate RowParts(raw: string, a: string, key: string, b: string, digits: string, c: string) {
    && Spaces(a) && Solid(key) && key[0] != '#' && b != "" && Spaces(b) && Digits(digits) && Spaces(c)
    && raw == a + (key + (b + (digits + c)))
  }

  ghost predicate IsRow(raw: string, key: string, value: nat) {
    exists a, b, digits, c :: RowParts(raw, a, key, b, digits, c) && Decimal.Parse(digits) == value
  }

  /** Nothing but white space, or a hash sign after white space. */
  ghost predicate IsIgnored(raw: string) {
    Spaces(raw) || exists a, rest :: Spaces(a) && raw == a + ("#" + rest)
  }

  lemma OneMoreSpace(s: string, a: string, rest: string)
    requires s != "" && IsSpace(s[0]) && Spaces(a) && s[1..] == a + rest
    ensures Spaces([s[0]] + a) && s == ([s[0]] + a) + rest
  {
    hide IsSpace;
    assert s == [s[0]] + s[1..];
    Associative([s[0]], a, rest);
  }

  lemma {:induction false} LeftFound(s: string) returns (a: string)
    ensures Spaces(a) && s == a + StripLeft(s)
  {
    hide IsSpace, Spaces, StripLeft;
    LeftStep(s);
    if s != "" && IsSpace(s[0]) {
      var more := LeftFound(s[1..]);
      OneMoreSpace(s, more, StripLeft(s));
      a := [s[0]] + more;
    } else {
      a := "";
      assert Spaces("") by { NoSpaces(); }
    }
  }

  lemma LeftStep(s: string)
    ensures if s != "" && IsSpace(s[0]) then StripLeft(s) == StripLeft(s[1..]) else StripLeft(s) == s
  {
    hide IsSpace;
  }

  lemma NoSpaces()
    ensures Spaces("")
  {
  }

  lemma {:induction false} RightFound(s: string) returns (c: string)
    ensures Spaces(c) && s == StripRight(s) + c
    ensures StripRight(s) != "" ==> !IsSpace(StripRight(s)[|StripRight(s)| - 1])
  {
    hide IsSpace;
    if s != "" && IsSpace(s[|s| - 1]) {
      var more := RightFound(s[..|s| - 1]);
      c := more + [s[|s| - 1]];
      assert s == s[..|s| - 1] + [s[|s| - 1]];
    } else {
      c := "";
      assert s == s + "";
    }
  }

  lemma {:induction false} LeftOf(a: string, s: string)
    requires Spaces(a) && (s != "" ==> !IsSpace(s[0]))
    ensures StripLeft(a + s) == s
  {
    hide IsSpace;
    if a == "" {
      assert a + s == s;
    } else {
      assert (a + s)[1..] == a[1..] + s;
      LeftOf(a[1..], s);
    }
  }

  lemma {:induction false} RightOf(s: string, c: string)
    requires Spaces(c) && (s != "" ==> !IsSpace(s[|s| - 1]))
    ensures StripRight(s + c) == s
  {
    hide IsSpace;
    if c == "" {
      assert s + c == s;
    } else {
      assert (s + c)[..|s + c| - 1] == s + c[..|c| - 1];
      RightOf(s, c[..|c| - 1]);
    }
  }

  /** Stripping takes the white space off both ends. */
  lemma StripFound(raw: string) returns (a: string, c: string)
    ensures Spaces(a) && Spaces(c) && raw == a + (Strip(raw) + c)
    ensures Strip(raw) != "" ==> !IsSpace(Strip(raw)[0]) && !IsSpace(Strip(raw)[|Strip(raw)| - 1])
  {
    hide StripLeft, StripRight;
    a := LeftFound(raw);
    c := RightFound(StripLeft(raw));
  }

  lemma StripOf(a: string, s: string, c: string)
    requires Spaces(a) && Spaces(c) && s != "" && !IsSpace(s[0]) && !IsSpace(s[|s| - 1])
    ensures Strip(a + (s + c)) == s
  {
    hide StripLeft, StripRight;
    LeftOf(a, s + c);
    RightOf(s, c);
  }

  lemma NothingLeft(raw: string)
    requires Spaces(raw)
    ensures Strip(raw) == ""
  {
    hide StripLeft, StripRight;
    LeftOf(raw, "");
    assert raw + "" == raw;
    RightOf("", "");
    assert "" + "" == "";
  }

  // ----- Words -------------------------------------------------------------

  lemma {:induction false} WordIs(w: string, s: string)
    requires (forall i :: 0 <= i < |w| ==> !IsSpace(w[i])) && (s != "" ==> IsSpace(s[0]))
    ensures WordLength(w + s) == |w|
  {
    hide IsSpace;
    if w == "" {
      assert w + s == s;
    } else {
      assert (w + s)[1..] == w[1..] + s;
      WordIs(w[1..], s);
    }
  }

  lemma WordFirst(w: string, s: string)
    requires Solid(w) && (s != "" ==> IsSpace(s[0]))
    ensures Words(w + s) == [w] + Words(s)
  {
    hide WordLength;
    WordIs(w, s);
    assert (w + s)[..|w|] == w && (w + s)[|w|..] == s;
  }

  lemma {:induction false} SpacesFirst(b: string, s: string)
    requires Spaces(b)
    ensures Words(b + s) == Words(s)
  {
    hide IsSpace;
    if b == "" {
      assert b + s == s;
    } else {
      assert (b + s)[1..] == b[1..] + s;
      SpacesFirst(b[1..], s);
    }
  }

  lemma TwoWords(key: string, b: string, digits: string)
    requires Solid(key) && b != "" && Spaces(b) && Solid(digits)
    ensures Words(key + (b + digits)) == [key, digits]
  {
    hide Words;
    WordFirst(key, b + digits);
    SpacesFirst(b, digits);
    WordFirst(digits, "");
    assert digits + "" == digits;
    assert Words("") == [] by { NoWords(); }
  }

  lemma NoWords()
    ensures Words("") == []
  {
  }

  lemma {:induction false} WordLengthStops(s: string)
    ensures WordLength(s) < |s| ==> IsSpace(s[WordLength(s)])
  {
    if s != "" && !IsSpace(s[0]) { WordLengthStops(s[1..]); }
  }

  lemma WordsStep(s: string)
    requires s != "" && !IsSpace(s[0])
    ensures var n := WordLength(s);
            && 0 < n <= |s| && Solid(s[..n]) && (n < |s| ==> IsSpace(s[n])) && Words(s) == [s[..n]] + Words(s[n..])
  {
    WordLengthStops(s);
  }

  lemma {:induction false} SpacesSkipped(s: string) returns (b: string, t: string)
    ensures s == b + t && Spaces(b) && (t != "" ==> !IsSpace(t[0])) && Words(s) == Words(t)
  {
    hide IsSpace;
    if s != "" && IsSpace(s[0]) {
      var more;
      more, t := SpacesSkipped(s[1..]);
      b := [s[0]] + more;
      assert s == [s[0]] + s[1..];
    } else {
      b, t := "", s;
      assert s == "" + s;
    }
  }

  /** A stripped line of two words. */
  lemma TwoFound(line: string) returns (b: string)
    requires line != "" && !IsSpace(line[0]) && !IsSpace(line[|line| - 1]) && |Words(line)| == 2
    ensures Solid(Words(line)[0]) && b != "" && Spaces(b) && Solid(Words(line)[1])
    ensures line == Words(line)[0] + (b + Words(line)[1]) && Words(line)[0][0] == line[0]
  {
    hide IsSpace, Words, WordLength;
    WordsStep(line);
    var n := WordLength(line);
    var t;
    b, t := SpacesSkipped(line[n..]);
    assert line == line[..n] + line[n..];
    NoWords();
    assert t != "";
    WordsStep(t);
    var m := WordLength(t);
    assert t == t[..m] + t[m..];
    var d, u := SpacesSkipped(t[m..]);
    if u != "" {
      WordsStep(u);
      assert false;
    }
    assert t[m..] == d;
    if d != "" { assert false; }
    assert b != "";
  }

  // ----- What a line is ----------------------------------------------------

  lemma RowRead(raw: string, a: string, key: string, b: string, digits: string, c: string)
    requires RowParts(raw, a, key, b, digits, c)
    ensures ReadLine(raw) == Row(key, Decimal.Parse(digits))
  {
    hide IsSpace, Words, Strip;
    DigitsSolid(digits);
    var line := key + (b + digits);
    assert raw == a + (line + c);
    assert line[|line| - 1] == digits[|digits| - 1];
    StripOf(a, line, c);
    TwoWords(key, b, digits);
  }

  lemma DigitsSolid(digits: string)
    requires Digits(digits)
    ensures Solid(digits) && Decimal.AllDigits(digits)
  {
  }

  lemma RowFound(raw: string, key: string, value: nat)
    requires ReadLine(raw) == Row(key, value)
    ensures IsRow(raw, key, value)
  {
    hide IsSpace, Words, Strip;
    var a, c := StripFound(raw);
    var line := Strip(raw);
    var b := TwoFound(line);
    assert raw == a + (Words(line)[0] + (b + (Words(line)[1] + c)));
    assert RowParts(raw, a, key, b, Words(line)[1], c);
  }

  lemma IgnoredRead(raw: string)
    requires IsIgnored(raw)
    ensures ReadLine(raw) == Skipped
  {
    hide Words, StripLeft, StripRight;
    if Spaces(raw) {
      NothingLeft(raw);
    } else {
      var a, rest :| Spaces(a) && raw == a + ("#" + rest);
      LeftOf(a, "#" + rest);
      var c := RightFound("#" + rest);
      assert Strip(raw)[0] == ("#" + rest)[0];
    }
  }

  lemma IgnoredFound(raw: string)
    requires ReadLine(raw) == Skipped
    ensures IsIgnored(raw)
  {
    hide IsSpace, Words, Strip;
    var a, c := StripFound(raw);
    var line := Strip(raw);
    if line == "" {
      assert raw == a + c;
    } else {
      assert line == "#" + line[1..];
      assert raw == a + ("#" + (line[1..] + c));
    }
  }

  /** A line is a row, or it is ignored, or it stops the reading. */
  lemma LineExactly(raw: string, key: string, value: nat)
    ensures ReadLine(raw) == Row(key, value) <==> IsRow(raw, key, value)
    ensures ReadLine(raw) == Skipped <==> IsIgnored(raw)
  {
    hide ReadLine, IsIgnored, Spaces, Solid;
    if ReadLine(raw) == Row(key, value) { RowFound(raw, key, value); }
    if IsRow(raw, key, value) {
      var a, b, digits, c :| RowParts(raw, a, key, b, digits, c) && Decimal.Parse(digits) == value;
      RowRead(raw, a, key, b, digits, c);
    }
    if ReadLine(raw) == Skipped { IgnoredFound(raw); }
    if IsIgnored(raw) { IgnoredRead(raw); }
  }

  /** Line `i` is the last row of the key, and holds this value. */
  ghost predicate LastRow(lines: seq<string>, i: nat, key: string, value: nat) {
    i < |lines| && IsRow(lines[i], key, value) && forall j, v: nat :: i < j < |lines| ==> !IsRow(lines[j], key, v)
  }

  predicate Records(rows: Table, key: string, value: nat) { key in rows && rows[key] == value }

  ghost predicate HasMeaning(raw: string) {
    IsIgnored(raw) || exists key, value: nat :: IsRow(raw, key, value)
  }

  lemma MeaningExactly(raw: string)
    ensures ReadLine(raw) == Malformed <==> !HasMeaning(raw)
  {
    hide ReadLine, IsRow, IsIgnored;
    LineExactly(raw, "", 0);
    forall key, value: nat ensures ReadLine(raw) == Row(key, value) <==> IsRow(raw, key, value) {
      LineExactly(raw, key, value);
    }
  }

  /** The table holds the last row of each key; the reading stops at the first line that is neither row nor ignored. */
  lemma {:induction false} RowsExactly(lines: seq<string>)
    ensures match ReadRows(lines)
            case Ok(rows) =>
              && (forall i :: 0 <= i < |lines| ==> HasMeaning(lines[i]))
              && forall key, value: nat :: Records(rows, key, value) <==> exists i: nat :: LastRow(lines, i, key, value)
            case Err(n) =>
              && 1 <= n <= |lines| && !HasMeaning(lines[n - 1])
              && forall i :: 0 <= i < n - 1 ==> HasMeaning(lines[i])
  {
    hide ReadLine, IsRow, IsIgnored, HasMeaning, LastRow;
    if lines != [] {
      var init, last := lines[..|lines| - 1], lines[|lines| - 1];
      RowsExactly(init);
      MeaningExactly(last);
      if ReadRows(lines).Ok? {
        forall key, value: nat
          ensures Records(ReadRows(lines).value, key, value) <==> exists i: nat :: LastRow(lines, i, key, value)
        {
          assert lines == init + [last];
          LastRowMore(init, last, key, value);
          RecordsMore(lines, key, value);
        }
      }
    } else {
      forall key, value: nat, i: nat ensures !LastRow(lines, i, key, value) { NoLastRow(i, key, value); }
    }
  }

  lemma RecordsMore(lines: seq<string>, key: string, value: nat)
    requires lines != [] && ReadRows(lines).Ok?
    ensures var init, line := ReadRows(lines[..|lines| - 1]), ReadLine(lines[|lines| - 1]);
            && init.Ok?
            && (Records(ReadRows(lines).value, key, value)
                <==> if line.Row? && line.key == key then line.value == value else Records(init.value, key, value))
  {
    hide ReadLine;
  }

  lemma NoLastRow(i: nat, key: string, value: nat)
    ensures !LastRow([], i, key, value)
  {
  }

  lemma LastRowMore(init: seq<string>, last: string, key: string, value: nat)
    ensures ReadLine(last).Row? && ReadLine(last).key == key ==>
              ((exists i: nat :: LastRow(init + [last], i, key, value)) <==> ReadLine(last).value == value)
    ensures !(ReadLine(last).Row? && ReadLine(last).key == key) ==>
              ((exists i: nat :: LastRow(init + [last], i, key, value))
               <==> exists i: nat :: LastRow(init, i, key, value))
  {
    hide ReadLine, IsRow, IsIgnored;
    var lines, n := init + [last], |init|;
    forall v: nat ensures IsRow(last, key, v) <==> ReadLine(last) == Row(key, v) { LineExactly(last, key, v); }
    assert lines[n] == last;
    if ReadLine(last).Row? && ReadLine(last).key == key {
      var v := ReadLine(last).value;
      assert IsRow(lines[n], key, v);
      assert LastRow(lines, n, key, v);
      if i: nat :| LastRow(lines, i, key, value) { assert i == n; }
    } else {
      assert forall v: nat :: !IsRow(lines[n], key, v);
      if i: nat :| LastRow(lines, i, key, value) {
        assert i < n && lines[i] == init[i];
        assert forall j :: i < j < n ==> lines[j] == init[j];
        assert LastRow(init, i, key, value);
      }
      if i: nat :| LastRow(init, i, key, value) {
        assert lines[i] == init[i];
        forall j, v: nat | i < j < |lines| ensures !IsRow(lines[j], key, v) {
          if j < n { assert lines[j] == init[j]; }
        }
        assert LastRow(lines, i, key, value);
      }
    }
  }

  // ----- The file that is written ------------------------------------------

  /** Each line with its line feed. */
  function Terminated(lines: seq<string>): string {
    if lines == [] then "" else lines[0] + "\n" + Terminated(lines[1..])
  }

  lemma {:induction false} JoinedTerminated(lines: seq<string>)
    requires lines != []
    ensures JoinLines(lines) + "\n" == Terminated(lines)
  {
    if |lines| == 1 {
      assert lines[1..] == [];
      assert lines[0] + "\n" + "" == lines[0] + "\n";
    } else {
      JoinedTerminated(lines[1..]);
      Associative(lines[0] + "\n", JoinLines(lines[1..]), "\n");
    }
  }

  /** The rows of the keys, in their order: the key, a space, and the value in digits. */
  ghost predicate RowsOf(measured: Table, keys: seq<string>, rows: seq<string>) {
    && |rows| == |keys|
    && forall i :: 0 <= i < |keys| ==> keys[i] in measured && PrintsRow(rows[i], keys[i], measured[keys[i]])
  }

  ghost predicate PrintsRow(row: string, key: string, value: nat) {
    exists digits :: Digits(digits) && Decimal.Parse(digits) == value && row == key + (" " + digits)
  }

  /** The keys at or above their published limit, by code point, each once. */
  ghost predicate InDebt(measured: Table, keys: seq<string>) {
    Ordered(keys) && forall k :: k in keys <==> k in measured && measured[k] >= Limit(k)
  }

  lemma {:induction false} RowsPrinted(measured: Table, order: seq<string>) returns (keys: seq<string>)
    requires Ordered(order) && forall k :: k in order ==> k in measured
    ensures RowsOf(measured, keys, Rows(measured, order)) && Ordered(keys)
    ensures forall k :: k in keys <==> k in order && measured[k] >= Limit(k)
  {
    hide Precedes, PrintsRow, RowText, Threshold, Limit;
    if order == [] {
      keys := [];
    } else {
      var init, last := order[..|order| - 1], order[|order| - 1];
      assert order == init + [last];
      keys := RowsPrinted(measured, init);
      assert Threshold(last) == Limit(last) by { SameLimit(last); }
      if measured[last] >= Limit(last) {
        RowPrinted(last, measured[last]);
        forall k | k in init ensures Precedes(k, last) {
          var j :| 0 <= j < |init| && init[j] == k;
          assert order[j] == k && order[|order| - 1] == last;
        }
        OneMoreRow(measured, keys, Rows(measured, init), last, RowText(last, measured[last]));
        keys := keys + [last];
      }
    }
  }

  lemma SameLimit(key: string)
    ensures Threshold(key) == Limit(key)
  {
  }

  lemma OneMoreRow(measured: Table, keys: seq<string>, rows: seq<string>, last: string, row: string)
    requires RowsOf(measured, keys, rows) && Ordered(keys) && (forall k :: k in keys ==> Precedes(k, last))
    requires last in measured && PrintsRow(row, last, measured[last])
    ensures RowsOf(measured, keys + [last], rows + [row]) && Ordered(keys + [last])
  {
    hide Precedes, PrintsRow;
    forall i | 0 <= i < |keys| ensures Precedes(keys[i], last) { assert keys[i] in keys; }
  }

  lemma RowPrinted(key: string, value: nat)
    ensures PrintsRow(RowText(key, value), key, value)
  {
    var digits := Decimal.Print(value);
    Decimal.ParsePrint(value);
    assert Digits(digits);
    assert key + " " + digits == key + (" " + digits);
  }

  /** The file is the comment lines, an empty line, and a row for each key in debt, each with its line feed. */
  lemma RenderedExactly(measured: Table, notes: seq<string>, text: string)
    requires Rendered(measured, notes, text)
    ensures exists keys, rows ::
              InDebt(measured, keys) && RowsOf(measured, keys, rows) && text == Terminated(notes + [""] + rows)
  {
    hide Precedes, PrintsRow, JoinLines;
    var order :| Enumerates(order, measured.Keys)
      && text == JoinLines(Header(notes) + Rows(measured, order)) + "\n";
    var keys := RowsPrinted(measured, order);
    var rows := Rows(measured, order);
    JoinedTerminated(Header(notes) + rows);
    assert InDebt(measured, keys) && RowsOf(measured, keys, rows);
  }
}
