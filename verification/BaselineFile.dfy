/**
  * The baseline as a file: `render_baseline` and `load_baseline` of
  * scripts/check_python_quality.py. The content is the decoded text; the pinned blob
  * of the file is not part of this model.
  */
module BaselineFile {

  import opened Sequences
  import opened Wrappers
  import opened Whitespace
  import opened Ratchet
  import Decimal
  import TableSeparators

  // ----- Python's text operations ------------------------------------------

  function StripLeft(s: string): (r: string)
    ensures r != "" ==> !IsSpace(r[0])
  {
    if s != "" && IsSpace(s[0]) then StripLeft(s[1..]) else s
  }

  function StripRight(s: string): (r: string)
    ensures r <= s
    ensures s != "" && !IsSpace(s[0]) ==> r != ""
  {
    if s != "" && IsSpace(s[|s| - 1]) then StripRight(s[..|s| - 1]) else s
  }

  function Strip(s: string): (r: string)
    ensures r != "" ==> !IsSpace(r[0])
  {
    StripRight(StripLeft(s))
  }

  function WordLength(s: string): (n: nat)
    ensures n <= |s| && (s != "" && !IsSpace(s[0]) ==> n > 0)
    ensures forall i :: 0 <= i < n ==> !IsSpace(s[i])
  {
    if s == "" || IsSpace(s[0]) then 0 else 1 + WordLength(s[1..])
  }

  /** `str.split()`. */
  function Words(s: string): (r: seq<string>)
    decreases |s|
  {
    if s == "" then []
    else if IsSpace(s[0]) then Words(s[1..])
    else [s[..WordLength(s)]] + Words(s[WordLength(s)..])
  }

  /** `content.replace("\r\n", "\n")`. */
  function UnixLines(s: string): string {
    if s == "" then ""
    else if |s| > 1 && s[0] == '\r' && s[1] == '\n' then "\n" + UnixLines(s[2..])
    else [s[0]] + UnixLines(s[1..])
  }

  function WithoutBreak(raw: string): string {
    if |raw| > 1 && raw[|raw| - 2] == '\r' && raw[|raw| - 1] == '\n' then raw[..|raw| - 2]
    else if raw != "" && TableSeparators.IsLineBreak(raw[|raw| - 1]) then raw[..|raw| - 1]
    else raw
  }

  /** `str.splitlines()`. */
  function SplitLines(s: string): seq<string>
    decreases |s|
  {
    if s == "" then []
    else
      var n := TableSeparators.LineLength(s);
      [WithoutBreak(s[..n])] + SplitLines(s[n..])
  }

  /** `"\n".join(lines)`. */
  function JoinLines(lines: seq<string>): string {
    if lines == [] then "" else if |lines| == 1 then lines[0]
    else lines[0] + "\n" + JoinLines(lines[1..])
  }

  // ----- Writing -----------------------------------------------------------

  /** The comment lines that open the file; their wording does not matter. */
  predicate Comments(notes: seq<string>) {
    forall i :: 0 <= i < |notes| ==> notes[i] != "" && notes[i][0] == '#' && NoBreaks(notes[i])
  }

  predicate NoBreaks(s: string) {
    forall i :: 0 <= i < |s| ==> !TableSeparators.IsLineBreak(s[i])
  }

  function Header(notes: seq<string>): seq<string> { notes + [""] }

  function RowText(key: string, value: nat): string { key + " " + Decimal.Print(value) }

  function Rows(measured: Table, order: seq<string>): seq<string>
    requires forall k :: k in order ==> k in measured
  {
    if order == [] then []
    else
      var key := order[|order| - 1];
      Rows(measured, order[..|order| - 1])
      + if measured[key] >= Threshold(key) then [RowText(key, measured[key])] else []
  }

  ghost predicate Rendered(measured: Table, notes: seq<string>, text: string) {
    exists order :: Enumerates(order, measured.Keys)
      && text == JoinLines(Header(notes) + Rows(measured, order)) + "\n"
  }

  /** `render_baseline`. */
  method RenderBaseline(measured: Table, notes: seq<string>) returns (text: string)
    ensures Rendered(measured, notes, text)
  {
    hide Ordered, JoinLines;
    var order := SortedKeys(measured.Keys);
    var rows: seq<string> := [];
    for i := 0 to |order|
      invariant forall k :: k in order[..i] ==> k in measured
      invariant rows == Rows(measured, order[..i])
    {
      var key := order[i];
      assert order[..i + 1][..i] == order[..i];
      if measured[key] >= Threshold(key) {
        rows := rows + [RowText(key, measured[key])];
      }
    }
    assert order[..|order|] == order;
    text := JoinLines(Header(notes) + rows) + "\n";
  }

  // ----- Reading -----------------------------------------------------------

  datatype Line = Skipped | Row(key: string, value: nat) | Malformed

  function ReadLine(raw: string): Line {
    var line := Strip(raw);
    if line == "" || line[0] == '#' then Skipped
    else
      var parts := Words(line);
      if |parts| != 2 || !Decimal.AllDigits(parts[1]) then Malformed
      else Row(parts[0], Decimal.Parse(parts[1]))
  }

  /** The rows of a file, or the number of the first line that is not one. */
  function ReadRows(lines: seq<string>): Result<Table, nat> {
    if lines == [] then Ok(map[])
    else
      match ReadRows(lines[..|lines| - 1])
      case Err(number) => Err(number)
      case Ok(rows) =>
        match ReadLine(lines[|lines| - 1])
        case Skipped => Ok(rows)
        case Row(key, value) => Ok(rows[key := value])
        case Malformed => Err(|lines|)
  }

  function Loaded(content: string): Result<Table, nat> {
    ReadRows(SplitLines(UnixLines(content)))
  }

  /** `load_baseline`. */
  method LoadBaseline(content: string) returns (r: Result<Table, nat>)
    ensures r == Loaded(content)
  {
    hide ReadLine;
    var lines := SplitLines(UnixLines(content));
    var rows: Table := map[];
    for i := 0 to |lines|
      invariant ReadRows(lines[..i]) == Ok(rows)
    {
      assert lines[..i + 1][..i] == lines[..i];
      match ReadLine(lines[i]) {
        case Skipped =>
        case Row(key, value) => rows := rows[key := value];
        case Malformed =>
          FirstMalformed(lines, i + 1);
          return Err(i + 1);
      }
    }
    assert lines[..|lines|] == lines;
    return Ok(rows);
  }

  lemma {:induction false} FirstMalformed(lines: seq<string>, n: nat)
    requires n <= |lines| && ReadRows(lines[..n]).Err?
    ensures ReadRows(lines) == ReadRows(lines[..n])
    decreases |lines| - n
  {
    hide ReadLine;
    if n == |lines| {
      assert lines[..n] == lines;
    } else {
      assert lines[..n + 1][..n] == lines[..n];
      FirstMalformed(lines, n + 1);
    }
  }

  // ----- What can be written -----------------------------------------------

  /** A key that a row of the file can hold. */
  predicate Writable(key: string) {
    key != "" && key[0] != '#' && forall i :: 0 <= i < |key| ==> !IsSpace(key[i])
  }

  lemma {:induction false} ReadKeysWritable(lines: seq<string>)
    requires ReadRows(lines).Ok?
    ensures forall k :: k in ReadRows(lines).value ==> Writable(k)
  {
    hide ReadLine, Writable;
    if lines != [] {
      ReadKeysWritable(lines[..|lines| - 1]);
      if ReadLine(lines[|lines| - 1]).Row? { RowWritable(lines[|lines| - 1]); }
    }
  }

  lemma RowWritable(raw: string)
    requires ReadLine(raw).Row?
    ensures Writable(ReadLine(raw).key)
  {
    hide Strip;
    var line := Strip(raw);
    assert Words(line)[0] == line[..WordLength(line)];
    assert Words(line)[0][0] == line[0];
  }

  // ----- Reading back what was written -------------------------------------

  lemma {:induction false} LineLengthFound(line: string, rest: string)
    requires NoBreaks(line)
    ensures TableSeparators.LineLength(line + ("\n" + rest)) == |line| + 1
  {
    var s := line + ("\n" + rest);
    if line == "" {
      assert s == "\n" + rest;
    } else {
      assert s[1..] == line[1..] + ("\n" + rest);
      assert s[0] == line[0];
      LineLengthFound(line[1..], rest);
    }
  }

  lemma SplitFirst(line: string, rest: string)
    requires NoBreaks(line)
    ensures SplitLines(line + ("\n" + rest)) == [line] + SplitLines(rest)
  {
    hide SplitLines, TableSeparators.LineLength;
    var s := line + ("\n" + rest);
    LineLengthFound(line, rest);
    SplitStep(s);
    assert s[..|line| + 1] == line + "\n";
    assert s[|line| + 1..] == rest;
    var raw := line + "\n";
    assert raw[..|raw| - 1] == line;
    if |raw| > 1 { assert raw[|raw| - 2] == line[|line| - 1]; }
  }

  lemma SplitStep(s: string)
    requires s != ""
    ensures var n := TableSeparators.LineLength(s);
            SplitLines(s) == [WithoutBreak(s[..n])] + SplitLines(s[n..])
  {
    hide TableSeparators.LineLength, WithoutBreak;
  }

  lemma {:induction false} SplitJoined(lines: seq<string>)
    requires lines != [] && forall i :: 0 <= i < |lines| ==> NoBreaks(lines[i])
    ensures SplitLines(JoinLines(lines) + "\n") == lines
  {
    hide NoBreaks, SplitLines;
    var rest := if |lines| == 1 then "" else JoinLines(lines[1..]) + "\n";
    if |lines| == 1 {
      assert "\n" + rest == "\n";
    } else {
      Associative(lines[0], "\n", JoinLines(lines[1..]));
      Associative(lines[0], "\n" + JoinLines(lines[1..]), "\n");
      Associative("\n", JoinLines(lines[1..]), "\n");
    }
    assert JoinLines(lines) + "\n" == lines[0] + ("\n" + rest);
    SplitFirst(lines[0], rest);
    if |lines| == 1 {
      assert SplitLines("") == [] by { SplitNothing(); }
    } else {
      SplitJoined(lines[1..]);
      assert lines == [lines[0]] + lines[1..];
    }
  }

  lemma SplitNothing()
    ensures SplitLines("") == []
  {
  }

  lemma {:induction false} UnixUnchanged(s: string)
    requires forall i :: 0 <= i < |s| ==> s[i] != '\r'
    ensures UnixLines(s) == s
  {
    if s != "" {
      UnixUnchanged(s[1..]);
      assert s == [s[0]] + s[1..];
    }
  }

  lemma {:induction false} JoinedNoReturns(lines: seq<string>)
    requires forall i :: 0 <= i < |lines| ==> NoBreaks(lines[i])
    ensures forall i :: 0 <= i < |JoinLines(lines)| ==> JoinLines(lines)[i] != '\r'
  {
    if |lines| == 1 {
      assert NoBreaks(lines[0]);
    } else if |lines| > 1 {
      JoinedNoReturns(lines[1..]);
      assert NoBreaks(lines[0]);
      var head, tail := lines[0] + "\n", JoinLines(lines[1..]);
      forall i | 0 <= i < |head + tail| ensures (head + tail)[i] != '\r' {
        if i < |head| { assert (head + tail)[i] == head[i]; } else { assert (head + tail)[i] == tail[i - |head|]; }
      }
    }
  }

  /** A file of lines without line breaks is read line by line. */
  lemma LoadedLines(lines: seq<string>)
    requires lines != [] && forall i :: 0 <= i < |lines| ==> NoBreaks(lines[i])
    ensures Loaded(JoinLines(lines) + "\n") == ReadRows(lines)
  {
    hide NoBreaks, JoinLines, SplitLines, ReadRows, UnixLines;
    JoinedNoReturns(lines);
    UnixUnchanged(JoinLines(lines) + "\n");
    SplitJoined(lines);
  }

  // ----- One row -----------------------------------------------------------

  lemma {:induction false} WordFound(word: string, rest: string)
    requires forall i :: 0 <= i < |word| ==> !IsSpace(word[i])
    requires rest == "" || IsSpace(rest[0])
    ensures WordLength(word + rest) == |word|
  {
    var s := word + rest;
    if word == "" {
      assert s == rest;
    } else {
      assert s[1..] == word[1..] + rest;
      assert s[0] == word[0];
      WordFound(word[1..], rest);
    }
  }

  lemma DigitsNotSpace(s: string)
    requires Decimal.AllDigits(s)
    ensures forall i :: 0 <= i < |s| ==> !IsSpace(s[i])
  {
    forall i | 0 <= i < |s| ensures !IsSpace(s[i]) {
      assert Decimal.IsDigit(s[i]);
    }
  }

  lemma WordsOfOne(word: string)
    requires word != "" && forall i :: 0 <= i < |word| ==> !IsSpace(word[i])
    ensures Words(word) == [word]
  {
    WordFound(word, "");
    assert word + "" == word;
    assert word[..|word|] == word && word[|word|..] == "";
  }

  lemma WordsOfTwo(a: string, b: string)
    requires a != "" && forall i :: 0 <= i < |a| ==> !IsSpace(a[i])
    requires b != "" && forall i :: 0 <= i < |b| ==> !IsSpace(b[i])
    ensures Words(a + (" " + b)) == [a, b]
  {
    hide IsSpace;
    var s := a + (" " + b);
    assert IsSpace(' ') by { BlankIsSpace(); }
    WordFound(a, " " + b);
    assert s[0] == a[0] && s[..|a|] == a && s[|a|..] == " " + b;
    assert Words(" " + b) == Words(b) by { assert (" " + b)[1..] == b; }
    WordsOfOne(b);
  }

  lemma BlankIsSpace()
    ensures IsSpace(' ')
  {
  }

  lemma StripUnchanged(s: string)
    requires s != "" && !IsSpace(s[0]) && !IsSpace(s[|s| - 1])
    ensures Strip(s) == s
  {
  }

  lemma RowReadBack(key: string, value: nat)
    requires Writable(key)
    ensures ReadLine(RowText(key, value)) == Row(key, value)
    ensures NoBreaks(RowText(key, value))
  {
    hide Words, Strip, IsSpace, TableSeparators.IsLineBreak;
    var digits := Decimal.Print(value);
    DigitsNotSpace(digits);
    WordsOfTwo(key, digits);
    var s := RowText(key, value);
    assert s == key + (" " + digits);
    assert s[0] == key[0] && s[|s| - 1] == digits[|digits| - 1];
    StripUnchanged(s);
    Decimal.ParsePrint(value);
    forall i | 0 <= i < |s| ensures !TableSeparators.IsLineBreak(s[i]) {
      assert s[i] == if i < |key| then key[i] else if i == |key| then ' ' else digits[i - |key| - 1];
      BreaksAreSpace(s[i]);
    }
  }

  /** Every line break is white space, and no line breaks at a blank. */
  lemma BreaksAreSpace(c: char)
    ensures TableSeparators.IsLineBreak(c) ==> IsSpace(c) && c != ' '
  {
  }

  // ----- The whole file ----------------------------------------------------

  /** The debt among the keys of a list. */
  function DebtOf(measured: Table, order: seq<string>): Table
    requires forall k :: k in order ==> k in measured
  {
    map k | k in order && measured[k] >= Threshold(k) :: measured[k]
  }

  lemma {:induction false} CommentsSkipped(notes: seq<string>)
    requires Comments(notes)
    ensures ReadRows(notes) == Ok(map[])
  {
    hide ReadLine, NoBreaks;
    if notes != [] {
      CommentsSkipped(notes[..|notes| - 1]);
      CommentSkipped(notes[|notes| - 1]);
    }
  }

  lemma HeaderSkipped(notes: seq<string>)
    requires Comments(notes)
    ensures ReadRows(Header(notes)) == Ok(map[])
    ensures forall i :: 0 <= i < |Header(notes)| ==> NoBreaks(Header(notes)[i])
  {
    hide IsSpace;
    CommentsSkipped(notes);
    assert Header(notes)[..|notes|] == notes;
    assert ReadLine("") == Skipped;
  }

  lemma NotSpaces()
    ensures !IsSpace('#')
  {
  }

  lemma CommentSkipped(s: string)
    requires s != "" && s[0] == '#'
    ensures ReadLine(s) == Skipped
  {
    NotSpaces();
  }

  /** One line more, read. */
  lemma ReadOneMore(before: seq<string>, line: string)
    requires ReadRows(before).Ok? && ReadLine(line).Row?
    ensures ReadRows(before + [line])
         == Ok(ReadRows(before).value[ReadLine(line).key := ReadLine(line).value])
  {
    hide ReadLine;
    assert (before + [line])[..|before|] == before;
  }

  lemma DebtGrows(measured: Table, init: seq<string>, key: string)
    requires forall k :: k in init + [key] ==> k in measured
    ensures forall k :: k in init ==> k in measured
    ensures DebtOf(measured, init + [key])
         == if measured[key] >= Threshold(key) then DebtOf(measured, init)[key := measured[key]]
            else DebtOf(measured, init)
  {
    hide Threshold;
    forall k | k in init ensures k in measured { assert k in init + [key]; }
    if measured[key] < Threshold(key) && key in init { assert key !in DebtOf(measured, init); }
  }

  lemma {:induction false} RowsReadBack(measured: Table, notes: seq<string>, order: seq<string>)
    requires Comments(notes)
    requires forall k :: k in order ==> k in measured
    requires forall k :: k in order && measured[k] >= Threshold(k) ==> Writable(k)
    ensures ReadRows(Header(notes) + Rows(measured, order)) == Ok(DebtOf(measured, order))
    ensures forall i :: 0 <= i < |Rows(measured, order)| ==> NoBreaks(Rows(measured, order)[i])
  {
    hide ReadLine, ReadRows, NoBreaks, Threshold, Writable, DebtOf, Header, RowText;
    if order == [] {
      HeaderSkipped(notes);
      assert Header(notes) + Rows(measured, order) == Header(notes);
      assert DebtOf(measured, order) == map[] by { NoDebt(measured); }
    } else {
      var init, key := order[..|order| - 1], order[|order| - 1];
      assert order == init + [key];
      DebtGrows(measured, init, key);
      RowsReadBack(measured, notes, init);
      if measured[key] >= Threshold(key) {
        var row := RowText(key, measured[key]);
        RowReadBack(key, measured[key]);
        ReadOneMore(Header(notes) + Rows(measured, init), row);
        assert Header(notes) + Rows(measured, order) == (Header(notes) + Rows(measured, init)) + [row];
      } else {
        assert Rows(measured, order) == Rows(measured, init);
      }
    }
  }

  lemma NoDebt(measured: Table)
    ensures DebtOf(measured, []) == map[]
  {
  }

  /**
    * Reading back what was written gives the debt exactly when every key in debt can
    * be written: not empty, no white space in it, no `#` before it.
    */
  lemma RoundTripExactly(measured: Table, notes: seq<string>, text: string)
    requires Comments(notes) && Rendered(measured, notes, text)
    ensures Loaded(text) == Ok(Debt(measured))
       <==> forall k :: k in Debt(measured) ==> Writable(k)
  {
    hide ReadRows, JoinLines, NoBreaks, Writable, Ordered, Threshold, Rows, Comments;
    var order :| Enumerates(order, measured.Keys)
      && text == JoinLines(Header(notes) + Rows(measured, order)) + "\n";
    if forall k :: k in Debt(measured) ==> Writable(k) {
      RowsReadBack(measured, notes, order);
      HeaderSkipped(notes);
      LoadedLines(Header(notes) + Rows(measured, order));
      assert DebtOf(measured, order) == Debt(measured);
    }
    if Loaded(text) == Ok(Debt(measured)) {
      ReadKeysWritable(SplitLines(UnixLines(text)));
    }
  }

  /** So a baseline written from a tree passes on that tree exactly for such keys. */
  lemma WrittenBaselinePasses(measured: Table, notes: seq<string>, text: string, problems: seq<Problem>)
    requires Comments(notes) && Rendered(measured, notes, text)
    requires Loaded(text).Ok? ==> Reports(measured, Loaded(text).value, problems)
    ensures Loaded(text).Ok? && problems == []
       <==> forall k :: k in Debt(measured) ==> Writable(k)
  {
    hide Rendered, Reports, Loaded, Writable, Debt;
    RoundTripExactly(measured, notes, text);
    if Loaded(text).Ok? { PassesExactly(measured, Loaded(text).value, problems); }
  }

  /** A key with a blank in it, at the limit: the baseline written for it does not pass. */
  lemma BlankInKey(notes: seq<string>, text: string, problems: seq<Problem>)
    requires Comments(notes) && Rendered(map["a b" := 500], notes, text)
    requires Loaded(text).Ok? ==> Reports(map["a b" := 500], Loaded(text).value, problems)
    ensures !(Loaded(text).Ok? && problems == [])
  {
    hide Rendered, Reports, Loaded;
    var measured := map["a b" := 500];
    assert ':' !in "a b";
    assert "a b" in Debt(measured);
    assert IsSpace("a b"[1]);
    assert !Writable("a b");
    WrittenBaselinePasses(measured, notes, text, problems);
  }
}
