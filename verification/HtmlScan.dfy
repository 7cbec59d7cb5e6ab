/**
  * The scans inside `_strip_html_comments` (scripts/check_verity_provenance.py):
  * code spans, comments, tags and link tails. Each reads forward from an offset and
  * yields a piece: where it stopped and what it prints for the stretch it read.
  */
module HtmlScan {

  import opened Wrappers
  import opened Subsequences

  /** What one construct prints, and the offset after it. */
  datatype Piece = Piece(after: nat, out: string)

  // ----- Backslashes -------------------------------------------------------

  /** Length of the run of backslashes that ends just before `i`. */
  function BackslashRun(t: string, i: nat): nat
    requires i <= |t|
  {
    if i > 0 && t[i - 1] == '\\' then 1 + BackslashRun(t, i - 1) else 0
  }

  /** `_escaped_at`. */
  predicate EscapedAt(t: string, i: nat)
    requires i <= |t|
  {
    BackslashRun(t, i) % 2 == 1
  }

  method Escaped(t: string, i: nat) returns (escaped: bool)
    requires i <= |t|
    ensures escaped == EscapedAt(t, i)
  {
    var count := 0;
    var p := i - 1;
    while p >= 0 && t[p] == '\\'
      invariant -1 <= p < i
      invariant BackslashRun(t, i) == count + BackslashRun(t, p + 1)
    {
      count := count + 1;
      p := p - 1;
    }
    return count % 2 == 1;
  }

  /** A backslash that is not escaped escapes what follows it, and nothing else does. */
  lemma EscapesAlternate(t: string, i: nat)
    requires i < |t|
    ensures EscapedAt(t, i + 1) <==> t[i] == '\\' && !EscapedAt(t, i)
  {
  }

  // ----- Newlines ----------------------------------------------------------

  function Newlines(s: string): nat {
    if s == "" then 0 else (if s[0] == '\n' then 1 else 0) + Newlines(s[1..])
  }

  /** As many newlines as `s` has, and nothing else. */
  function OnlyNewlines(s: string): string {
    if s == "" then "" else (if s[0] == '\n' then "\n" else "") + OnlyNewlines(s[1..])
  }

  lemma {:induction false} NewlinesConcat(a: string, b: string)
    ensures Newlines(a + b) == Newlines(a) + Newlines(b)
  {
    if a == "" {
      assert a + b == b;
    } else {
      assert (a + b)[1..] == a[1..] + b;
      NewlinesConcat(a[1..], b);
    }
  }

  lemma {:induction false} OnlyNewlinesKept(s: string)
    ensures Newlines(OnlyNewlines(s)) == Newlines(s)
    ensures Subsequence(OnlyNewlines(s), s)
  {
    if s != "" {
      OnlyNewlinesKept(s[1..]);
      if s[0] == '\n' {
        NewlinesConcat("\n", OnlyNewlines(s[1..]));
        assert Newlines("\n") == 1 by { assert "\n"[1..] == ""; }
        assert OnlyNewlines(s)[1..] == OnlyNewlines(s[1..]);
      } else {
        assert OnlyNewlines(s) == OnlyNewlines(s[1..]);
        Weaken(OnlyNewlines(s), s);
      }
    }
  }

  lemma {:induction false} HasNewline(s: string)
    ensures '\n' in s <==> Newlines(s) > 0
  {
    if s != "" {
      HasNewline(s[1..]);
      assert '\n' in s <==> s[0] == '\n' || '\n' in s[1..];
    }
  }

  // ----- Code spans --------------------------------------------------------

  function RunEnd(t: string, j: nat): (r: nat)
    requires j <= |t|
    ensures j <= r <= |t| && (j < |t| && t[j] == '`' ==> j < r)
    decreases |t| - j
  {
    if j < |t| && t[j] == '`' then RunEnd(t, j + 1) else j
  }

  /** Where the first run of just that length begins. */
  function CloserFrom(t: string, k: nat, length: nat): (r: Option<nat>)
    requires k <= |t|
    ensures r.Some? ==> k <= r.value && r.value + length <= |t|
    decreases |t| - k
  {
    if k == |t| then None
    else if t[k] == '`' then
      var lo := RunEnd(t, k);
      if lo - k == length then Some(k) else CloserFrom(t, lo, length)
    else CloserFrom(t, k + 1, length)
  }

  /** A span on one line is kept; one over several keeps its newlines only. */
  function CodeSpan(t: string, i: nat): (p: Piece)
    requires i < |t| && t[i] == '`'
    ensures i < p.after <= |t|
  {
    var j := RunEnd(t, i);
    match CloserFrom(t, j, j - i)
    case None => Piece(j, t[i..j])
    case Some(k) =>
      var lo := k + (j - i);
      Piece(lo, if '\n' !in t[j..k] then t[i..lo] else OnlyNewlines(t[i..lo]))
  }

  method SkipRun(t: string, start: nat) returns (j: nat)
    requires start <= |t|
    ensures j == RunEnd(t, start)
  {
    j := start;
    while j < |t| && t[j] == '`'
      invariant start <= j <= |t| && RunEnd(t, start) == RunEnd(t, j)
    {
      j := j + 1;
    }
  }

  lemma CloserStep(t: string, k: nat, length: nat)
    requires k < |t|
    ensures CloserFrom(t, k, length)
         == if t[k] == '`' then
              (if RunEnd(t, k) - k == length then Some(k) else CloserFrom(t, RunEnd(t, k), length))
            else CloserFrom(t, k + 1, length)
  {
    hide RunEnd;
  }

  method ScanCodeSpan(t: string, i: nat) returns (after: nat, out: string)
    requires i < |t| && t[i] == '`'
    ensures Piece(after, out) == CodeSpan(t, i)
  {
    hide CloserFrom, RunEnd, OnlyNewlines;
    var j := SkipRun(t, i);
    var length := j - i;
    var k := j;
    while k < |t|
      invariant j <= k <= |t|
      invariant CloserFrom(t, j, length) == CloserFrom(t, k, length)
      decreases |t| - k
    {
      CloserStep(t, k, length);
      if t[k] == '`' {
        var lo := SkipRun(t, k);
        if lo - k == length {
          return lo, if '\n' !in t[j..k] then t[i..lo] else OnlyNewlines(t[i..lo]);
        }
        k := lo;
      } else {
        k := k + 1;
      }
    }
    NoCloser(t, length);
    return j, t[i..j];
  }

  lemma NoCloser(t: string, length: nat)
    ensures CloserFrom(t, |t|, length) == None
  {
  }

  // ----- Comments ----------------------------------------------------------

  predicate Begins(t: string, i: nat, mark: string) {
    i + |mark| <= |t| && t[i..i + |mark|] == mark
  }

  /** `text.find("-->", from)`. */
  function CommentEnd(t: string, from: nat): (r: Option<nat>)
    ensures r.Some? ==> from <= r.value && r.value + 3 <= |t|
    decreases |t| - from
  {
    if from >= |t| then None
    else if Begins(t, from, "-->") then Some(from)
    else CommentEnd(t, from + 1)
  }

  // ----- Tags --------------------------------------------------------------

  function NameEnd(t: string, j: nat, alnum: char -> bool): (r: nat)
    requires j <= |t|
    ensures j <= r <= |t|
    decreases |t| - j
  {
    if j < |t| && (alnum(t[j]) || t[j] in "-:_/") then NameEnd(t, j + 1, alnum) else j
  }

  function QuoteStop(t: string, j: nat, quote: char): (r: nat)
    requires j <= |t|
    ensures j <= r <= |t| && (r < |t| ==> t[r] == quote)
    decreases |t| - j
  {
    if j < |t| && t[j] != quote then QuoteStop(t, j + 1, quote) else j
  }

  /** The attributes: `None` when the tag is broken off; a value over several lines is dropped. */
  function TagRest(t: string, j: nat): (r: Option<Piece>)
    requires j <= |t|
    ensures r.Some? ==> j <= r.value.after <= |t|
    decreases |t| - j
  {
    if j == |t| then Some(Piece(j, ""))
    else if t[j] == '\"' || t[j] == '\'' then
      var stop := QuoteStop(t, j + 1, t[j]);
      if stop == |t| then None
      else Before(Value(t, j, stop), TagRest(t, stop + 1))
    else if t[j] == '>' then Some(Piece(j + 1, ">"))
    else if t[j] == '<' then None
    else Before([t[j]], TagRest(t, j + 1))
  }

  /** A quoted value as it is printed, from its opening quote at `j` to its closing one. */
  function Value(t: string, j: nat, stop: nat): string
    requires j < stop < |t|
  {
    var content := t[j + 1..stop];
    [t[j]] + (if '\n' in content then "" else content) + [t[j]]
  }

  function Before(s: string, r: Option<Piece>): (q: Option<Piece>)
    ensures q.Some? == r.Some? && (q.Some? ==> q.value.after == r.value.after)
  {
    match r case None => None case Some(p) => Some(Piece(p.after, s + p.out))
  }

  function Tag(t: string, i: nat, alnum: char -> bool): (r: Option<Piece>)
    requires i < |t|
    ensures r.Some? ==> i < r.value.after <= |t|
  {
    var j := NameEnd(t, i + 1, alnum);
    Before(t[i..j], TagRest(t, j))
  }

  /** Some quoted value of the tag runs over a line end. */
  predicate ValueSpansLines(t: string, j: nat)
    requires j <= |t|
    decreases |t| - j
  {
    j < |t|
    && if t[j] == '\"' || t[j] == '\'' then
         var stop := QuoteStop(t, j + 1, t[j]);
         stop < |t| && ('\n' in t[j + 1..stop] || ValueSpansLines(t, stop + 1))
       else t[j] != '>' && t[j] != '<' && ValueSpansLines(t, j + 1)
  }

  method SkipToQuote(t: string, start: nat, quote: char) returns (j: nat)
    requires start <= |t|
    ensures j == QuoteStop(t, start, quote)
  {
    j := start;
    while j < |t| && t[j] != quote
      invariant start <= j <= |t| && QuoteStop(t, start, quote) == QuoteStop(t, j, quote)
    {
      j := j + 1;
    }
  }

  method SkipName(t: string, start: nat, alnum: char -> bool) returns (j: nat)
    requires start <= |t|
    ensures j == NameEnd(t, start, alnum)
  {
    j := start;
    while j < |t| && (alnum(t[j]) || t[j] in "-:_/")
      invariant start <= j <= |t| && NameEnd(t, start, alnum) == NameEnd(t, j, alnum)
    {
      j := j + 1;
    }
  }

  lemma BeforeTwice(a: string, b: string, r: Option<Piece>)
    ensures Before(a, Before(b, r)) == Before(a + b, r)
  {
    if r.Some? { assert a + (b + r.value.out) == (a + b) + r.value.out; }
  }

  lemma TagRestStep(t: string, j: nat)
    requires j < |t|
    ensures TagRest(t, j)
         == if t[j] == '\"' || t[j] == '\'' then
              var stop := QuoteStop(t, j + 1, t[j]);
              if stop == |t| then None else Before(Value(t, j, stop), TagRest(t, stop + 1))
            else if t[j] == '>' then Some(Piece(j + 1, ">"))
            else if t[j] == '<' then None
            else Before([t[j]], TagRest(t, j + 1))
  {
  }

  method ScanTag(t: string, i: nat, alnum: char -> bool) returns (valid: bool, after: nat, out: string)
    requires i < |t|
    ensures (if valid then Some(Piece(after, out)) else None) == Tag(t, i, alnum)
  {
    hide TagRest, Before, Value;
    var j := SkipName(t, i + 1, alnum);
    out := t[i..j];
    while j < |t|
      invariant i < j <= |t|
      invariant Tag(t, i, alnum) == Before(out, TagRest(t, j))
      decreases |t| - j
    {
      TagRestStep(t, j);
      if t[j] == '\"' || t[j] == '\'' {
        var stop := SkipToQuote(t, j + 1, t[j]);
        if stop == |t| {
          BeforeNone(out);
          return false, i, "";
        }
        BeforeTwice(out, Value(t, j, stop), TagRest(t, stop + 1));
        out := out + Value(t, j, stop);
        j := stop + 1;
      } else if t[j] == '>' {
        BeforeSome(out, Piece(j + 1, ">"));
        return true, j + 1, out + ">";
      } else if t[j] == '<' {
        BeforeNone(out);
        return false, i, "";
      } else {
        BeforeTwice(out, [t[j]], TagRest(t, j + 1));
        out := out + [t[j]];
        j := j + 1;
      }
    }
    TagRestEnd(t);
    BeforeSome(out, Piece(j, ""));
    assert out + "" == out;
    return true, j, out;
  }

  lemma TagRestEnd(t: string)
    ensures TagRest(t, |t|) == Some(Piece(|t|, ""))
  {
  }

  lemma BeforeNone(s: string)
    ensures Before(s, None) == None
  {
  }

  lemma BeforeSome(s: string, p: Piece)
    ensures Before(s, Some(p)) == Some(Piece(p.after, s + p.out))
  {
  }

  // ----- Link tails --------------------------------------------------------

  function SkipSpace(t: string, j: nat): (r: nat)
    requires j <= |t|
    ensures j <= r <= |t|
    decreases |t| - j
  {
    if j < |t| && t[j] in " \t\n" then SkipSpace(t, j + 1) else j
  }

  function SkipBlank(t: string, j: nat): (r: nat)
    requires j <= |t|
    ensures j <= r <= |t|
    decreases |t| - j
  {
    if j < |t| && t[j] in " \t" then SkipBlank(t, j + 1) else j
  }

  function AngleStop(t: string, j: nat): (r: nat)
    requires j <= |t|
    ensures j <= r <= |t|
    decreases |t| - j
  {
    if j < |t| && t[j] != '>' && t[j] != '\n' then AngleStop(t, j + 1) else j
  }

  /** A bare destination ends at a blank or a `)` outside its own parentheses. */
  function BareStop(t: string, j: nat, depth: int): (r: nat)
    requires j <= |t|
    ensures j <= r <= |t|
    decreases |t| - j
  {
    if j == |t| || (depth == 0 && t[j] in " \t\n)") then j
    else BareStop(t, j + 1, if t[j] == '(' then depth + 1 else if t[j] == ')' then depth - 1 else depth)
  }

  function DestinationEnd(t: string, j: nat): (r: nat)
    requires j <= |t|
    ensures j <= r <= |t|
  {
    if j < |t| && t[j] == '<' then
      var k := AngleStop(t, j + 1);
      if k < |t| && t[k] == '>' then k + 1 else k
    else BareStop(t, j, 0)
  }

  /** Only blanks up to the end of the line, or of the text. */
  predicate BlankAfter(t: string, k: nat)
    requires k <= |t|
  {
    var m := SkipBlank(t, k);
    m == |t| || t[m] == '\n'
  }

  /** The title's interior: newlines are kept, the rest is not; `None` when it is not a title. */
  function TitleRest(t: string, j: nat, quote: char): (r: Option<Piece>)
    requires j <= |t|
    ensures r.Some? ==> j < r.value.after <= |t|
    decreases |t| - j
  {
    if j == |t| then None
    else if t[j] == '\\' then
      if j + 1 == |t| then None
      else if t[j + 1] == '\n' then
        if BlankAfter(t, j + 2) then None else Before("\n", TitleRest(t, j + 2, quote))
      else TitleRest(t, j + 2, quote)
    else if t[j] == Closer(quote) then Some(Piece(j + 1, [Closer(quote)]))
    else if t[j] == '(' && quote == '(' then None
    else if t[j] == '\n' then
      if BlankAfter(t, j + 1) then None else Before("\n", TitleRest(t, j + 1, quote))
    else TitleRest(t, j + 1, quote)
  }

  /** What opens a title. */
  predicate Delimiter(c: char) { c == '\"' || c == '\'' || c == '(' }

  function Closer(quote: char): char { if quote == '(' then ')' else quote }

  function Title(t: string, j: nat): (r: Option<Piece>)
    requires j <= |t|
    ensures r.Some? ==> j <= r.value.after <= |t|
  {
    if j < |t| && Delimiter(t[j]) then Before([t[j]], TitleRest(t, j + 1, t[j]))
    else Some(Piece(j, ""))
  }

  /** From the `]` at `i` with its `(`: the blanks, the destination and the blanks after it. */
  function TitleStart(t: string, i: nat): (r: nat)
    requires i + 2 <= |t|
    ensures i + 2 <= r <= |t|
  {
    SkipSpace(t, DestinationEnd(t, SkipSpace(t, i + 2)))
  }

  /** The end of a tail whose title is read: blanks and the `)`. */
  function TailEnd(t: string, title: Option<Piece>): (r: Option<Piece>)
    ensures r.Some? ==> title.Some? && title.value.after < r.value.after <= |t|
  {
    if title.None? || title.value.after > |t| then None
    else
      var p := title.value;
      var k := SkipBlank(t, p.after);
      if k < |t| && t[k] == ')' then Some(Piece(k + 1, p.out + t[p.after..k + 1])) else None
  }

  /** The whole tail, up to its `)`; whether a separator stands inside is asked separately. */
  function LinkTail(t: string, i: nat): (r: Option<Piece>)
    requires i + 2 <= |t|
    ensures r.Some? ==> i + 2 < r.value.after <= |t|
  {
    var j := TitleStart(t, i);
    TailEnd(t, Before(t[i..j], Title(t, j)))
  }

  /** A tail ends right after its closing parenthesis. */
  lemma TailEnds(t: string, i: nat)
    requires i + 2 <= |t|
    ensures LinkTail(t, i).Some? ==> t[LinkTail(t, i).value.after - 1] == ')'
  {
    hide TitleStart, Title, SkipBlank;
  }

  lemma CopyOne(into: string, t: string, start: nat, j: nat)
    requires start <= j < |t|
    ensures (into + t[start..j]) + [t[j]] == into + t[start..j + 1]
  {
    assert t[start..j + 1] == t[start..j] + [t[j]];
  }

  method CopySpace(t: string, start: nat, into: string) returns (j: nat, buffer: string)
    requires start <= |t|
    ensures j == SkipSpace(t, start) && buffer == into + t[start..j]
  {
    j, buffer := start, into;
    while j < |t| && t[j] in " \t\n"
      invariant start <= j <= |t| && SkipSpace(t, start) == SkipSpace(t, j)
      invariant buffer == into + t[start..j]
    {
      CopyOne(into, t, start, j);
      buffer := buffer + [t[j]];
      j := j + 1;
    }
  }

  method CopyBlank(t: string, start: nat, into: string) returns (j: nat, buffer: string)
    requires start <= |t|
    ensures j == SkipBlank(t, start) && buffer == into + t[start..j]
  {
    j, buffer := start, into;
    while j < |t| && t[j] in " \t"
      invariant start <= j <= |t| && SkipBlank(t, start) == SkipBlank(t, j)
      invariant buffer == into + t[start..j]
    {
      CopyOne(into, t, start, j);
      buffer := buffer + [t[j]];
      j := j + 1;
    }
  }

  method CopyAngle(t: string, start: nat, into: string) returns (j: nat, buffer: string)
    requires start <= |t|
    ensures j == AngleStop(t, start) && buffer == into + t[start..j]
  {
    j, buffer := start, into;
    while j < |t| && t[j] != '>' && t[j] != '\n'
      invariant start <= j <= |t| && AngleStop(t, start) == AngleStop(t, j)
      invariant buffer == into + t[start..j]
    {
      CopyOne(into, t, start, j);
      buffer := buffer + [t[j]];
      j := j + 1;
    }
  }

  method CopyBare(t: string, start: nat, into: string) returns (j: nat, buffer: string)
    requires start <= |t|
    ensures j == BareStop(t, start, 0) && buffer == into + t[start..j]
  {
    j, buffer := start, into;
    var depth := 0;
    while j < |t|
      invariant start <= j <= |t| && BareStop(t, start, 0) == BareStop(t, j, depth)
      invariant buffer == into + t[start..j]
      decreases |t| - j
    {
      var c := t[j];
      if depth == 0 && (c in " \t\n" || c == ')') { break; }
      if c == '(' { depth := depth + 1; } else if c == ')' { depth := depth - 1; }
      CopyOne(into, t, start, j);
      buffer := buffer + [c];
      j := j + 1;
    }
  }

  method CopyDestination(t: string, start: nat, into: string) returns (j: nat, buffer: string)
    requires start <= |t|
    ensures j == DestinationEnd(t, start) && buffer == into + t[start..j]
  {
    if start < |t| && t[start] == '<' {
      j, buffer := CopyAngle(t, start + 1, into + "<");
      assert buffer == into + t[start..j];
      if j < |t| && t[j] == '>' {
        buffer := buffer + ">";
        j := j + 1;
      }
    } else {
      j, buffer := CopyBare(t, start, into);
    }
  }

  method OnlyBlankAfter(t: string, k: nat) returns (blank: bool)
    requires k <= |t|
    ensures blank == BlankAfter(t, k)
  {
    var m := k;
    while m < |t| && (t[m] == ' ' || t[m] == '\t')
      invariant k <= m <= |t| && SkipBlank(t, k) == SkipBlank(t, m)
    {
      m := m + 1;
    }
    return m == |t| || t[m] == '\n';
  }

  /** The title loop: `valid` is false when it is broken off or runs out of text. */
  method CopyTitle(t: string, start: nat, quote: char, into: string)
    returns (valid: bool, j: nat, buffer: string)
    requires start <= |t|
    ensures (if valid then Some(Piece(j, buffer)) else None) == Before(into, TitleRest(t, start, quote))
  {
    hide TitleRest, Before, BlankAfter, Closer;
    valid, j, buffer := true, start, into;
    var closer := Closer(quote);
    while j < |t|
      invariant start <= j <= |t|
      invariant Before(into, TitleRest(t, start, quote)) == Before(buffer, TitleRest(t, j, quote))
      decreases |t| - j
    {
      TitleRestStep(t, j, quote);
      var c := t[j];
      if c == '\\' {
        if j + 1 == |t| { break; }
        if t[j + 1] == '\n' {
          var blank := OnlyBlankAfter(t, j + 2);
          if blank {
            BeforeNone(buffer);
            return false, j, buffer;
          }
          BeforeTwice(buffer, "\n", TitleRest(t, j + 2, quote));
          buffer := buffer + "\n";
        }
        j := j + 2;
        continue;
      }
      if c == closer {
        BeforeSome(buffer, Piece(j + 1, [closer]));
        return true, j + 1, buffer + [closer];
      }
      if c == '(' && quote == '(' {
        BeforeNone(buffer);
        return false, j, buffer;
      }
      if c == '\n' {
        var blank := OnlyBlankAfter(t, j + 1);
        if blank {
          BeforeNone(buffer);
          return false, j, buffer;
        }
        BeforeTwice(buffer, "\n", TitleRest(t, j + 1, quote));
        buffer := buffer + "\n";
      }
      j := j + 1;
    }
    TitleRestEnd(t, quote);
    BeforeNone(buffer);
    return false, j, buffer;
  }

  lemma TitleRestEnd(t: string, quote: char)
    ensures TitleRest(t, |t|, quote) == None
  {
  }

  lemma TitleRestStep(t: string, j: nat, quote: char)
    requires j < |t|
    ensures TitleRest(t, j, quote)
         == if t[j] == '\\' then
              if j + 1 == |t| then None
              else if t[j + 1] == '\n' then
                if BlankAfter(t, j + 2) then None else Before("\n", TitleRest(t, j + 2, quote))
              else TitleRest(t, j + 2, quote)
            else if t[j] == Closer(quote) then Some(Piece(j + 1, [Closer(quote)]))
            else if t[j] == '(' && quote == '(' then None
            else if t[j] == '\n' then
              if BlankAfter(t, j + 1) then None else Before("\n", TitleRest(t, j + 1, quote))
            else TitleRest(t, j + 1, quote)
  {
  }

  method CopyToTitle(t: string, i: nat) returns (j: nat, buffer: string)
    requires i + 2 <= |t| && t[i] == ']' && t[i + 1] == '('
    ensures j == TitleStart(t, i) && buffer == t[i..j]
  {
    hide DestinationEnd, SkipSpace;
    j, buffer := CopySpace(t, i + 2, "](");
    assert buffer == t[i..j];
    var k := j;
    j, buffer := CopyDestination(t, j, buffer);
    assert t[i..j] == t[i..k] + t[k..j];
    k := j;
    j, buffer := CopySpace(t, j, buffer);
    assert t[i..j] == t[i..k] + t[k..j];
  }

  method ScanLinkTail(t: string, i: nat) returns (valid: bool, after: nat, buffer: string)
    requires i + 2 <= |t| && t[i] == ']' && t[i + 1] == '('
    ensures (if valid then Some(Piece(after, buffer)) else None) == LinkTail(t, i)
  {
    hide LinkTail, TitleRest, SkipBlank, TitleStart, Before, TailFrom;
    var j;
    j, buffer := CopyToTitle(t, i);
    TailUnfold(t, i, j);
    if j < |t| && Delimiter(t[j]) {
      var quote := t[j];
      TailTitled(t, buffer, j);
      valid, j, buffer := CopyTitle(t, j + 1, quote, buffer + [quote]);
      if !valid { return false, i, ""; }
    } else {
      TailUntitled(t, buffer, j);
    }
    var done, before := j, buffer;
    j, buffer := CopyBlank(t, j, buffer);
    if j < |t| && t[j] == ')' {
      CopyOne(before, t, done, j);
      return true, j + 1, buffer + ")";
    }
    return false, i, "";
  }

  /** What follows the destination: what is kept before the title, the title, and the parenthesis. */
  ghost function TailFrom(t: string, head: string, j: nat): Option<Piece>
    requires j <= |t|
  {
    TailEnd(t, Before(head, Title(t, j)))
  }

  lemma TailUnfold(t: string, i: nat, j: nat)
    requires i + 2 <= |t| && j == TitleStart(t, i)
    ensures i <= j <= |t| && LinkTail(t, i) == TailFrom(t, t[i..j], j)
  {
    hide TitleStart, TailEnd, Before, Title;
  }

  lemma TailTitled(t: string, head: string, j: nat)
    requires j < |t| && Delimiter(t[j])
    ensures TailFrom(t, head, j) == TailEnd(t, Before(head + [t[j]], TitleRest(t, j + 1, t[j])))
  {
    hide TitleRest, TailEnd, Before;
    BeforeTwice(head, [t[j]], TitleRest(t, j + 1, t[j]));
  }

  lemma TailUntitled(t: string, head: string, j: nat)
    requires j <= |t|
    requires j < |t| ==> !Delimiter(t[j])
    ensures TailFrom(t, head, j) == TailEnd(t, Some(Piece(j, head)))
  {
    hide TitleRest, TailEnd;
    assert head + "" == head;
  }
}
