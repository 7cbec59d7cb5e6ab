/** The three scanners that blank comments in Lean source: `strip_comments_and_strings`
    (scripts/check_proof_escapes.py), `strip_block_comments`
    (scripts/check_report_theorem_inventory.py) and `strip_lean_comments`
    (scripts/check_public_claim_surfaces.py). Each is a function of the text still to
    be read, and a loop proved equal to it. */
module LeanLexers {
  import opened Sequences
  import opened Wrappers

  /** Where a scanner is: in code, in a block comment nested `depth` deep, in a
      string literal, or in an escaped identifier. */
  datatype Mode = Code | Comment(depth: nat) | Str | Name

  const OPEN_NAME: char := '\U{AB}'
  const CLOSE_NAME: char := '\U{BB}'

  function Blank(c: char): char { if c == '\n' then '\n' else ' ' }

  function Spaces(n: nat): (s: string)
    ensures |s| == n && forall i :: 0 <= i < n ==> s[i] == ' '
  {
    seq(n, _ => ' ')
  }

  predicate Starts(s: string, a: char, b: char) { |s| >= 2 && s[0] == a && s[1] == b }

  /** Characters before the first newline. */
  function RestOfLine(s: string): (n: nat)
    ensures n <= |s|
    ensures forall i :: 0 <= i < n ==> s[i] != '\n'
    ensures n < |s| ==> s[n] == '\n'
  {
    if s == "" || s[0] == '\n' then 0 else 1 + RestOfLine(s[1..])
  }

  function Inner(depth: nat): Mode { Comment(depth + 1) }

  function Outer(depth: nat): Mode { if depth <= 1 then Code else Comment(depth - 1) }

  // ---------------------------------------------------------------- strip_comments_and_strings

  /** `\w` of the regular expression engine. */
  type WordClass = char -> bool

  /** Length of the text `'(?:\\.|[^\\'\n])'(?!\w)` matches at the start of `s`. */
  function LiteralShape(s: string, word: WordClass): (n: nat)
    ensures n == 0 || (3 <= n <= 4 && n <= |s| && s[0] == '\'' && s[n - 1] == '\'')
    ensures forall i :: 0 <= i < n ==> s[i] != '\n'
  {
    if |s| < 3 || s[0] != '\'' then 0
    else if s[1] == '\\' then
      if |s| >= 4 && s[2] != '\n' && s[3] == '\'' && !(|s| > 4 && word(s[4])) then 4 else 0
    else if s[1] != '\'' && s[1] != '\n' && s[2] == '\'' && !(|s| > 3 && word(s[3])) then 3
    else 0
  }

  /** The lookbehind `(?<![\w'])`. */
  predicate MayPrecede(prev: Option<char>, word: WordClass) {
    prev.None? || (!word(prev.value) && prev.value != '\'')
  }

  function CharLiteral(prev: Option<char>, s: string, word: WordClass): (n: nat)
    ensures n == 0 || (3 <= n <= 4 && n <= |s| && s[0] == '\'' && s[n - 1] == '\'')
    ensures forall i :: 0 <= i < n ==> s[i] != '\n'
  {
    if MayPrecede(prev, word) then LiteralShape(s, word) else 0
  }

  /** What the scanner does with the first characters of `s`: how many it consumes,
      what it puts out for them, and the mode it goes on in. */
  datatype Step = Step(width: nat, out: string, next: Mode)

  function EscapesStep(prev: Option<char>, s: string, mode: Mode, mask: bool, word: WordClass): (r: Step)
    requires s != ""
    ensures 0 < r.width <= |s| && |r.out| == r.width
    ensures forall i :: 0 <= i < r.width ==> (r.out[i] == '\n' <==> s[i] == '\n')
  {
    match mode
    case Comment(depth) =>
      if Starts(s, '/', '-') then Step(2, "  ", Inner(depth))
      else if Starts(s, '-', '/') then Step(2, "  ", Outer(depth))
      else Step(1, [Blank(s[0])], mode)
    case Name =>
      Step(1, [if mask then Blank(s[0]) else s[0]], if s[0] == CLOSE_NAME then Code else Name)
    case Str =>
      if s[0] == '\\' && |s| > 1 then Step(2, [' ', Blank(s[1])], Str)
      else Step(1, [Blank(s[0])], if s[0] == '"' then Code else Str)
    case Code =>
      if Starts(s, '/', '-') then Step(2, "  ", Comment(1))
      else if Starts(s, '-', '-') then Step(RestOfLine(s), Spaces(RestOfLine(s)), Code)
      else if s[0] == '"' then Step(1, " ", Str)
      else if CharLiteral(prev, s, word) > 0 then
        Step(CharLiteral(prev, s, word), Spaces(CharLiteral(prev, s, word)), Code)
      else if s[0] == OPEN_NAME then Step(1, if mask then " " else [OPEN_NAME], Name)
      else Step(1, [s[0]], Code)
  }

  function Escapes(prev: Option<char>, s: string, mode: Mode, mask: bool, word: WordClass): (r: string)
    decreases |s|
  {
    if s == "" then ""
    else
      var st := EscapesStep(prev, s, mode, mask, word);
      st.out + Escapes(Some(s[st.width - 1]), s[st.width..], st.next, mask, word)
  }

  function StripEscapes(source: string, mask: bool, word: WordClass): string {
    Escapes(None, source, Code, mask, word)
  }

  function Before(source: string, i: nat): Option<char>
    requires i <= |source|
  {
    if i == 0 then None else Some(source[i - 1])
  }

  lemma EscapesAdvance(source: string, i: nat, mode: Mode, mask: bool, word: WordClass, out: string)
    requires i < |source|
    ensures var st := EscapesStep(Before(source, i), source[i..], mode, mask, word);
      i + st.width <= |source| && out + Escapes(Before(source, i), source[i..], mode, mask, word) ==
      (out + st.out) + Escapes(Before(source, i + st.width), source[i + st.width..], st.next, mask, word)
  {
    var s := source[i..];
    var st := EscapesStep(Before(source, i), s, mode, mask, word);
    assert s[st.width..] == source[i + st.width..];
    Associative(out, st.out, Escapes(Some(s[st.width - 1]), s[st.width..], st.next, mask, word));
  }

  lemma EscapesStart(source: string, mask: bool, word: WordClass)
    ensures "" + Escapes(Before(source, 0), source[0..], Code, mask, word) == StripEscapes(source, mask, word)
  {
    assert source[0..] == source;
  }

  lemma EscapesEnd(source: string, mode: Mode, mask: bool, word: WordClass, out: string)
    ensures out + Escapes(Before(source, |source|), source[|source|..], mode, mask, word) == out
  {
  }

  function ModeOf(depth: nat, inString: bool, inName: bool): Mode {
    if depth > 0 then Comment(depth) else if inName then Name else if inString then Str else Code
  }

  /** `strip_comments_and_strings`. */
  method StripCommentsAndStrings(source: string, mask: bool, word: WordClass) returns (out: string)
    ensures out == StripEscapes(source, mask, word)
  {
    hide Escapes, StripEscapes, CharLiteral, RestOfLine;
    EscapesStart(source, mask, word);
    out := "";
    var i := 0;
    var depth := 0;
    var inString, inName := false, false;
    while i < |source|
      invariant i <= |source|
      invariant !(depth > 0 && (inString || inName)) && !(inString && inName)
      invariant out + Escapes(Before(source, i), source[i..], ModeOf(depth, inString, inName), mask, word)
          == StripEscapes(source, mask, word)
    {
      EscapesAdvance(source, i, ModeOf(depth, inString, inName), mask, word, out);
      ghost var st := EscapesStep(Before(source, i), source[i..], ModeOf(depth, inString, inName), mask, word);
      var rest := source[i..];
      var piece;
      if depth > 0 {
        if Starts(rest, '/', '-') {
          depth, piece := depth + 1, "  ";
        } else if Starts(rest, '-', '/') {
          depth, piece := depth - 1, "  ";
        } else {
          piece := [Blank(rest[0])];
        }
      } else if inName {
        piece := [if mask then Blank(rest[0]) else rest[0]];
        inName := rest[0] != CLOSE_NAME;
      } else if inString {
        if rest[0] == '\\' && |rest| > 1 {
          piece := [' ', Blank(rest[1])];
        } else {
          piece := [Blank(rest[0])];
          inString := rest[0] != '"';
        }
      } else if Starts(rest, '/', '-') {
        depth, piece := 1, "  ";
      } else if Starts(rest, '-', '-') {
        piece := Spaces(RestOfLine(rest));
      } else if rest[0] == '"' {
        inString, piece := true, " ";
      } else if CharLiteral(Before(source, i), rest, word) > 0 {
        piece := Spaces(CharLiteral(Before(source, i), rest, word));
      } else if rest[0] == OPEN_NAME {
        inName, piece := true, if mask then " " else [OPEN_NAME];
      } else {
        piece := [rest[0]];
      }
      assert piece == st.out && ModeOf(depth, inString, inName) == st.next;
      out := out + piece;
      i := i + |piece|;
    }
    EscapesEnd(source, ModeOf(depth, inString, inName), mask, word, out);
  }

  // ---------------------------------------------------------------- strip_block_comments

  datatype LexError = UnterminatedComment | UnterminatedString

  /** Distance to the character that closes the escaped identifier starting `s`, or
      zero if the line ends first. */
  function NameLength(s: string): (n: nat)
    requires s != ""
    ensures n < |s|
    ensures n > 0 ==> s[n] == CLOSE_NAME && forall i :: 1 <= i < n ==> s[i] != CLOSE_NAME
    ensures forall i :: 1 <= i <= n ==> s[i] != '\n'
  {
    NameLengthFrom(s, 1)
  }

  function NameLengthFrom(s: string, k: nat): (n: nat)
    requires 1 <= k <= |s|
    requires forall i :: 1 <= i < k ==> s[i] != CLOSE_NAME && s[i] != '\n'
    ensures n < |s|
    ensures n > 0 ==> s[n] == CLOSE_NAME && forall i :: 1 <= i < n ==> s[i] != CLOSE_NAME
    ensures forall i :: 1 <= i <= n ==> s[i] != '\n'
    decreases |s| - k
  {
    if k == |s| || s[k] == '\n' then 0 else if s[k] == CLOSE_NAME then k else NameLengthFrom(s, k + 1)
  }

  /** The string literal that starts `s`, up to and including its closing quote or
      the end of the text. */
  function StringLength(s: string): (n: nat)
    requires s != "" && s[0] == '"'
    ensures 0 < n <= |s|
  {
    1 + StringRest(s[1..])
  }

  function StringRest(s: string): (n: nat)
    ensures n <= |s|
  {
    if s == "" then 0
    else if s[0] == '\\' && |s| > 1 then 2 + StringRest(s[2..])
    else if s[0] == '"' then 1
    else 1 + StringRest(s[1..])
  }

  function InventoryStep(s: string, depth: nat): (r: Step)
    requires s != ""
    ensures 0 < r.width <= |s| && |r.out| == r.width
    ensures forall i :: 0 <= i < r.width ==> (r.out[i] == '\n' <==> s[i] == '\n')
    ensures r.next.Code? || r.next.Comment?
  {
    if depth > 0 then
      if Starts(s, '/', '-') then Step(2, "  ", Inner(depth))
      else if Starts(s, '-', '/') then Step(2, "  ", Outer(depth))
      else Step(1, [Blank(s[0])], Comment(depth))
    else if Starts(s, '/', '-') then Step(2, "  ", Comment(1))
    else if Starts(s, '-', '-') then Step(RestOfLine(s), Spaces(RestOfLine(s)), Code)
    else if s[0] == OPEN_NAME then Step(NameLength(s) + 1, s[..NameLength(s) + 1], Code)
    else if s[0] == '"' then Step(StringLength(s), s[..StringLength(s)], Code)
    else Step(1, [s[0]], Code)
  }

  function DepthOf(m: Mode): nat { match m case Comment(d) => d case _ => 0 }

  function Inventory(s: string, depth: nat): Result<string, LexError>
    decreases |s|
  {
    if s == "" then (if depth > 0 then Err(UnterminatedComment) else Ok(""))
    else
      var st := InventoryStep(s, depth);
      match Inventory(s[st.width..], DepthOf(st.next))
      case Err(e) => Err(e)
      case Ok(rest) => Ok(st.out + rest)
  }

  function StripBlocks(source: string): Result<string, LexError> { Inventory(source, 0) }

  function Prefixed(out: string, r: Result<string, LexError>): Result<string, LexError> {
    match r case Ok(rest) => Ok(out + rest) case Err(e) => Err(e)
  }

  lemma InventoryAdvance(s: string, depth: nat, out: string)
    requires s != ""
    ensures var st := InventoryStep(s, depth);
      Prefixed(out, Inventory(s, depth)) == Prefixed(out + st.out, Inventory(s[st.width..], DepthOf(st.next)))
  {
    var st := InventoryStep(s, depth);
    var rest := Inventory(s[st.width..], DepthOf(st.next));
    if rest.Ok? { Associative(out, st.out, rest.value); }
  }

  lemma InventoryStart(source: string)
    ensures Prefixed("", Inventory(source, 0)) == StripBlocks(source)
  {
    if Inventory(source, 0).Ok? { assert "" + Inventory(source, 0).value == Inventory(source, 0).value; }
  }

  /** `strip_block_comments`. */
  method StripBlockComments(text: string) returns (result: Result<string, LexError>)
    ensures result == StripBlocks(text)
  {
    hide Inventory, RestOfLine, StringLength, NameLength, StripBlocks;
    InventoryStart(text);
    var out := "";
    var rest := text;
    var depth := 0;
    while rest != ""
      invariant Prefixed(out, Inventory(rest, depth)) == StripBlocks(text)
      decreases |rest|
    {
      InventoryAdvance(rest, depth, out);
      var width := 1;
      var piece := [rest[0]];
      if depth > 0 {
        if Starts(rest, '/', '-') || Starts(rest, '-', '/') {
          depth := if Starts(rest, '/', '-') then depth + 1 else depth - 1;
          width, piece := 2, "  ";
        } else {
          piece := [Blank(rest[0])];
        }
      } else if Starts(rest, '/', '-') {
        depth := 1;
        width, piece := 2, "  ";
      } else if Starts(rest, '-', '-') {
        width := RestOfLine(rest);
        piece := Spaces(width);
      } else if rest[0] == OPEN_NAME {
        width := NameLength(rest) + 1;
        piece := rest[..width];
      } else if rest[0] == '"' {
        width := CopyString(rest);
        piece := rest[..width];
      }
      out := out + piece;
      rest := rest[width..];
    }
    InventoryEnd(depth, out);
    result := if depth > 0 then Err(UnterminatedComment) else Ok(out);
  }

  lemma InventoryEnd(depth: nat, out: string)
    ensures Prefixed(out, Inventory("", depth)) == if depth > 0 then Err(UnterminatedComment) else Ok(out)
  {
    assert out + "" == out;
  }

  method CopyString(s: string) returns (n: nat)
    requires s != "" && s[0] == '"'
    ensures n == StringLength(s)
  {
    n := 1;
    while n < |s|
      invariant 1 <= n <= |s| && n + StringRest(s[n..]) == StringLength(s)
      decreases |s| - n
    {
      if s[n] == '\\' && n + 1 < |s| {
        assert s[n..][2..] == s[n + 2..];
        n := n + 2;
      } else {
        assert s[n..][1..] == s[n + 1..];
        n := n + 1;
        if s[n - 1] == '"' { return; }
      }
    }
  }

  // ---------------------------------------------------------------- strip_lean_comments

  function PublicStep(s: string, mode: Mode): (r: Step)
    requires s != "" && !mode.Name?
    ensures 0 < r.width <= |s| && |r.out| == r.width && !r.next.Name?
    ensures forall i :: 0 <= i < r.width ==> (r.out[i] == '\n' <==> s[i] == '\n')
  {
    match mode
    case Comment(depth) =>
      if Starts(s, '/', '-') then Step(2, "  ", Inner(depth))
      else if Starts(s, '-', '/') then Step(2, "  ", Outer(depth))
      else Step(1, [Blank(s[0])], mode)
    case Str =>
      if s[0] == '\\' && |s| > 1 then Step(2, s[..2], Str)
      else Step(1, s[..1], if s[0] == '"' then Code else Str)
    case Code =>
      if Starts(s, '/', '-') then Step(2, "  ", Comment(1))
      else if Starts(s, '-', '-') then Step(RestOfLine(s), Spaces(RestOfLine(s)), Code)
      else Step(1, s[..1], if s[0] == '"' then Str else Code)
  }

  function Public(s: string, mode: Mode): Result<string, LexError>
    requires !mode.Name?
    decreases |s|
  {
    if s == "" then
      (match mode case Comment(_) => Err(UnterminatedComment) case Str => Err(UnterminatedString) case Code => Ok(""))
    else
      var st := PublicStep(s, mode);
      match Public(s[st.width..], st.next)
      case Err(e) => Err(e)
      case Ok(rest) => Ok(st.out + rest)
  }

  function StripComments(source: string): Result<string, LexError> { Public(source, Code) }

  lemma PublicAdvance(s: string, mode: Mode, out: string)
    requires s != "" && !mode.Name?
    ensures var st := PublicStep(s, mode);
      Prefixed(out, Public(s, mode)) == Prefixed(out + st.out, Public(s[st.width..], st.next))
  {
    var st := PublicStep(s, mode);
    var rest := Public(s[st.width..], st.next);
    if rest.Ok? { Associative(out, st.out, rest.value); }
  }

  lemma PublicStart(source: string)
    ensures Prefixed("", Public(source, Code)) == StripComments(source)
  {
    if Public(source, Code).Ok? { assert "" + Public(source, Code).value == Public(source, Code).value; }
  }

  lemma PublicEnd(depth: nat, inString: bool, out: string)
    requires !(depth > 0 && inString)
    ensures Prefixed(out, Public("", ModeOf(depth, inString, false))) ==
            if depth > 0 then Err(UnterminatedComment) else if inString then Err(UnterminatedString) else Ok(out)
  {
    assert out + "" == out;
  }

  /** `strip_lean_comments`. */
  method StripLeanComments(source: string) returns (result: Result<string, LexError>)
    ensures result == StripComments(source)
  {
    hide Public, RestOfLine, StripComments;
    PublicStart(source);
    var out := "";
    var rest := source;
    var depth := 0;
    var inString := false;
    while rest != ""
      invariant !(depth > 0 && inString)
      invariant Prefixed(out, Public(rest, ModeOf(depth, inString, false))) == StripComments(source)
      decreases |rest|
    {
      PublicAdvance(rest, ModeOf(depth, inString, false), out);
      var width, piece := 1, rest[..1];
      if depth > 0 {
        if Starts(rest, '/', '-') {
          depth, width, piece := depth + 1, 2, "  ";
        } else if Starts(rest, '-', '/') {
          depth, width, piece := depth - 1, 2, "  ";
        } else {
          piece := [Blank(rest[0])];
        }
      } else if inString {
        if rest[0] == '\\' && |rest| > 1 {
          width, piece := 2, rest[..2];
        } else if rest[0] == '"' {
          inString := false;
        }
      } else if Starts(rest, '/', '-') {
        depth, width, piece := 1, 2, "  ";
      } else if Starts(rest, '-', '-') {
        width := RestOfLine(rest);
        piece := Spaces(width);
      } else if rest[0] == '"' {
        inString := true;
      }
      out := out + piece;
      rest := rest[width..];
    }
    PublicEnd(depth, inString, out);
    result := if depth > 0 then Err(UnterminatedComment) else if inString then Err(UnterminatedString) else Ok(out);
  }
}
