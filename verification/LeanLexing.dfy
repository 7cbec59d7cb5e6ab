/** The lexical classes of Lean source, and what the three scanners make of them. */
module LeanLexing {
  import opened Sequences
  import opened Wrappers
  import opened LeanLexers

  /** `NameChar` is for escaped identifiers all scanners read alike; any other guillemet is code. */
  datatype Class = CodeChar | CommentChar | StringChar | NameChar

  function Repeat(c: Class, n: nat): (r: seq<Class>)
    ensures |r| == n && forall i :: 0 <= i < n ==> r[i] == c
  {
    seq(n, _ => c)
  }

  /** How far the next token of one class reaches, and the mode after it. */
  datatype Token = Token(width: nat, class_: Class, next: Mode)

  /** A comment or a string begins. */
  predicate Delimits(s: string) {
    s != "" && (Starts(s, '/', '-') || Starts(s, '-', '-') || s[0] == '"')
  }

  /** An escaped identifier that ends on its line and holds no delimiter. */
  predicate ClosedName(s: string)
    requires s != ""
  {
    s[0] == OPEN_NAME && NameLength(s) > 0 && forall k :: 0 <= k <= NameLength(s) ==> !Delimits(s[k..])
  }

  function NextToken(s: string, mode: Mode): (t: Token)
    requires s != "" && !mode.Name?
    ensures 0 < t.width <= |s| && !t.next.Name?
  {
    match mode
    case Comment(depth) =>
      if Starts(s, '/', '-') then Token(2, CommentChar, Inner(depth))
      else if Starts(s, '-', '/') then Token(2, CommentChar, Outer(depth))
      else Token(1, CommentChar, mode)
    case Str =>
      if s[0] == '\\' && |s| > 1 then Token(2, StringChar, Str)
      else Token(1, StringChar, if s[0] == '"' then Code else Str)
    case Code =>
      if Starts(s, '/', '-') then Token(2, CommentChar, Comment(1))
      else if Starts(s, '-', '-') then Token(RestOfLine(s), CommentChar, Code)
      else if s[0] == '"' then Token(1, StringChar, Str)
      else if ClosedName(s) then Token(NameLength(s) + 1, NameChar, Code)
      else Token(1, CodeChar, Code)
  }

  /** The class of every character. */
  function Classify(s: string, mode: Mode): (r: seq<Class>)
    requires !mode.Name?
    ensures |r| == |s|
    decreases |s|
  {
    if s == "" then []
    else
      var t := NextToken(s, mode);
      Repeat(t.class_, t.width) + Classify(s[t.width..], t.next)
  }

  /** The mode in which the text ends. */
  function EndMode(s: string, mode: Mode): (m: Mode)
    requires !mode.Name?
    ensures !m.Name?
    decreases |s|
  {
    if s == "" then mode
    else
      var t := NextToken(s, mode);
      EndMode(s[t.width..], t.next)
  }

  function Show(c: char, class_: Class, strings: bool, names: bool): char {
    if class_.CommentChar? || (strings && class_.StringChar?) || (names && class_.NameChar?) then Blank(c) else c
  }

  /** `s` with the comments blanked, and the strings and the escaped identifiers too if asked. */
  function Render(s: string, classes: seq<Class>, strings: bool, names: bool): (r: string)
    requires |s| == |classes|
    ensures |r| == |s| && forall k :: 0 <= k < |s| ==> r[k] == Show(s[k], classes[k], strings, names)
  {
    seq(|s|, k requires 0 <= k < |s| => Show(s[k], classes[k], strings, names))
  }

  lemma RenderSplit(s: string, n: nat, c: Class, rest: seq<Class>, strings: bool, names: bool)
    requires n <= |s| && |rest| == |s| - n
    ensures Render(s, Repeat(c, n) + rest, strings, names)
        == Render(s[..n], Repeat(c, n), strings, names) + Render(s[n..], rest, strings, names)
  {
    hide Show;
    var whole := Render(s, Repeat(c, n) + rest, strings, names);
    var left, right := Render(s[..n], Repeat(c, n), strings, names), Render(s[n..], rest, strings, names);
    forall k | 0 <= k < |s| ensures whole[k] == (left + right)[k] {
      if k < n { assert s[..n][k] == s[k]; } else { assert s[n..][k - n] == s[k]; }
    }
  }

  lemma RepeatJoin(c: Class, a: nat, b: nat, rest: seq<Class>)
    ensures Repeat(c, a) + (Repeat(c, b) + rest) == Repeat(c, a + b) + rest
  {
  }

  /** Comments and strings may hold anything; every escaped identifier in code ends on its
      line and holds no delimiter. */
  ghost predicate PlainNames(s: string, mode: Mode)
    requires !mode.Name?
  {
    forall k :: 0 <= k < |s| && Classify(s, mode)[k].CodeChar? ==> s[k] != OPEN_NAME
  }

  function Preceding(prev: Option<char>, s: string, k: nat): Option<char>
    requires k <= |s|
  {
    if k == 0 then prev else Some(s[k - 1])
  }

  /** No character literal matches in code; primes of names are no literals. */
  ghost predicate LiteralFree(prev: Option<char>, s: string, mode: Mode, word: WordClass)
    requires !mode.Name?
  {
    forall k :: 0 <= k < |s| && Classify(s, mode)[k].CodeChar? ==>
      CharLiteral(Preceding(prev, s, k), s[k..], word) == 0
  }

  lemma NamesRest(s: string, mode: Mode)
    requires s != "" && !mode.Name? && PlainNames(s, mode)
    ensures var t := NextToken(s, mode); PlainNames(s[t.width..], t.next)
    ensures NextToken(s, mode).class_.CodeChar? ==> s[0] != OPEN_NAME
  {
    hide NextToken;
    var t := NextToken(s, mode);
    var rest := Classify(s[t.width..], t.next);
    forall k | 0 <= k < |s| - t.width && rest[k].CodeChar? ensures s[t.width..][k] != OPEN_NAME {
      assert Classify(s, mode)[k + t.width] == rest[k];
    }
    assert Classify(s, mode)[0] == t.class_;
  }

  lemma LiteralsRest(prev: Option<char>, s: string, mode: Mode, word: WordClass)
    requires s != "" && !mode.Name? && LiteralFree(prev, s, mode, word)
    ensures var t := NextToken(s, mode); LiteralFree(Some(s[t.width - 1]), s[t.width..], t.next, word)
    ensures NextToken(s, mode).class_.CodeChar? ==> CharLiteral(prev, s, word) == 0
  {
    hide NextToken, CharLiteral;
    var t := NextToken(s, mode);
    var rest := Classify(s[t.width..], t.next);
    forall k | 0 <= k < |s| - t.width && rest[k].CodeChar?
      ensures CharLiteral(Preceding(Some(s[t.width - 1]), s[t.width..], k), s[t.width..][k..], word) == 0
    {
      assert Classify(s, mode)[k + t.width] == rest[k];
      assert s[t.width..][k..] == s[k + t.width..];
    }
    assert Classify(s, mode)[0] == t.class_;
    assert s[0..] == s;
  }

  // ---------------------------------------------------------------- strip_lean_comments

  lemma PublicToken(s: string, mode: Mode)
    requires s != "" && !mode.Name? && !NextToken(s, mode).class_.NameChar?
    ensures var t, st := NextToken(s, mode), PublicStep(s, mode);
      && st.width == t.width && st.next == t.next
      && st.out == Render(s[..t.width], Repeat(t.class_, t.width), false, false)
  {
    hide ClosedName;
  }

  /** A stretch of code without delimiters is copied. */
  lemma {:induction false} PublicStretch(s: string, n: nat)
    requires n <= |s| && forall k :: 0 <= k < n ==> !Delimits(s[k..])
    ensures Public(s, Code) == Prefixed(s[..n], Public(s[n..], Code))
  {
    hide Public, PublicStep;
    if n == 0 {
      PublicNothing(s);
    } else {
      assert !Delimits(s[0..]) && s[0..] == s;
      forall k | 0 <= k < n - 1 ensures !Delimits(s[1..][k..]) { assert s[1..][k..] == s[k + 1..]; }
      PublicStretch(s[1..], n - 1);
      assert s[1..][n - 1..] == s[n..];
      PublicOnce(s);
      assert PublicStep(s, Code) == Step(1, s[..1], Code) by { PublicCopies(s); }
      assert s[..n] == s[..1] + s[1..][..n - 1];
      PrefixedTwice(s[..1], s[1..][..n - 1], Public(s[n..], Code));
    }
  }

  lemma PublicCopies(s: string)
    requires s != "" && !Delimits(s)
    ensures PublicStep(s, Code) == Step(1, s[..1], Code)
  {
  }

  lemma PrefixedTwice(a: string, b: string, r: Result<string, LexError>)
    ensures Prefixed(a + b, r) == Prefixed(a, Prefixed(b, r))
  {
    if r.Ok? { Associative(a, b, r.value); }
  }

  lemma PublicNothing(s: string)
    ensures Public(s, Code) == Prefixed(s[..0], Public(s[0..], Code))
  {
    assert s[0..] == s;
    if Public(s, Code).Ok? { assert s[..0] + Public(s, Code).value == Public(s, Code).value; }
  }

  lemma PublicOnce(s: string)
    requires s != ""
    ensures var st := PublicStep(s, Code);
      Public(s, Code) == Prefixed(st.out, Public(s[st.width..], st.next))
  {
    hide PublicStep;
  }

  /** An escaped identifier is a token of its own kind and is copied like code. */
  lemma PublicName(s: string)
    requires s != "" && NextToken(s, Code).class_.NameChar?
    ensures var t := NextToken(s, Code);
      && t.next == Code
      && Public(s, Code) == Prefixed(Render(s[..t.width], Repeat(t.class_, t.width), false, false),
                                     Public(s[t.width..], Code))
  {
    hide Public;
    var t := NextToken(s, Code);
    PublicStretch(s, t.width);
    assert Render(s[..t.width], Repeat(t.class_, t.width), false, false) == s[..t.width];
  }

  lemma OnlyCodeHasNames(s: string, mode: Mode)
    requires s != "" && !mode.Name?
    ensures NextToken(s, mode).class_.NameChar? ==> mode.Code?
  {
  }

  /** The outcome the end of the text imposes on `strip_lean_comments`. */
  function PublicOutcome(m: Mode, out: string): Result<string, LexError> {
    match m case Comment(_) => Err(UnterminatedComment) case Str => Err(UnterminatedString) case _ => Ok(out)
  }

  lemma {:induction false} PublicExact(s: string, mode: Mode)
    requires !mode.Name?
    ensures Public(s, mode) == PublicOutcome(EndMode(s, mode), Render(s, Classify(s, mode), false, false))
    decreases |s|
  {
    hide NextToken, PublicStep, Show;
    if s != "" {
      var t := NextToken(s, mode);
      PublicExact(s[t.width..], t.next);
      RenderSplit(s, t.width, t.class_, Classify(s[t.width..], t.next), false, false);
      OnlyCodeHasNames(s, mode);
      if t.class_.NameChar? { PublicName(s); } else { PublicToken(s, mode); }
    } else {
      assert Render("", [], false, false) == "";
    }
  }

  // ---------------------------------------------------------------- strip_comments_and_strings

  lemma EscapesToken(prev: Option<char>, s: string, mode: Mode, mask: bool, word: WordClass)
    requires s != "" && !mode.Name? && !NextToken(s, mode).class_.NameChar?
    requires NextToken(s, mode).class_.CodeChar? ==> CharLiteral(prev, s, word) == 0 && s[0] != OPEN_NAME
    ensures var t, st := NextToken(s, mode), EscapesStep(prev, s, mode, mask, word);
      && st.width == t.width && st.next == t.next
      && st.out == Render(s[..t.width], Repeat(t.class_, t.width), true, mask)
  {
    hide ClosedName, CharLiteral;
  }

  /** An escaped identifier is read up to its closing guillemet. */
  lemma {:induction false} NameRead(prev: Option<char>, s: string, n: nat, mask: bool, word: WordClass)
    requires n < |s| && s[n] == CLOSE_NAME && forall k :: 0 <= k < n ==> s[k] != CLOSE_NAME
    ensures Escapes(prev, s, Name, mask, word)
         == Render(s[..n + 1], Repeat(NameChar, n + 1), true, mask)
            + Escapes(Some(s[n]), s[n + 1..], Code, mask, word)
    decreases n
  {
    hide Escapes;
    EscapesOnce(prev, s, Name, mask, word);
    var st := EscapesStep(prev, s, Name, mask, word);
    var head := Render(s[..1], Repeat(NameChar, 1), true, mask);
    assert st.out == head;
    if n > 0 {
      NameRead(Some(s[0]), s[1..], n - 1, mask, word);
      var rest := Escapes(Some(s[n]), s[n + 1..], Code, mask, word);
      assert s[1..][n..] == s[n + 1..];
      var tail := Render(s[1..][..n], Repeat(NameChar, n), true, mask);
      assert head + tail == Render(s[..n + 1], Repeat(NameChar, n + 1), true, mask);
      Associative(head, tail, rest);
    }
  }

  lemma EscapesName(prev: Option<char>, s: string, mask: bool, word: WordClass)
    requires s != "" && NextToken(s, Code).class_.NameChar?
    ensures var t := NextToken(s, Code);
      && t.next == Code
      && Escapes(prev, s, Code, mask, word)
         == Render(s[..t.width], Repeat(t.class_, t.width), true, mask)
            + Escapes(Some(s[t.width - 1]), s[t.width..], t.next, mask, word)
  {
    hide Escapes, EscapesStep, Show;
    NameToken(s);
    var n := NameLength(s);
    EscapesOnce(prev, s, Code, mask, word);
    var head := Render(s[..1], Repeat(NameChar, 1), true, mask);
    assert EscapesStep(prev, s, Code, mask, word) == Step(1, head, Name) by { NameOpens(prev, s, mask, word); }
    NameRead(Some(s[0]), s[1..], n - 1, mask, word);
    assert s[1..][n..] == s[n + 1..];
    var tail := Render(s[1..][..n], Repeat(NameChar, n), true, mask);
    assert head + tail == Render(s[..n + 1], Repeat(NameChar, n + 1), true, mask);
    Associative(head, tail, Escapes(Some(s[n]), s[n + 1..], Code, mask, word));
  }

  lemma NameToken(s: string)
    requires s != "" && NextToken(s, Code).class_.NameChar?
    ensures NextToken(s, Code) == Token(NameLength(s) + 1, NameChar, Code) && NameLength(s) > 0
    ensures s[0] == OPEN_NAME
  {
    hide Delimits, NameLength;
  }

  lemma NameOpens(prev: Option<char>, s: string, mask: bool, word: WordClass)
    requires s != "" && s[0] == OPEN_NAME
    ensures EscapesStep(prev, s, Code, mask, word)
         == Step(1, Render(s[..1], Repeat(NameChar, 1), true, mask), Name)
  {
  }

  lemma EscapesUnfoldEmpty(prev: Option<char>, mode: Mode, mask: bool, word: WordClass)
    requires !mode.Name?
    ensures Escapes(prev, "", mode, mask, word) == "" && Classify("", mode) == []
  {
  }

  lemma {:induction false} EscapesExact(prev: Option<char>, s: string, mode: Mode, mask: bool, word: WordClass)
    requires !mode.Name? && PlainNames(s, mode) && LiteralFree(prev, s, mode, word)
    ensures Escapes(prev, s, mode, mask, word) == Render(s, Classify(s, mode), true, mask)
    decreases |s|
  {
    hide NextToken, PlainNames, LiteralFree, Show, Escapes, Classify, CharLiteral, Render, Repeat;
    if s == "" {
      EscapesUnfoldEmpty(prev, mode, mask, word);
    } else {
      var t := NextToken(s, mode);
      NamesRest(s, mode);
      LiteralsRest(prev, s, mode, word);
      EscapesExact(Some(s[t.width - 1]), s[t.width..], t.next, mask, word);
      RenderSplit(s, t.width, t.class_, Classify(s[t.width..], t.next), true, mask);
      ClassifyUnfold(s, mode);
      EscapesRead(prev, s, mode, mask, word);
    }
  }

  /** The scanner reads the next token whole and prints it as its class wants it. */
  lemma EscapesRead(prev: Option<char>, s: string, mode: Mode, mask: bool, word: WordClass)
    requires s != "" && !mode.Name?
    requires NextToken(s, mode).class_.CodeChar? ==> CharLiteral(prev, s, word) == 0 && s[0] != OPEN_NAME
    ensures var t := NextToken(s, mode);
      Escapes(prev, s, mode, mask, word)
      == Render(s[..t.width], Repeat(t.class_, t.width), true, mask)
         + Escapes(Some(s[t.width - 1]), s[t.width..], t.next, mask, word)
  {
    hide NextToken, EscapesStep, Escapes, CharLiteral, Render, Repeat;
    OnlyCodeHasNames(s, mode);
    if NextToken(s, mode).class_.NameChar? {
      EscapesName(prev, s, mask, word);
    } else {
      EscapesToken(prev, s, mode, mask, word);
      EscapesOnce(prev, s, mode, mask, word);
    }
  }

  // ---------------------------------------------------------------- strip_block_comments

  lemma StringToken(s: string)
    requires s != ""
    ensures var t := NextToken(s, Str);
      t.class_ == StringChar && StringRest(s) == t.width + (if t.next.Str? then StringRest(s[t.width..]) else 0)
    ensures NextToken(s, Str).next.Str? || NextToken(s, Str).next.Code?
  {
  }

  /** Copying a string literal in one go reaches the same place as reading it
      character by character. */
  lemma {:induction false} StringChunk(s: string)
    ensures var n := StringRest(s);
      && Classify(s, Str) == Repeat(StringChar, n) + Classify(s[n..], Code)
      && (EndMode(s, Str).Comment? <==> EndMode(s[n..], Code).Comment?)
    decreases |s|
  {
    hide NextToken, StringRest;
    StringRestEmpty();
    if s != "" {
      var t := NextToken(s, Str);
      StringToken(s);
      if t.next.Str? {
        StringChunk(s[t.width..]);
        var n := StringRest(s[t.width..]);
        assert s[t.width..][n..] == s[t.width + n..];
        RepeatJoin(StringChar, t.width, n, Classify(s[t.width + n..], Code));
      }
    }
  }

  lemma StringRestEmpty()
    ensures StringRest("") == 0
  {
  }

  function CommentMode(depth: nat): Mode { if depth > 0 then Comment(depth) else Code }

  /** The outcome the end of the text imposes on `strip_block_comments`. */
  function InventoryOutcome(m: Mode, out: string): Result<string, LexError> {
    if m.Comment? then Err(UnterminatedComment) else Ok(out)
  }

  /** What the inventory scanner prints and where it goes, where no string begins. */
  lemma InventoryToken(s: string, depth: nat)
    requires s != "" && !(depth == 0 && s[0] == '"')
    requires NextToken(s, CommentMode(depth)).class_.CodeChar? ==> s[0] != OPEN_NAME
    ensures var st, t := InventoryStep(s, depth), NextToken(s, CommentMode(depth));
      && st.width == t.width && st.next == t.next == CommentMode(DepthOf(t.next))
      && (if t.class_.CommentChar? then forall k :: 0 <= k < st.width ==> st.out[k] == Blank(s[k])
          else !t.class_.StringChar? && st.out == s[..st.width])
  {
    hide Delimits;
  }

  lemma ShowsToken(s: string, width: nat, out: string, c: Class)
    requires width <= |s| && |out| == width
    requires forall k :: 0 <= k < width ==> out[k] == Show(s[k], c, false, false)
    ensures out == Render(s[..width], Repeat(c, width), false, false)
  {
  }

  lemma InventoryString(s: string)
    requires s != "" && s[0] == '"'
    ensures var st := InventoryStep(s, 0);
      && st.width == 1 + StringRest(s[1..]) && st.next == Code && st.out == s[..st.width]
    ensures NextToken(s, Code) == Token(1, StringChar, Str)
  {
    hide StringRest;
  }

  /** One step of the inventory scanner covers a chunk of one class. */
  lemma InventoryChunk(s: string, depth: nat)
    requires s != ""
    requires NextToken(s, CommentMode(depth)).class_.CodeChar? ==> s[0] != OPEN_NAME
    ensures var st := InventoryStep(s, depth);
      var c := NextToken(s, CommentMode(depth)).class_;
      && st.out == Render(s[..st.width], Repeat(c, st.width), false, false)
      && Classify(s, CommentMode(depth)) == Repeat(c, st.width) + Classify(s[st.width..], st.next)
      && (EndMode(s, CommentMode(depth)).Comment? <==> EndMode(s[st.width..], st.next).Comment?)
      && st.next == CommentMode(DepthOf(st.next))
  {
    hide Classify, EndMode, NextToken, InventoryStep, Render, Repeat, CommentMode, DepthOf;
    InventoryPrints(s, depth);
    if depth == 0 && s[0] == '"' { InventoryReadsString(s); } else { InventoryReads(s, depth); }
  }

  lemma InventoryPrints(s: string, depth: nat)
    requires s != ""
    requires NextToken(s, CommentMode(depth)).class_.CodeChar? ==> s[0] != OPEN_NAME
    ensures var st := InventoryStep(s, depth);
      var c := NextToken(s, CommentMode(depth)).class_;
      st.out == Render(s[..st.width], Repeat(c, st.width), false, false)
  {
    hide NextToken, InventoryStep, Render, Show, Repeat;
    InventoryShows(s, depth);
    ShowsToken(s, InventoryStep(s, depth).width, InventoryStep(s, depth).out,
               NextToken(s, CommentMode(depth)).class_);
  }

  lemma InventoryReads(s: string, depth: nat)
    requires s != "" && !(depth == 0 && s[0] == '"')
    requires NextToken(s, CommentMode(depth)).class_.CodeChar? ==> s[0] != OPEN_NAME
    ensures var st := InventoryStep(s, depth);
      var c := NextToken(s, CommentMode(depth)).class_;
      && Classify(s, CommentMode(depth)) == Repeat(c, st.width) + Classify(s[st.width..], st.next)
      && EndMode(s, CommentMode(depth)) == EndMode(s[st.width..], st.next)
      && st.next == CommentMode(DepthOf(st.next))
  {
    hide Classify, EndMode, NextToken, InventoryStep, Repeat, DepthOf;
    InventoryToken(s, depth);
    ClassifyUnfold(s, CommentMode(depth));
  }

  lemma InventoryReadsString(s: string)
    requires s != "" && s[0] == '"'
    ensures var st := InventoryStep(s, 0);
      && Classify(s, CommentMode(0)) == Repeat(NextToken(s, CommentMode(0)).class_, st.width)
                                        + Classify(s[st.width..], st.next)
      && (EndMode(s, CommentMode(0)).Comment? <==> EndMode(s[st.width..], st.next).Comment?)
      && st.next == CommentMode(DepthOf(st.next))
  {
    hide Classify, EndMode, NextToken, InventoryStep, Repeat, StringRest;
    InventoryString(s);
    StringWhole(s);
  }

  /** A string literal from its opening quote on is one chunk. */
  lemma StringWhole(s: string)
    requires s != "" && s[0] == '"' && NextToken(s, Code) == Token(1, StringChar, Str)
    ensures var n := 1 + StringRest(s[1..]);
      && Classify(s, Code) == Repeat(StringChar, n) + Classify(s[n..], Code)
      && (EndMode(s, Code).Comment? <==> EndMode(s[n..], Code).Comment?)
  {
    hide Classify, EndMode, NextToken, StringRest;
    ClassifyUnfold(s, Code);
    StringChunk(s[1..]);
    var n := StringRest(s[1..]);
    assert s[1..][n..] == s[1 + n..];
    RepeatJoin(StringChar, 1, n, Classify(s[1 + n..], Code));
  }

  /** Each character is shown as its class wants it. */
  lemma InventoryShows(s: string, depth: nat)
    requires s != ""
    requires NextToken(s, CommentMode(depth)).class_.CodeChar? ==> s[0] != OPEN_NAME
    ensures var st, c := InventoryStep(s, depth), NextToken(s, CommentMode(depth)).class_;
      forall k :: 0 <= k < st.width ==> st.out[k] == Show(s[k], c, false, false)
  {
    hide NextToken, InventoryStep, StringRest;
    if depth == 0 && s[0] == '"' { InventoryString(s); } else { InventoryToken(s, depth); }
  }

  lemma ClassifyUnfold(s: string, mode: Mode)
    requires s != "" && !mode.Name?
    ensures var t := NextToken(s, mode);
      && Classify(s, mode) == Repeat(t.class_, t.width) + Classify(s[t.width..], t.next)
      && EndMode(s, mode) == EndMode(s[t.width..], t.next)
  {
  }

  lemma {:induction false} InventoryExact(s: string, depth: nat)
    requires PlainNames(s, CommentMode(depth))
    ensures Inventory(s, depth) ==
            InventoryOutcome(EndMode(s, CommentMode(depth)), Render(s, Classify(s, CommentMode(depth)), false, false))
    decreases |s|
  {
    hide NextToken, InventoryStep, PlainNames, Show, Classify, EndMode;
    if s == "" {
      InventoryExactEmpty(depth);
    } else {
      var st := InventoryStep(s, depth);
      var c := NextToken(s, CommentMode(depth)).class_;
      NamesRest(s, CommentMode(depth));
      InventoryChunk(s, depth);
      NamesSuffix(s, CommentMode(depth), c, st.width, st.next);
      InventoryExact(s[st.width..], DepthOf(st.next));
      RenderSplit(s, st.width, c, Classify(s[st.width..], st.next), false, false);
    }
  }

  lemma InventoryExactEmpty(depth: nat)
    ensures Inventory("", depth)
        == InventoryOutcome(EndMode("", CommentMode(depth)), Render("", Classify("", CommentMode(depth)), false, false))
  {
  }

  lemma NamesSuffix(s: string, mode: Mode, c: Class, n: nat, next: Mode)
    requires n <= |s| && !mode.Name? && !next.Name? && PlainNames(s, mode)
    requires Classify(s, mode) == Repeat(c, n) + Classify(s[n..], next)
    ensures PlainNames(s[n..], next)
  {
    forall k | 0 <= k < |s| - n && Classify(s[n..], next)[k].CodeChar?
      ensures s[n..][k] != OPEN_NAME
    {
      assert Classify(s, mode)[k + n] == Classify(s[n..], next)[k];
    }
  }

  // ---------------------------------------------------------------- main results

  /** On source whose escaped identifiers end on their line and hold no delimiter: where
      `strip_lean_comments` succeeds so does `strip_block_comments`, with the same text.
      The first fails exactly when a comment or a string is left open, the second exactly
      when a comment is. Where moreover no character literal matches in the code,
      `strip_comments_and_strings` returns that text with exactly the string literals
      blanked, and the escaped identifiers if they are masked. */
  lemma ScannersAgree(source: string, mask: bool, word: WordClass)
    requires PlainNames(source, Code)
    ensures StripComments(source).Ok? <==> EndMode(source, Code).Code?
    ensures StripBlocks(source).Ok? <==> !EndMode(source, Code).Comment?
    ensures StripComments(source).Ok? ==> StripBlocks(source) == StripComments(source)
    ensures StripComments(source).Ok? && LiteralFree(None, source, Code, word) ==>
      var r := StripComments(source).value;
      |r| == |source| && |StripEscapes(source, mask, word)| == |source| &&
      forall k :: 0 <= k < |source| ==>
        StripEscapes(source, mask, word)[k]
        == match Classify(source, Code)[k]
           case StringChar => Blank(r[k])
           case NameChar => if mask then Blank(r[k]) else r[k]
           case _ => r[k]
  {
    hide Classify, EndMode, Public, Inventory, Escapes, PlainNames, LiteralFree;
    PublicExact(source, Code);
    InventoryExact(source, 0);
    if LiteralFree(None, source, Code, word) { EscapesExact(None, source, Code, mask, word); }
  }

  /** In particular where each apostrophe in code follows a word character or another
      apostrophe, as the primes of names do. */
  lemma PrimesAreNoLiterals(s: string, mode: Mode, word: WordClass)
    requires !mode.Name?
    requires forall k :: 0 <= k < |s| && Classify(s, mode)[k].CodeChar? && s[k] == '\'' ==>
               k > 0 && (word(s[k - 1]) || s[k - 1] == '\'')
    ensures LiteralFree(None, s, mode, word)
  {
    hide Classify;
    forall k | 0 <= k < |s| && Classify(s, mode)[k].CodeChar?
      ensures CharLiteral(Preceding(None, s, k), s[k..], word) == 0
    {
      assert s[k..][0] == s[k];
    }
  }

  /** A comment opener inside an escaped identifier is no comment but to the third scanner. */
  lemma NameReadAsComment(word: WordClass)
    ensures StripEscapes("\U{AB}/-\U{BB}", false, word) == "\U{AB}/-\U{BB}"
    ensures StripBlocks("\U{AB}/-\U{BB}") == Ok("\U{AB}/-\U{BB}")
    ensures StripComments("\U{AB}/-\U{BB}") == Err(UnterminatedComment)
  {
    hide Escapes, CharLiteral, Inventory, Public;
    var s := [OPEN_NAME, '/', '-', CLOSE_NAME];
    assert "\U{AB}/-\U{BB}" == s;
    CopiedName(s, word);
    NameCopied(s);
    NameCommented(s);
  }

  lemma CopiedName(s: string, word: WordClass)
    requires s == [OPEN_NAME, '/', '-', CLOSE_NAME]
    ensures StripEscapes(s, false, word) == s
  {
    hide Escapes, CharLiteral;
    EscapesOnce(None, s, Code, false, word);
    NameRead(Some(OPEN_NAME), s[1..], 2, false, word);
    EscapesUnfoldEmpty(Some(CLOSE_NAME), Code, false, word);
    assert s[1..][3..] == "" && s[1..][..3] == s[1..];
    assert Render(s[1..], Repeat(NameChar, 3), true, false) == s[1..];
  }

  lemma NameCopied(s: string)
    requires s == [OPEN_NAME, '/', '-', CLOSE_NAME]
    ensures StripBlocks(s) == Ok(s)
  {
    assert NameLengthFrom(s, 2) == 3;
    assert NameLength(s) == 3;
    assert s[4..] == "" && s[..4] == s;
    assert InventoryStep(s, 0) == Step(4, s, Code);
    assert Inventory(s[4..], 0) == Ok("");
    assert s + "" == s;
  }

  lemma NameCommented(s: string)
    requires s == [OPEN_NAME, '/', '-', CLOSE_NAME]
    ensures StripComments(s) == Err(UnterminatedComment)
  {
    hide Public;
    PublicOnce(s);
    PublicOnce(s[1..]);
    assert s[1..][2..] == [CLOSE_NAME];
    PublicExact([CLOSE_NAME], Comment(1));
    assert EndMode([CLOSE_NAME], Comment(1)) == Comment(1) by { assert [CLOSE_NAME][1..] == ""; }
  }

  /** Same length, and newlines in the same places. */
  predicate KeepsLines(s: string, r: string) {
    |r| == |s| && forall k :: 0 <= k < |s| ==> (r[k] == '\n' <==> s[k] == '\n')
  }

  lemma KeepsLinesJoin(s: string, n: nat, a: string, b: string)
    requires n <= |s| && KeepsLines(s[..n], a) && KeepsLines(s[n..], b)
    ensures KeepsLines(s, a + b)
  {
    forall k | 0 <= k < |s| ensures (a + b)[k] == '\n' <==> s[k] == '\n' {
      if k < n { assert s[..n][k] == s[k]; } else { assert s[n..][k - n] == s[k]; }
    }
  }

  lemma StepKeepsLines(s: string, width: nat, out: string)
    requires width <= |s| && |out| == width
    requires forall i :: 0 <= i < width ==> (out[i] == '\n' <==> s[i] == '\n')
    ensures KeepsLines(s[..width], out)
  {
  }

  /** On any source at all, the scanners keep every line and column. */
  lemma {:induction false} EscapesKeepsLines(prev: Option<char>, s: string, mode: Mode, mask: bool, word: WordClass)
    ensures KeepsLines(s, Escapes(prev, s, mode, mask, word))
    decreases |s|
  {
    hide EscapesStep, Escapes, KeepsLines;
    if s == "" {
      NothingLeft(prev, mode, mask, word);
    } else {
      var st := EscapesStep(prev, s, mode, mask, word);
      EscapesOnce(prev, s, mode, mask, word);
      EscapesKeepsLines(Some(s[st.width - 1]), s[st.width..], st.next, mask, word);
      StepKeepsLines(s, st.width, st.out);
      KeepsLinesJoin(s, st.width, st.out, Escapes(Some(s[st.width - 1]), s[st.width..], st.next, mask, word));
    }
  }

  lemma NothingLeft(prev: Option<char>, mode: Mode, mask: bool, word: WordClass)
    ensures KeepsLines("", Escapes(prev, "", mode, mask, word))
  {
  }

  lemma EscapesOnce(prev: Option<char>, s: string, mode: Mode, mask: bool, word: WordClass)
    requires s != ""
    ensures var st := EscapesStep(prev, s, mode, mask, word);
      Escapes(prev, s, mode, mask, word)
      == st.out + Escapes(Some(s[st.width - 1]), s[st.width..], st.next, mask, word)
  {
    hide EscapesStep;
  }

  lemma {:induction false} InventoryKeepsLines(s: string, depth: nat)
    ensures Inventory(s, depth).Ok? ==> KeepsLines(s, Inventory(s, depth).value)
    decreases |s|
  {
    hide InventoryStep;
    if s != "" {
      var st := InventoryStep(s, depth);
      InventoryKeepsLines(s[st.width..], DepthOf(st.next));
      if Inventory(s, depth).Ok? {
        KeepsLinesJoin(s, st.width, st.out, Inventory(s[st.width..], DepthOf(st.next)).value);
      }
    }
  }

  lemma {:induction false} PublicKeepsLines(s: string, mode: Mode)
    requires !mode.Name?
    ensures Public(s, mode).Ok? ==> KeepsLines(s, Public(s, mode).value)
    decreases |s|
  {
    hide PublicStep;
    if s != "" {
      var st := PublicStep(s, mode);
      PublicKeepsLines(s[st.width..], st.next);
      if Public(s, mode).Ok? {
        KeepsLinesJoin(s, st.width, st.out, Public(s[st.width..], st.next).value);
      }
    }
  }
}
