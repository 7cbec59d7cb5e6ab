/** When running `strip_comments_and_strings` a second time changes nothing
    (scripts/check_proof_escapes.py). The lookbehind of the character-literal
    pattern is met by the blank that replaced an earlier literal, so a literal
    written directly after another one is blanked only by the second run. */
module LeanIdempotence {
  import opened Sequences
  import opened Wrappers
  import opened LeanLexers

  /** Delimiters and blanks are not word characters. */
  ghost predicate DelimitersApart(word: WordClass) {
    !word(' ') && !word('/') && !word('-') && !word('"') && !word(OPEN_NAME) && !word(CLOSE_NAME)
  }

  /** The apostrophe starting `s` in code begins the text of a character literal
      whose characters all survive the first run: its content opens no string or
      masked name, and its closing apostrophe begins no literal of its own. */
  predicate Exposed(s: string, mask: bool, word: WordClass) {
    var n := LiteralShape(s, word);
    n > 0 && s[n - 2] != '"' &&
    if s[n - 2] == OPEN_NAME then !mask else CharLiteral(Some(s[n - 2]), s[n - 1..], word) == 0
  }

  /** Somewhere in the text a blanked character literal is followed directly by an
      exposed one. `afterLiteral` says whether one has just been blanked. */
  predicate Clashes(prev: Option<char>, s: string, mode: Mode, mask: bool, word: WordClass, afterLiteral: bool)
    decreases |s|
  {
    s != "" &&
    var st := EscapesStep(prev, s, mode, mask, word);
    || (mode.Code? && afterLiteral && Exposed(s, mask, word))
    || Clashes(Some(s[st.width - 1]), s[st.width..], st.next, mask, word, mode.Code? && CharLiteral(prev, s, word) > 0)
  }

  predicate IsBlank(c: char) { c == ' ' || c == '\n' }

  /** In code, the first character of `s` is copied. */
  predicate Kept(prev: Option<char>, s: string, mask: bool, word: WordClass)
    requires s != ""
  {
    var st := EscapesStep(prev, s, Code, mask, word);
    st.width == 1 && st.out == [s[0]] && s[0] != '"'
  }

  lemma Unfold(prev: Option<char>, s: string, mode: Mode, mask: bool, word: WordClass)
    requires s != ""
    ensures var st := EscapesStep(prev, s, mode, mask, word);
      Escapes(prev, s, mode, mask, word) == st.out + Escapes(Some(s[st.width - 1]), s[st.width..], st.next, mask, word)
  {
  }

  lemma {:induction false} SameLength(prev: Option<char>, s: string, mode: Mode, mask: bool, word: WordClass)
    ensures |Escapes(prev, s, mode, mask, word)| == |s|
    decreases |s|
  {
    hide EscapesStep;
    if s != "" {
      var st := EscapesStep(prev, s, mode, mask, word);
      SameLength(Some(s[st.width - 1]), s[st.width..], st.next, mask, word);
    }
  }

  /** Every step puts out the character it reads first, or a blank. */
  lemma Head(prev: Option<char>, s: string, mode: Mode, mask: bool, word: WordClass)
    requires s != ""
    ensures var t := Escapes(prev, s, mode, mask, word);
      && |t| == |s| && (t[0] == s[0] || t[0] == ' ')
      && t[0] == EscapesStep(prev, s, mode, mask, word).out[0]
  {
    hide Escapes;
    SameLength(prev, s, mode, mask, word);
    Unfold(prev, s, mode, mask, word);
  }

  /** A character that is not kept starts at least two blanks, or is the last one. */
  lemma TwoBlanks(prev: Option<char>, s: string, mask: bool, word: WordClass)
    requires s != "" && !Kept(prev, s, mask, word)
    ensures var t := Escapes(prev, s, Code, mask, word);
      |t| == |s| && t[0] == ' ' && (|t| > 1 ==> IsBlank(t[1]))
  {
    hide Escapes, CharLiteral;
    SameLength(prev, s, Code, mask, word);
    Unfold(prev, s, Code, mask, word);
    var st := EscapesStep(prev, s, Code, mask, word);
    if st.width == 1 && |s| > 1 {
      Head(Some(s[0]), s[1..], st.next, mask, word);
    }
  }

  lemma KeptStep(prev: Option<char>, s: string, mask: bool, word: WordClass)
    requires s != "" && Kept(prev, s, mask, word)
    ensures EscapesStep(prev, s, Code, mask, word) == Step(1, [s[0]], if s[0] == OPEN_NAME then Name else Code)
    ensures s[0] == OPEN_NAME ==> !mask
    ensures !Starts(s, '/', '-') && !Starts(s, '-', '-') && CharLiteral(prev, s, word) == 0
  {
  }

  lemma NotKept(prev: Option<char>, s: string, mask: bool, word: WordClass)
    requires s != "" && !Kept(prev, s, mask, word)
    ensures Starts(s, '/', '-') || Starts(s, '-', '-') || s[0] == '"' || CharLiteral(prev, s, word) > 0
        || (s[0] == OPEN_NAME && mask)
  {
  }

  /** After an apostrophe the next character is a word character of the output
      exactly when it is one of the input. */
  lemma WordAfterApostrophe(s: string, mode: Mode, mask: bool, word: WordClass)
    requires DelimitersApart(word) && s != "" && (mode.Code? || (mode.Name? && !mask))
    ensures var t := Escapes(Some('\''), s, mode, mask, word); |t| == |s| && (word(t[0]) <==> word(s[0]))
  {
    hide Escapes;
    Head(Some('\''), s, mode, mask, word);
    if mode.Code? && !Kept(Some('\''), s, mask, word) {
      NotKept(Some('\''), s, mask, word);
      TwoBlanks(Some('\''), s, mask, word);
    }
  }

  /** `s` starts with an apostrophe that no word character follows. */
  predicate ClosesLiteral(s: string, word: WordClass) {
    s != "" && s[0] == '\'' && !(|s| > 1 && word(s[1]))
  }

  /** The closing apostrophe of a literal survives unless it begins another literal. */
  lemma Closing(content: char, s: string, mode: Mode, mask: bool, word: WordClass)
    requires DelimitersApart(word) && (mode.Code? || (mode.Name? && !mask))
    ensures ClosesLiteral(Escapes(Some(content), s, mode, mask, word), word) <==>
            ClosesLiteral(s, word) && (mode.Name? || CharLiteral(Some(content), s, word) == 0)
  {
    hide Escapes, CharLiteral;
    SameLength(Some(content), s, mode, mask, word);
    if s != "" {
      Head(Some(content), s, mode, mask, word);
      Unfold(Some(content), s, mode, mask, word);
      var t := Escapes(Some(content), s, mode, mask, word);
      if mode.Code? && !Kept(Some(content), s, mask, word) {
        TwoBlanks(Some(content), s, mask, word);
        NotKept(Some(content), s, mask, word);
      } else if s[0] == '\'' {
        if mode.Code? { KeptStep(Some(content), s, mask, word); }
        if |s| > 1 {
          WordAfterApostrophe(s[1..], mode, mask, word);
          assert t[1] == Escapes(Some('\''), s[1..], mode, mask, word)[0];
        }
      }
    }
  }

  /** `n` characters at the start of `s`, the last of them the content of a literal,
      are followed by an apostrophe that closes it. */
  lemma ShapeIs(s: string, word: WordClass)
    requires |s| >= 2 && s[0] == '\''
    ensures LiteralShape(s, word) ==
      if s[1] == '\\' then (if |s| > 2 && s[2] != '\n' && ClosesLiteral(s[3..], word) then 4 else 0)
      else if s[1] != '\'' && s[1] != '\n' && ClosesLiteral(s[2..], word) then 3
      else 0
  {
  }

  /** The character after the opening apostrophe, when it is kept. */
  lemma ContentKept(c: char, s: string, mask: bool, word: WordClass)
    requires s != "" && Kept(Some(c), s, mask, word)
    ensures var t := Escapes(Some(c), s, Code, mask, word);
      var mode := if s[0] == OPEN_NAME then Name else Code;
      t == [s[0]] + Escapes(Some(s[0]), s[1..], mode, mask, word) && (mode.Name? ==> !mask)
  {
    hide Escapes;
    Unfold(Some(c), s, Code, mask, word);
    KeptStep(Some(c), s, mask, word);
  }

  /** Content of a one-character literal: the shape survives exactly if exposed. */
  lemma ShapeOfThree(s: string, mask: bool, word: WordClass)
    requires DelimitersApart(word) && |s| >= 2 && s[0] == '\'' && s[1] != '\\'
    ensures var t := ['\''] + Escapes(Some('\''), s[1..], Code, mask, word);
      LiteralShape(t, word) > 0 <==> Exposed(s, mask, word)
  {
    hide Escapes, CharLiteral, LiteralShape, ClosesLiteral;
    var t := ['\''] + Escapes(Some('\''), s[1..], Code, mask, word);
    SameLength(Some('\''), s[1..], Code, mask, word);
    ShapeIs(s, word);
    ShapeIs(t, word);
    Head(Some('\''), s[1..], Code, mask, word);
    if Kept(Some('\''), s[1..], mask, word) {
      ContentKept('\'', s[1..], mask, word);
      var mode := if s[1] == OPEN_NAME then Name else Code;
      assert s[1..][1..] == s[2..];
      Closing(s[1], s[2..], mode, mask, word);
      assert t[2..] == Escapes(Some(s[1]), s[2..], mode, mask, word);
      KeptStep(Some('\''), s[1..], mask, word);
    } else {
      TwoBlanks(Some('\''), s[1..], mask, word);
      SecondIsBlank("'", Escapes(Some('\''), s[1..], Code, mask, word));
      BlanksCloseNothing(t[2..], word);
      LostContent('\'', s, 1, mask, word);
    }
  }

  lemma SecondIsBlank(head: string, tail: string)
    requires tail != "" && (|tail| > 1 ==> IsBlank(tail[1]))
    ensures var t := (head + tail)[|head| + 1..]; t != "" ==> IsBlank(t[0])
  {
  }

  lemma BlanksCloseNothing(t: string, word: WordClass)
    requires t != "" ==> IsBlank(t[0])
    ensures !ClosesLiteral(t, word)
  {
  }

  /** A content character that is not kept is a quote or a masked name, unless no
      closing apostrophe follows it. */
  lemma LostContent(c: char, s: string, k: nat, mask: bool, word: WordClass)
    requires 0 < k < |s| && !Kept(Some(c), s[k..], mask, word)
    ensures ClosesLiteral(s[k + 1..], word) ==> s[k] == '"' || (s[k] == OPEN_NAME && mask)
  {
    NotKept(Some(c), s[k..], mask, word);
  }

  /** Content of an escaped literal. */
  lemma ShapeOfFour(s: string, mask: bool, word: WordClass)
    requires DelimitersApart(word) && |s| >= 2 && s[0] == '\'' && s[1] == '\\'
    ensures var t := ['\''] + Escapes(Some('\''), s[1..], Code, mask, word);
      LiteralShape(t, word) > 0 <==> Exposed(s, mask, word)
  {
    hide Escapes, CharLiteral, LiteralShape, ClosesLiteral;
    var t := ['\''] + Escapes(Some('\''), s[1..], Code, mask, word);
    SameLength(Some('\''), s[1..], Code, mask, word);
    ShapeIs(s, word);
    ShapeIs(t, word);
    BackslashKept(s[1..], mask, word);
    ContentKept('\'', s[1..], mask, word);
    assert s[1..][1..] == s[2..];
    assert t == ['\'', '\\'] + Escapes(Some('\\'), s[2..], Code, mask, word);
    if |s| > 2 {
      Head(Some('\\'), s[2..], Code, mask, word);
      if Kept(Some('\\'), s[2..], mask, word) {
        ContentKept('\\', s[2..], mask, word);
        var mode := if s[2] == OPEN_NAME then Name else Code;
        assert s[2..][1..] == s[3..];
        Closing(s[2], s[3..], mode, mask, word);
        assert t[3..] == Escapes(Some(s[2]), s[3..], mode, mask, word);
        KeptStep(Some('\\'), s[2..], mask, word);
      } else {
        TwoBlanks(Some('\\'), s[2..], mask, word);
        SecondIsBlank("'\\", Escapes(Some('\\'), s[2..], Code, mask, word));
        BlanksCloseNothing(t[3..], word);
        LostContent('\\', s, 2, mask, word);
      }
    }
  }

  lemma BackslashKept(s: string, mask: bool, word: WordClass)
    requires s != "" && s[0] == '\\'
    ensures Kept(Some('\''), s, mask, word)
  {
  }

  /** An apostrophe copied by the first run is blanked by the second exactly if it is
      exposed and follows a blanked literal. */
  lemma SecondLook(prev: Option<char>, seen: Option<char>, s: string, mask: bool, word: WordClass, afterLiteral: bool)
    requires DelimitersApart(word) && s != "" && s[0] == '\'' && CharLiteral(prev, s, word) == 0
    requires Follows(prev, seen, afterLiteral, s, word)
    ensures CharLiteral(seen, Escapes(prev, s, Code, mask, word), word) > 0 <==> afterLiteral && Exposed(s, mask, word)
  {
    hide Escapes, LiteralShape;
    var t := Escapes(prev, s, Code, mask, word);
    Unfold(prev, s, Code, mask, word);
    assert t == ['\''] + Escapes(Some('\''), s[1..], Code, mask, word);
    if |s| == 1 {
      SameLength(prev, s, Code, mask, word);
      ShortShape(s, word);
      ShortShape(t, word);
    } else if s[1] == '\\' {
      ShapeOfFour(s, mask, word);
    } else {
      ShapeOfThree(s, mask, word);
    }
  }

  lemma ShortShape(s: string, word: WordClass)
    requires |s| < 2
    ensures LiteralShape(s, word) == 0
  {
  }

  /** How the character before `s` in the output relates to the one in the input. */
  ghost predicate Follows(prev: Option<char>, seen: Option<char>, afterLiteral: bool, s: string, word: WordClass) {
    || (prev == seen && !afterLiteral)
    || (MayPrecede(seen, word) &&
        if afterLiteral then prev == Some('\'') else MayPrecede(prev, word) || s == "" || s[0] == '\n')
  }

  predicate AllBlank(s: string) { forall i :: 0 <= i < |s| ==> IsBlank(s[i]) }

  function Last(s: string, otherwise: Option<char>): Option<char> {
    if s == "" then otherwise else Some(s[|s| - 1])
  }

  /** A second run copies blanks one by one. */
  lemma {:induction false} BlanksAgain(seen: Option<char>, blanks: string, rest: string, mask: bool, word: WordClass)
    requires AllBlank(blanks)
    ensures Escapes(seen, blanks + rest, Code, mask, word)
        == blanks + Escapes(Last(blanks, seen), rest, Code, mask, word)
    decreases |blanks|
  {
    hide EscapesStep, Escapes;
    if blanks == "" {
      assert blanks + rest == rest;
      assert blanks + Escapes(seen, rest, Code, mask, word) == Escapes(seen, rest, Code, mask, word);
    } else {
      var t := blanks + rest;
      Unfold(seen, t, Code, mask, word);
      BlankStep(seen, t, mask, word);
      assert t[1..] == blanks[1..] + rest;
      BlanksAgain(Some(t[0]), blanks[1..], rest, mask, word);
      assert blanks == [t[0]] + blanks[1..];
      Associative([t[0]], blanks[1..], Escapes(Last(blanks, seen), rest, Code, mask, word));
    }
  }

  lemma BlankStep(seen: Option<char>, t: string, mask: bool, word: WordClass)
    requires t != "" && IsBlank(t[0])
    ensures EscapesStep(seen, t, Code, mask, word) == Step(1, [t[0]], Code)
  {
  }

  /** What the second run is in when the first is in `mode`. */
  function Later(mode: Mode, mask: bool): Mode { if mode.Name? && !mask then Name else Code }

  /** The steps that put out blanks. */
  predicate Blanked(prev: Option<char>, s: string, mode: Mode, mask: bool, word: WordClass)
    requires s != ""
  {
    if mode.Code? then !Kept(prev, s, mask, word) else !(mode.Name? && !mask)
  }

  lemma BlankedStep(prev: Option<char>, seen: Option<char>, s: string, mode: Mode, mask: bool, word: WordClass,
      afterLiteral: bool)
    requires DelimitersApart(word) && s != "" && Blanked(prev, s, mode, mask, word)
    requires mode.Code? ==> Follows(prev, seen, afterLiteral, s, word)
    ensures var st := EscapesStep(prev, s, mode, mask, word);
      && AllBlank(st.out) && Later(st.next, mask) == Code && Later(mode, mask) == Code
      && !(mode.Code? && afterLiteral && Exposed(s, mask, word))
      && (st.next.Code? ==> Follows(Some(s[st.width - 1]), Last(st.out, None),
          mode.Code? && CharLiteral(prev, s, word) > 0, s[st.width..], word))
  {
    hide LiteralShape;
    var st := EscapesStep(prev, s, mode, mask, word);
    assert LiteralShape(s, word) > 0 ==> s[0] == '\'';
  }

  lemma CopiedStep(prev: Option<char>, seen: Option<char>, s: string, mode: Mode, mask: bool, word: WordClass,
      afterLiteral: bool)
    requires DelimitersApart(word) && s != "" && !Blanked(prev, s, mode, mask, word)
    requires mode.Code? ==> Follows(prev, seen, afterLiteral, s, word)
    ensures var st := EscapesStep(prev, s, mode, mask, word);
      && st.width == 1 && st.out == [s[0]]
      && (st.next.Code? || st.next.Name?)
      && Later(st.next, mask) == st.next && Later(mode, mask) == mode
      && !(mode.Code? && CharLiteral(prev, s, word) > 0)
      && (mode.Code? && afterLiteral && Exposed(s, mask, word) ==> s[0] == '\'')
  {
    hide LiteralShape;
    if mode.Code? { KeptStep(prev, s, mask, word); }
    assert LiteralShape(s, word) > 0 ==> s[0] == '\'';
  }

  /** A copied character that stands for itself again. */
  lemma CopiedAgain(prev: Option<char>, seen: Option<char>, s: string, mode: Mode, mask: bool, word: WordClass,
      afterLiteral: bool)
    requires DelimitersApart(word) && s != "" && !Blanked(prev, s, mode, mask, word)
    requires mode.Code? ==> Follows(prev, seen, afterLiteral, s, word)
    requires !(mode.Code? && afterLiteral && Exposed(s, mask, word))
    ensures var t := Escapes(prev, s, mode, mask, word);
      t != "" && EscapesStep(seen, t, mode, mask, word) == EscapesStep(prev, s, mode, mask, word)
  {
    hide Escapes, CharLiteral, Exposed;
    var t := Escapes(prev, s, mode, mask, word);
    var st := EscapesStep(prev, s, mode, mask, word);
    CopiedStep(prev, seen, s, mode, mask, word, afterLiteral);
    Unfold(prev, s, mode, mask, word);
    SameLength(prev, s, mode, mask, word);
    if mode.Code? {
      KeptStep(prev, s, mask, word);
      if |s| > 1 {
        Head(Some(s[0]), s[1..], st.next, mask, word);
        assert t[1] == Escapes(Some(s[0]), s[1..], st.next, mask, word)[0];
      }
      if s[0] == '\'' { SecondLook(prev, seen, s, mask, word, afterLiteral); }
      NoLiteralElsewhere(seen, t, word);
    }
  }

  lemma NoLiteralElsewhere(seen: Option<char>, t: string, word: WordClass)
    ensures CharLiteral(seen, t, word) > 0 ==> t[0] == '\''
  {
  }

  lemma SameTail(a: string, x: string, y: string)
    ensures a + x == a + y <==> x == y
  {
    assert (a + x)[|a|..] == x && (a + y)[|a|..] == y;
  }

  lemma ClashesUnfold(prev: Option<char>, s: string, mode: Mode, mask: bool, word: WordClass, afterLiteral: bool)
    requires s != ""
    ensures var st := EscapesStep(prev, s, mode, mask, word);
      Clashes(prev, s, mode, mask, word, afterLiteral)
      <==> || (mode.Code? && afterLiteral && Exposed(s, mask, word))
           || Clashes(Some(s[st.width - 1]), s[st.width..], st.next, mask, word,
               mode.Code? && CharLiteral(prev, s, word) > 0)
  {
    hide EscapesStep, Exposed, CharLiteral;
  }

  /** The text `s` read with `prev` before it: its second run is exact from here on. */
  ghost predicate Decided(prev: Option<char>, seen: Option<char>, s: string, mode: Mode, mask: bool,
      word: WordClass, afterLiteral: bool) {
    var t := Escapes(prev, s, mode, mask, word);
    Escapes(seen, t, Later(mode, mask), mask, word) == t <==> !Clashes(prev, s, mode, mask, word, afterLiteral)
  }

  lemma SecondBlanked(prev: Option<char>, seen: Option<char>, s: string, mode: Mode, mask: bool,
      word: WordClass, afterLiteral: bool)
    requires DelimitersApart(word) && s != "" && Blanked(prev, s, mode, mask, word)
    requires mode.Code? ==> Follows(prev, seen, afterLiteral, s, word)
    requires var st := EscapesStep(prev, s, mode, mask, word);
      Decided(Some(s[st.width - 1]), Last(st.out, None), s[st.width..], st.next, mask, word,
          mode.Code? && CharLiteral(prev, s, word) > 0)
    ensures Decided(prev, seen, s, mode, mask, word, afterLiteral)
  {
    hide EscapesStep, Escapes, CharLiteral, Exposed, Follows, DelimitersApart, Blanked, Clashes;
    var st := EscapesStep(prev, s, mode, mask, word);
    var rest := Escapes(Some(s[st.width - 1]), s[st.width..], st.next, mask, word);
    Unfold(prev, s, mode, mask, word);
    ClashesUnfold(prev, s, mode, mask, word, afterLiteral);
    BlankedStep(prev, seen, s, mode, mask, word, afterLiteral);
    BlanksAgain(seen, st.out, rest, mask, word);
    SameTail(st.out, Escapes(Last(st.out, seen), rest, Code, mask, word), rest);
  }

  lemma SecondCopied(prev: Option<char>, seen: Option<char>, s: string, mode: Mode, mask: bool, word: WordClass,
      afterLiteral: bool)
    requires DelimitersApart(word) && s != "" && !Blanked(prev, s, mode, mask, word)
    requires mode.Code? ==> Follows(prev, seen, afterLiteral, s, word)
    requires !(mode.Code? && afterLiteral && Exposed(s, mask, word))
    requires Decided(Some(s[0]), Some(s[0]), s[1..], EscapesStep(prev, s, mode, mask, word).next, mask, word, false)
    ensures Decided(prev, seen, s, mode, mask, word, afterLiteral)
  {
    hide EscapesStep, Escapes, CharLiteral, Exposed, Follows, DelimitersApart, Blanked, Clashes;
    var t := Escapes(prev, s, mode, mask, word);
    var st := EscapesStep(prev, s, mode, mask, word);
    Unfold(prev, s, mode, mask, word);
    ClashesUnfold(prev, s, mode, mask, word, afterLiteral);
    CopiedStep(prev, seen, s, mode, mask, word, afterLiteral);
    CopiedAgain(prev, seen, s, mode, mask, word, afterLiteral);
    var rest := Escapes(Some(s[0]), s[1..], st.next, mask, word);
    Unfold(seen, t, mode, mask, word);
    assert t == [s[0]] + rest && t[1..] == rest;
    SameTail([s[0]], Escapes(Some(s[0]), rest, st.next, mask, word), rest);
  }

  /** The second run changes its input exactly if the first one meets a clash. */
  lemma {:induction false} SecondRun(prev: Option<char>, seen: Option<char>, s: string, mode: Mode, mask: bool,
      word: WordClass, afterLiteral: bool)
    requires DelimitersApart(word)
    requires mode.Code? ==> Follows(prev, seen, afterLiteral, s, word)
    ensures Decided(prev, seen, s, mode, mask, word, afterLiteral)
    decreases |s|
  {
    hide EscapesStep, Escapes, CharLiteral, Exposed, Follows, DelimitersApart, Blanked, Clashes, Decided;
    if s == "" {
      SecondOfNothing(prev, seen, mode, mask, word, afterLiteral);
    } else {
      var st := EscapesStep(prev, s, mode, mask, word);
      if Blanked(prev, s, mode, mask, word) {
        BlankedStep(prev, seen, s, mode, mask, word, afterLiteral);
        SecondRun(Some(s[st.width - 1]), Last(st.out, None), s[st.width..], st.next, mask, word,
            mode.Code? && CharLiteral(prev, s, word) > 0);
        SecondBlanked(prev, seen, s, mode, mask, word, afterLiteral);
      } else if mode.Code? && afterLiteral && Exposed(s, mask, word) {
        SecondClash(prev, seen, s, mode, mask, word, afterLiteral);
      } else {
        KeptFollows(Some(s[0]), s[1..], word);
        SecondRun(Some(s[0]), Some(s[0]), s[1..], st.next, mask, word, false);
        SecondCopied(prev, seen, s, mode, mask, word, afterLiteral);
      }
    }
  }

  lemma SecondOfNothing(prev: Option<char>, seen: Option<char>, mode: Mode, mask: bool, word: WordClass,
      afterLiteral: bool)
    ensures Decided(prev, seen, "", mode, mask, word, afterLiteral)
  {
    NothingTwice(prev, seen, mode, Later(mode, mask), mask, word);
  }

  lemma SecondClash(prev: Option<char>, seen: Option<char>, s: string, mode: Mode, mask: bool, word: WordClass,
      afterLiteral: bool)
    requires DelimitersApart(word) && s != "" && !Blanked(prev, s, mode, mask, word)
    requires mode.Code? && afterLiteral && Exposed(s, mask, word) && Follows(prev, seen, afterLiteral, s, word)
    ensures Decided(prev, seen, s, mode, mask, word, afterLiteral)
  {
    hide EscapesStep, Escapes, CharLiteral, Exposed, Follows, DelimitersApart, Clashes;
    CopiedStep(prev, seen, s, mode, mask, word, afterLiteral);
    ClashesUnfold(prev, s, mode, mask, word, afterLiteral);
    ClashChanges(prev, seen, s, mask, word);
  }

  lemma KeptFollows(c: Option<char>, s: string, word: WordClass)
    ensures Follows(c, c, false, s, word)
  {
  }

  lemma NothingTwice(prev: Option<char>, seen: Option<char>, mode: Mode, later: Mode, mask: bool, word: WordClass)
    ensures Escapes(prev, "", mode, mask, word) == "" == Escapes(seen, "", later, mask, word)
  {
  }

  lemma ClashChanges(prev: Option<char>, seen: Option<char>, s: string, mask: bool, word: WordClass)
    requires DelimitersApart(word) && s != "" && s[0] == '\'' && Kept(prev, s, mask, word)
    requires Follows(prev, seen, true, s, word) && Exposed(s, mask, word)
    ensures var t := Escapes(prev, s, Code, mask, word); Escapes(seen, t, Code, mask, word) != t
  {
    hide Escapes, Exposed;
    var t := Escapes(prev, s, Code, mask, word);
    KeptStep(prev, s, mask, word);
    SecondLook(prev, seen, s, mask, word, true);
    Head(prev, s, Code, mask, word);
    Head(seen, t, Code, mask, word);
  }

  // ---------------------------------------------------------------- main results

  /** A second run changes nothing exactly when no exposed literal directly follows
      a blanked one. */
  lemma IdempotentExactly(source: string, mask: bool, word: WordClass)
    requires DelimitersApart(word)
    ensures var once := StripEscapes(source, mask, word);
      StripEscapes(once, mask, word) == once <==> !Clashes(None, source, Code, mask, word, false)
  {
    hide Escapes, Clashes;
    KeptFollows(None, source, word);
    SecondRun(None, None, source, Code, mask, word, false);
  }

  /** No two apostrophes in a row, nor one at the start of `s` after another. */
  predicate Unpaired(prev: Option<char>, s: string) {
    && (s != "" && s[0] == '\'' ==> prev != Some('\''))
    && (forall k :: 0 < k < |s| ==> !(s[k - 1] == '\'' && s[k] == '\''))
  }

  lemma UnpairedRest(prev: Option<char>, s: string, n: nat)
    requires 0 < n <= |s| && Unpaired(prev, s)
    ensures Unpaired(Some(s[n - 1]), s[n..])
  {
  }

  /** A literal that follows another one directly opens with the second apostrophe of two. */
  lemma {:induction false} NoPairNoClash(prev: Option<char>, s: string, mode: Mode, mask: bool,
      word: WordClass, afterLiteral: bool)
    requires Unpaired(prev, s) && (afterLiteral ==> prev == Some('\''))
    ensures !Clashes(prev, s, mode, mask, word, afterLiteral)
    decreases |s|
  {
    hide EscapesStep, CharLiteral, Exposed, Clashes;
    if s == "" {
      NothingClashes(prev, mode, mask, word, afterLiteral);
    } else {
      var st := EscapesStep(prev, s, mode, mask, word);
      UnpairedRest(prev, s, st.width);
      ClashesUnfold(prev, s, mode, mask, word, afterLiteral);
      NotExposed(s, mask, word);
      if mode.Code? && CharLiteral(prev, s, word) > 0 { LiteralConsumed(prev, s, mask, word); }
      NoPairNoClash(Some(s[st.width - 1]), s[st.width..], st.next, mask, word,
          mode.Code? && CharLiteral(prev, s, word) > 0);
    }
  }

  lemma NothingClashes(prev: Option<char>, mode: Mode, mask: bool, word: WordClass, afterLiteral: bool)
    ensures !Clashes(prev, "", mode, mask, word, afterLiteral)
  {
  }

  lemma NotExposed(s: string, mask: bool, word: WordClass)
    requires s != ""
    ensures Exposed(s, mask, word) ==> s[0] == '\''
  {
  }

  lemma LiteralConsumed(prev: Option<char>, s: string, mask: bool, word: WordClass)
    requires s != "" && CharLiteral(prev, s, word) > 0
    ensures var st := EscapesStep(prev, s, Code, mask, word); s[st.width - 1] == '\''
  {
    hide CharLiteral;
  }

  /** In particular a second run changes nothing on source without two apostrophes in a row. */
  lemma IdempotentWithoutPairs(source: string, mask: bool, word: WordClass)
    requires DelimitersApart(word)
    requires forall k :: 0 < k < |source| ==> !(source[k - 1] == '\'' && source[k] == '\'')
    ensures var once := StripEscapes(source, mask, word); StripEscapes(once, mask, word) == once
  {
    hide Clashes, Escapes;
    assert Unpaired(None, source);
    NoPairNoClash(None, source, Code, mask, word, false);
    IdempotentExactly(source, mask, word);
  }

  /** And on source without apostrophes. */
  lemma IdempotentWithoutApostrophes(source: string, mask: bool, word: WordClass)
    requires DelimitersApart(word) && '\'' !in source
    ensures var once := StripEscapes(source, mask, word); StripEscapes(once, mask, word) == once
  {
    hide Escapes;
    IdempotentWithoutPairs(source, mask, word);
  }

  /** What is left of the first literal, and what the second one is taken for. */
  lemma SecondLiteralKept(mask: bool, word: WordClass)
    requires !word('\'')
    ensures Escapes(Some('\''), "'b'", Code, mask, word) == "'b'"
    ensures Exposed("'b'", mask, word)
  {
    hide Escapes, LiteralShape;
    LiteralOf("'b'", word);
    ShortShape("'", word);
    assert "'b'"[1..] == "b'" && "b'"[1..] == "'" && "'"[1..] == "" && "'b'"[2..] == "'";
    Unfold(Some('\''), "'b'", Code, mask, word);
    Unfold(Some('\''), "b'", Code, mask, word);
    Unfold(Some('b'), "'", Code, mask, word);
    SameLength(Some('\''), "", Code, mask, word);
  }

  /** Two literals written one after the other: the second one survives the first run. */
  lemma AdjacentLiterals(mask: bool, word: WordClass)
    requires DelimitersApart(word) && !word('\'')
    ensures StripEscapes("'a''b'", mask, word) == "   'b'"
    ensures var once := StripEscapes("'a''b'", mask, word); StripEscapes(once, mask, word) != once
  {
    hide Escapes, LiteralShape, Exposed;
    var s := "'a''b'";
    LiteralOf(s, word);
    SecondLiteralKept(mask, word);
    assert s[3..] == "'b'";
    Unfold(None, s, Code, mask, word);
    assert Clashes(Some('\''), "'b'", Code, mask, word, true);
    IdempotentExactly(s, mask, word);
  }

  lemma LiteralOf(s: string, word: WordClass)
    requires |s| >= 3 && s[0] == '\'' && s[1] != '\\' && s[1] != '\'' && s[1] != '\n' && s[2] == '\''
    requires |s| > 3 ==> !word(s[3])
    ensures LiteralShape(s, word) == 3
  {
  }
}
