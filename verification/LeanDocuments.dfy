/** Lean documents as their author composes them, and what scanning the printed text
    makes of each part. */
module LeanDocuments {
  import opened Wrappers
  import opened LeanLexers
  import opened LeanLexing

  /** A block comment holds words and further block comments, to any depth. */
  datatype Piece = Words(text: string) | Nested(body: seq<Piece>)

  datatype StringItem = Plain(c: char) | Escaped(c: char)

  datatype Fragment =
    | CodeText(text: string)
    | EscapedName(text: string)
    | LineComment(text: string)
    | StringLiteral(items: seq<StringItem>)
    | BlockComment(body: seq<Piece>)

  // ---------------------------------------------------------------- printing

  function PrintPieces(ps: seq<Piece>): string {
    if ps == [] then "" else PrintPiece(ps[0]) + PrintPieces(ps[1..])
  }

  function PrintPiece(p: Piece): string {
    match p case Words(text) => text case Nested(body) => "/-" + PrintPieces(body) + "-/"
  }

  function PrintItems(items: seq<StringItem>): string {
    if items == [] then ""
    else (match items[0] case Plain(c) => [c] case Escaped(c) => ['\\', c]) + PrintItems(items[1..])
  }

  function PrintFragment(f: Fragment): string {
    match f
    case CodeText(text) => text
    case EscapedName(text) => [OPEN_NAME] + text + [CLOSE_NAME]
    case LineComment(text) => "--" + text
    case StringLiteral(items) => "\"" + PrintItems(items) + "\""
    case BlockComment(body) => "/-" + PrintPieces(body) + "-/"
  }

  function Print(fs: seq<Fragment>): string {
    if fs == [] then "" else PrintFragment(fs[0]) + Print(fs[1..])
  }

  // ---------------------------------------------------------------- no delimiter at a boundary

  /** No comment delimiter starts inside the words, given what follows them. */
  predicate QuietWords(text: string, following: string) {
    forall k :: 0 <= k < |text| ==>
      !Starts((text + following)[k..], '/', '-') && !Starts((text + following)[k..], '-', '/')
  }

  predicate QuietPieces(ps: seq<Piece>, following: string) {
    ps == [] || (QuietPiece(ps[0], PrintPieces(ps[1..]) + following) && QuietPieces(ps[1..], following))
  }

  predicate QuietPiece(p: Piece, following: string) {
    match p case Words(text) => QuietWords(text, following) case Nested(body) => QuietPieces(body, "-/" + following)
  }

  /** No delimiter starts inside the code, given what follows it. */
  predicate QuietCode(text: string, following: string) {
    forall k :: 0 <= k < |text| ==>
      && !Starts((text + following)[k..], '/', '-') && !Starts((text + following)[k..], '-', '-')
      && text[k] != '"' && text[k] != OPEN_NAME
  }

  /** An identifier ends on its line and no delimiter starts inside it. */
  predicate QuietName(text: string) {
    forall k :: 0 <= k < |text| ==>
      && text[k] != CLOSE_NAME && text[k] != '\n' && text[k] != '"'
      && !Starts(text[k..], '/', '-') && !Starts(text[k..], '-', '-')
  }

  predicate ItemsOk(items: seq<StringItem>) {
    forall i :: 0 <= i < |items| && items[i].Plain? ==> items[i].c != '"' && items[i].c != '\\'
  }

  predicate FragmentOk(f: Fragment, following: string) {
    match f
    case CodeText(text) => QuietCode(text, following)
    case EscapedName(text) => QuietName(text)
    case LineComment(text) => '\n' !in text && (following == "" || following[0] == '\n')
    case StringLiteral(items) => ItemsOk(items)
    case BlockComment(body) => QuietPieces(body, "-/" + following)
  }

  predicate DocumentOk(fs: seq<Fragment>) {
    fs == [] || (FragmentOk(fs[0], Print(fs[1..])) && DocumentOk(fs[1..]))
  }

  // ---------------------------------------------------------------- the intended classes

  function ClassOf(f: Fragment): Class {
    match f
    case CodeText(_) => CodeChar
    case EscapedName(_) => NameChar
    case StringLiteral(_) => StringChar
    case _ => CommentChar
  }

  function Labels(fs: seq<Fragment>): seq<Class> {
    if fs == [] then [] else Repeat(ClassOf(fs[0]), |PrintFragment(fs[0])|) + Labels(fs[1..])
  }

  /** Reading `text` from `mode` in front of `following` gives one class throughout
      and leaves the scanner in `next`. */
  ghost predicate Reads(text: string, following: string, mode: Mode, c: Class, next: Mode)
    requires !mode.Name? && !next.Name?
  {
    && Classify(text + following, mode) == Repeat(c, |text|) + Classify(following, next)
    && EndMode(text + following, mode) == EndMode(following, next)
  }

  lemma ReadsEmpty(following: string, mode: Mode, c: Class)
    requires !mode.Name?
    ensures Reads("", following, mode, c, mode)
  {
    assert "" + following == following;
  }

  lemma ReadsThen(a: string, b: string, following: string, m0: Mode, m1: Mode, m2: Mode, c: Class)
    requires !m0.Name? && !m1.Name? && !m2.Name?
    requires Reads(a, b + following, m0, c, m1) && Reads(b, following, m1, c, m2)
    ensures Reads(a + b, following, m0, c, m2)
  {
    hide Classify, EndMode;
    assert (a + b) + following == a + (b + following);
    RepeatJoin(c, |a|, |b|, Classify(following, m2));
  }

  /** One token is one reading. */
  lemma ReadsToken(text: string, following: string, mode: Mode)
    requires !mode.Name? && text != "" && NextToken(text + following, mode).width == |text|
    ensures var t := NextToken(text + following, mode); Reads(text, following, mode, t.class_, t.next)
  {
    hide NextToken;
    ClassifyUnfold(text + following, mode);
    assert (text + following)[|text|..] == following;
  }

  lemma {:induction false} ReadsWords(text: string, following: string, depth: nat)
    requires depth > 0 && QuietWords(text, following)
    ensures Reads(text, following, Comment(depth), CommentChar, Comment(depth))
    decreases |text|
  {
    hide Reads;
    if text == "" {
      ReadsEmpty(following, Comment(depth), CommentChar);
    } else {
      QuietTail(text, following);
      ReadsWords(text[1..], following, depth);
      var whole := text[..1] + (text[1..] + following);
      assert whole == (text + following)[0..];
      ReadsToken(text[..1], text[1..] + following, Comment(depth));
      ReadsThen(text[..1], text[1..], following, Comment(depth), Comment(depth), Comment(depth), CommentChar);
      assert text == text[..1] + text[1..];
    }
  }

  lemma QuietTail(text: string, following: string)
    requires text != "" && QuietWords(text, following)
    ensures QuietWords(text[1..], following)
  {
    forall k | 0 <= k < |text| - 1
      ensures !Starts((text[1..] + following)[k..], '/', '-') && !Starts((text[1..] + following)[k..], '-', '/')
    {
      assert (text[1..] + following)[k..] == (text + following)[k + 1..];
    }
  }

  /** A comment body nested to any depth ends at the depth it started from. */
  lemma {:induction false} ReadsPieces(ps: seq<Piece>, following: string, depth: nat)
    requires depth > 0 && QuietPieces(ps, following)
    ensures Reads(PrintPieces(ps), following, Comment(depth), CommentChar, Comment(depth))
    decreases ps, 0
  {
    hide Reads;
    if ps == [] {
      ReadsEmpty(following, Comment(depth), CommentChar);
    } else {
      var rest := PrintPieces(ps[1..]);
      ReadsPieces(ps[1..], following, depth);
      match ps[0] {
        case Words(text) => ReadsWords(text, rest + following, depth);
        case Nested(body) => ReadsBlock(body, rest + following, depth);
      }
      ReadsThen(PrintPiece(ps[0]), rest, following, Comment(depth), Comment(depth), Comment(depth), CommentChar);
    }
  }

  /** A whole block comment, opened at any depth. */
  lemma {:induction false} ReadsBlock(body: seq<Piece>, following: string, depth: nat)
    requires QuietPieces(body, "-/" + following)
    ensures Reads("/-" + PrintPieces(body) + "-/", following, CommentMode(depth), CommentChar, CommentMode(depth))
    decreases body, 1
  {
    hide Reads;
    var text := PrintPieces(body);
    var inside := Comment(depth + 1);
    ReadsPieces(body, "-/" + following, depth + 1);
    ReadsClose(following, depth);
    ReadsOpen(text + ("-/" + following), depth);
    ReadsThen("/-", text, "-/" + following, CommentMode(depth), inside, inside, CommentChar);
    ReadsThen("/-" + text, "-/", following, CommentMode(depth), inside, CommentMode(depth), CommentChar);
  }

  lemma ReadsOpen(following: string, depth: nat)
    ensures Reads("/-", following, CommentMode(depth), CommentChar, Comment(depth + 1))
  {
    hide Reads;
    ReadsToken("/-", following, CommentMode(depth));
  }

  lemma ReadsClose(following: string, depth: nat)
    ensures Reads("-/", following, Comment(depth + 1), CommentChar, CommentMode(depth))
  {
    hide Reads;
    ReadsToken("-/", following, Comment(depth + 1));
  }

  lemma {:induction false} ReadsItems(items: seq<StringItem>, following: string)
    requires ItemsOk(items)
    ensures Reads(PrintItems(items), following, Str, StringChar, Str)
    decreases |items|
  {
    hide Reads;
    if items == [] {
      ReadsEmpty(following, Str, StringChar);
    } else {
      var rest := PrintItems(items[1..]);
      ReadsItems(items[1..], following);
      var first := match items[0] case Plain(c) => [c] case Escaped(c) => ['\\', c];
      ReadsToken(first, rest + following, Str);
      ReadsThen(first, rest, following, Str, Str, Str, StringChar);
    }
  }

  lemma ReadsString(items: seq<StringItem>, following: string)
    requires ItemsOk(items)
    ensures Reads("\"" + PrintItems(items) + "\"", following, Code, StringChar, Code)
  {
    hide Reads;
    var text := PrintItems(items);
    ReadsToken("\"", text + ("\"" + following), Code);
    ReadsItems(items, "\"" + following);
    ReadsToken("\"", following, Str);
    ReadsThen("\"", text, "\"" + following, Code, Str, Str, StringChar);
    ReadsThen("\"" + text, "\"", following, Code, Str, Code, StringChar);
  }

  lemma {:induction false} ReadsCode(text: string, following: string)
    requires QuietCode(text, following)
    ensures Reads(text, following, Code, CodeChar, Code)
    decreases |text|
  {
    hide Reads;
    if text == "" {
      ReadsEmpty(following, Code, CodeChar);
    } else {
      QuietCodeTail(text, following);
      ReadsCode(text[1..], following);
      assert text[..1] + (text[1..] + following) == (text + following)[0..];
      ReadsToken(text[..1], text[1..] + following, Code);
      ReadsThen(text[..1], text[1..], following, Code, Code, Code, CodeChar);
      assert text == text[..1] + text[1..];
    }
  }

  lemma QuietCodeTail(text: string, following: string)
    requires text != "" && QuietCode(text, following)
    ensures QuietCode(text[1..], following)
  {
    forall k | 0 <= k < |text| - 1
      ensures !Starts((text[1..] + following)[k..], '/', '-') && !Starts((text[1..] + following)[k..], '-', '-')
      ensures text[1..][k] != '"' && text[1..][k] != OPEN_NAME
    {
      assert (text[1..] + following)[k..] == (text + following)[k + 1..];
    }
  }

  lemma {:induction false} NameEnds(s: string, k: nat, n: nat)
    requires 1 <= k <= n < |s| && s[n] == CLOSE_NAME
    requires forall i :: 1 <= i < n ==> s[i] != CLOSE_NAME && s[i] != '\n'
    ensures NameLengthFrom(s, k) == n
    decreases n - k
  {
    if k < n { NameEnds(s, k + 1, n); }
  }

  lemma ReadsName(text: string, following: string)
    requires QuietName(text)
    ensures Reads([OPEN_NAME] + text + [CLOSE_NAME], following, Code, NameChar, Code)
  {
    hide Reads;
    var name := [OPEN_NAME] + text + [CLOSE_NAME];
    var s := name + following;
    var n := |text| + 1;
    NameEnds(s, 1, n);
    forall k | 0 <= k <= n ensures !Delimits(s[k..]) {
      assert s[k..][0] == s[k];
      assert 0 < k < n - 1 ==> s[k..][1] == text[k - 1..][1];
      assert 0 < k < n ==> s[k..][0] == text[k - 1..][0];
    }
    assert ClosedName(s);
    assert s[0] == OPEN_NAME;
    ReadsToken(name, following, Code);
  }

  lemma {:induction false} LineEnds(text: string, following: string)
    requires '\n' !in text && (following == "" || following[0] == '\n')
    ensures RestOfLine(text + following) == |text|
  {
    if text != "" {
      assert (text + following)[1..] == text[1..] + following;
      LineEnds(text[1..], following);
    } else {
      assert text + following == following;
    }
  }

  lemma ReadsLine(text: string, following: string)
    requires '\n' !in text && (following == "" || following[0] == '\n')
    ensures Reads("--" + text, following, Code, CommentChar, Code)
  {
    hide Reads;
    LineEnds("--" + text, following);
    assert Starts(("--" + text) + following, '-', '-');
    ReadsToken("--" + text, following, Code);
  }

  lemma ReadsFragment(f: Fragment, following: string)
    requires FragmentOk(f, following)
    ensures Reads(PrintFragment(f), following, Code, ClassOf(f), Code)
  {
    hide Reads;
    match f {
      case CodeText(text) => ReadsCode(text, following);
      case EscapedName(text) => ReadsName(text, following);
      case LineComment(text) => ReadsLine(text, following);
      case StringLiteral(items) => ReadsString(items, following);
      case BlockComment(body) => ReadsBlock(body, following, 0);
    }
  }

  /** Reading a printed document recovers which part every character belongs to. */
  lemma {:induction false} DocumentClasses(fs: seq<Fragment>)
    requires DocumentOk(fs)
    ensures Classify(Print(fs), Code) == Labels(fs) && EndMode(Print(fs), Code) == Code
  {
    if fs != [] {
      ReadsFragment(fs[0], Print(fs[1..]));
      DocumentClasses(fs[1..]);
    }
  }

  lemma {:induction false} DocumentNames(fs: seq<Fragment>, k: nat)
    requires DocumentOk(fs) && |Labels(fs)| == |Print(fs)| && k < |Print(fs)| && Labels(fs)[k].CodeChar?
    ensures Print(fs)[k] != OPEN_NAME
    decreases |fs|
  {
    var n := |PrintFragment(fs[0])|;
    if k < n {
      assert fs[0].CodeText?;
    } else {
      assert Labels(fs)[k] == Labels(fs[1..])[k - n];
      DocumentNames(fs[1..], k - n);
    }
  }

  /** No character literal matches in the code of the printed document. */
  predicate NoLiterals(fs: seq<Fragment>, word: WordClass) {
    forall k :: 0 <= k < |Print(fs)| && k < |Labels(fs)| && Labels(fs)[k].CodeChar? ==>
      CharLiteral(Preceding(None, Print(fs), k), Print(fs)[k..], word) == 0
  }

  /** The second and the third scanner blank exactly the comments of a printed document.
      Where its code holds no character literal, the first blanks the strings as well, and
      the escaped identifiers if they are masked. The code is returned unchanged. */
  lemma DocumentScanned(fs: seq<Fragment>, mask: bool, word: WordClass)
    requires DocumentOk(fs)
    ensures |Labels(fs)| == |Print(fs)|
    ensures NoLiterals(fs, word) ==> StripEscapes(Print(fs), mask, word) == Render(Print(fs), Labels(fs), true, mask)
    ensures StripComments(Print(fs)) == Ok(Render(Print(fs), Labels(fs), false, false))
    ensures StripBlocks(Print(fs)) == Ok(Render(Print(fs), Labels(fs), false, false))
  {
    hide Classify, EndMode, Public, Inventory, Escapes, DocumentOk, Print, CharLiteral;
    DocumentClasses(fs);
    forall k | 0 <= k < |Print(fs)| && Labels(fs)[k].CodeChar? ensures Print(fs)[k] != OPEN_NAME {
      DocumentNames(fs, k);
    }
    assert PlainNames(Print(fs), Code);
    PublicExact(Print(fs), Code);
    InventoryExact(Print(fs), 0);
    if NoLiterals(fs, word) {
      assert LiteralFree(None, Print(fs), Code, word);
      EscapesExact(None, Print(fs), Code, mask, word);
    }
  }
}
