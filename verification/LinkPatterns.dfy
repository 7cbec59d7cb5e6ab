/**
  * The pattern of a link definition written out as one (scripts/markdown_text.py), and what
  * the removal leaves of each line.
  */
module LinkPatterns {

  import opened Sequences
  import opened Whitespace
  import opened LinkDefinitions

  /** The code points Python counts as white space. */
  predicate SpaceCode(c: int) {
    || c in {0x20, 0x85, 0xA0, 0x1680, 0x2028, 0x2029, 0x202F, 0x205F, 0x3000}
    || 0x09 <= c <= 0x0D || 0x1C <= c <= 0x1F || 0x2000 <= c <= 0x200A
  }

  lemma SpaceExactly(c: char)
    ensures IsSpace(c) <==> SpaceCode(c as int)
  {
  }

  /** White space without line ends, and in front of the label also quote markers. */
  predicate Gap(s: string, quotes: bool) {
    forall i :: 0 <= i < |s| ==> (SpaceCode(s[i] as int) && s[i] != '\n') || (quotes && s[i] == '>')
  }

  /** `^(?:[^\S\n]*>)*[^\S\n]* {0,3}\[(?:[^\[\]\n]|\\.)*\][^\S\n]*:` */
  predicate Parts(s: string, front: string, name: string, gap: string, rest: string) {
    Gap(front, true) && Label(name) && Gap(gap, false) && s == front + ("[" + (name + ("]" + (gap + (":" + rest)))))
  }

  ghost predicate Written(s: string) {
    exists front, name, gap, rest :: Parts(s, front, name, gap, rest)
  }

  // ----- The two gaps ------------------------------------------------------

  lemma {:induction false} FrontSkipped(front: string, s: string)
    requires Gap(front, true) && s != "" && s[0] == '['
    ensures SkipMarkers(front + s) == s
  {
    if front == "" {
      assert front + s == s;
    } else {
      SpaceExactly(front[0]);
      assert (front + s)[1..] == front[1..] + s;
      FrontSkipped(front[1..], s);
    }
  }

  lemma {:induction false} FrontFound(s: string) returns (front: string)
    ensures Gap(front, true) && s == front + SkipMarkers(s)
  {
    if s != "" && (Blank(s[0]) || s[0] == '>') {
      SpaceExactly(s[0]);
      var more := FrontFound(s[1..]);
      front := [s[0]] + more;
      assert s == [s[0]] + s[1..];
    } else {
      front := "";
      assert s == "" + s;
    }
  }

  lemma {:induction false} ColonRead(gap: string, rest: string)
    requires Gap(gap, false)
    ensures ColonNext(gap + (":" + rest))
  {
    var s := gap + (":" + rest);
    if gap == "" {
      assert s == ":" + rest;
    } else {
      SpaceExactly(gap[0]);
      assert s[1..] == gap[1..] + (":" + rest);
      ColonRead(gap[1..], rest);
    }
  }

  lemma {:induction false} ColonFound(s: string) returns (gap: string, rest: string)
    requires ColonNext(s)
    ensures Gap(gap, false) && s == gap + (":" + rest)
  {
    if s[0] == ':' {
      gap, rest := "", s[1..];
      assert s == "" + (":" + rest);
    } else {
      SpaceExactly(s[0]);
      var more;
      more, rest := ColonFound(s[1..]);
      gap := [s[0]] + more;
      assert s == [s[0]] + s[1..];
    }
  }

  /** A definition is found exactly where the whole pattern can be read. */
  lemma WrittenExactly(s: string)
    ensures IsDefinition(s) <==> Written(s)
  {
    hide SkipMarkers, ColonNext, Label, IsDefinition, Gap;
    DefinitionExactly(s);
    if Matches(s) {
      var front := FrontFound(s);
      var r := SkipMarkers(s);
      var b: nat :| ClosesAt(r[1..], b);
      var t := r[1..];
      var gap, rest := ColonFound(t[b + 1..]);
      assert t == t[..b] + ("]" + t[b + 1..]);
      assert r == "[" + t;
      assert Parts(s, front, t[..b], gap, rest);
    }
    if Written(s) {
      var front, name, gap, rest :| Parts(s, front, name, gap, rest);
      var t := name + ("]" + (gap + (":" + rest)));
      FrontSkipped(front, "[" + t);
      ColonRead(gap, rest);
      assert ("[" + t)[1..] == t;
      assert t[..|name|] == name && t[|name|] == ']' && t[|name| + 1..] == gap + (":" + rest);
      assert ClosesAt(t, |name|);
    }
  }

  // ----- Line by line ------------------------------------------------------

  /** Nothing behind the line end matters. */
  lemma {:induction false} ColonInLine(s: string, rest: string)
    requires '\n' in s
    ensures ColonNext(s + rest) <==> ColonNext(s)
  {
    assert (s + rest)[0] == s[0] && (s + rest)[1..] == s[1..] + rest;
    if s[0] != '\n' { ColonInLine(s[1..], rest); }
  }

  lemma {:induction false} LabelInLine(s: string, rest: string, prev: char)
    requires '\n' in s
    ensures LabelCloses(s + rest, prev) <==> LabelCloses(s, prev)
  {
    assert (s + rest)[0] == s[0] && (s + rest)[1..] == s[1..] + rest;
    if s[0] != '\n' {
      LabelInLine(s[1..], rest, s[0]);
      ColonInLine(s[1..], rest);
    }
  }

  lemma {:induction false} MarkersInLine(s: string, rest: string)
    requires '\n' in s
    ensures SkipMarkers(s + rest) == SkipMarkers(s) + rest && '\n' in SkipMarkers(s)
  {
    assert (s + rest)[0] == s[0] && (s + rest)[1..] == s[1..] + rest;
    if s[0] != '\n' && (Blank(s[0]) || s[0] == '>') { MarkersInLine(s[1..], rest); }
  }

  lemma DefinitionInLine(line: string, rest: string)
    requires '\n' in line
    ensures IsDefinition(line + rest) <==> IsDefinition(line)
  {
    hide SkipMarkers, LabelCloses;
    MarkersInLine(line, rest);
    var r := SkipMarkers(line);
    if r[0] == '[' {
      assert (r + rest)[1..] == r[1..] + rest;
      LabelInLine(r[1..], rest, r[0]);
    }
  }

  lemma {:induction false} LineEndIs(line: string, rest: string)
    requires line != "" && line[|line| - 1] == '\n' && forall i :: 0 <= i < |line| - 1 ==> line[i] != '\n'
    ensures LineEnd(line + rest) == |line|
  {
    assert (line + rest)[0] == line[0] && (line + rest)[1..] == line[1..] + rest;
    if |line| > 1 { LineEndIs(line[1..], rest); }
  }

  /** Each line that is a definition goes with its line end, every other line stays. */
  lemma RemovedByLine(line: string, rest: string)
    requires line != "" && line[|line| - 1] == '\n' && forall i :: 0 <= i < |line| - 1 ==> line[i] != '\n'
    ensures RemoveDefinitions(line + rest) == (if Written(line) then "" else line) + RemoveDefinitions(rest)
  {
    hide IsDefinition;
    LineEndIs(line, rest);
    DefinitionInLine(line, rest);
    WrittenExactly(line);
    assert (line + rest)[..|line|] == line && (line + rest)[|line|..] == rest;
  }

  lemma {:induction false} NoLineEnd(line: string)
    requires '\n' !in line
    ensures LineEnd(line) == |line|
  {
    if line != "" { NoLineEnd(line[1..]); }
  }

  /** So it is with a last line that has no line end. */
  lemma RemovedLast(line: string)
    requires '\n' !in line
    ensures RemoveDefinitions(line) == if Written(line) then "" else line
  {
    hide IsDefinition;
    NoLineEnd(line);
    WrittenExactly(line);
    if line != "" {
      assert line[..|line|] == line && line[|line|..] == "";
      assert line + "" == line;
    }
  }
}
