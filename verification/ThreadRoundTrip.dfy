/** When a thread written out and parsed again is the same thread. */
module ThreadRoundTrip {
  import opened Wrappers
  import opened GoStrings
  import opened Sequences
  import opened ThreadMarkdown

  /** No line of the text is a rule line. */
  ghost predicate RuleFree(s: string) {
    NoRules(Split(s))
  }

  ghost predicate NoRules(lines: seq<string>) {
    forall line :: line in lines ==> !IsRuleLine(line)
  }

  /** A segment that a thread file can hold. */
  ghost predicate Clean(s: string) {
    s != "" && Trimmed(s) && RuleFree(s)
  }

  ghost predicate AllClean(segments: seq<string>) {
    forall i :: 0 <= i < |segments| ==> Clean(segments[i])
  }

  /** The segments written out with rule lines between them. */
  function Write(segments: seq<string>): string {
    if segments == [] then ""
    else if |segments| == 1 then segments[0]
    else segments[0] + "\n---\n" + Write(segments[1..])
  }

  // ----- lines -----

  /** A rule line between two texts. */
  lemma RuleText(a: string, b: string)
    ensures a + "\n---\n" + b == a + "\n" + ("---" + "\n" + b)
  {
    assert "\n---\n" == "\n" + ("---" + "\n");
    Assoc(a + "\n", "---" + "\n", b);
    Assoc(a, "\n", "---" + "\n");
  }

  lemma SplitCons(c: char, s: string)
    ensures Split([c] + s) == if c == '\n' then [""] + Split(s) else [[c] + Split(s)[0]] + Split(s)[1..]
  {
    assert ([c] + s)[1..] == s;
  }

  lemma LineFeedBehind(head: char, tail: string, b: string)
    ensures [head] + tail + "\n" + b == [head] + (tail + "\n" + b)
  {
    Assoc([head], tail, "\n");
    Assoc([head], tail + "\n", b);
  }

  lemma {:induction false} SplitConcat(a: string, b: string)
    ensures Split(a + "\n" + b) == Split(a) + Split(b)
  {
    if a == "" {
      assert a + "\n" + b == ['\n'] + b;
      SplitCons('\n', b);
    } else {
      var head, tail := a[0], a[1..];
      var lines, more := Split(tail), Split(b);
      SplitConcat(tail, b);
      HeadAndTail(a);
      LineFeedBehind(head, tail, b);
      SplitCons(head, tail + "\n" + b);
      SplitCons(head, tail);
      ConsConcat(lines, more);
      Assoc([[head] + lines[0]], lines[1..], more);
      Assoc([""], lines, more);
    }
  }

  lemma JoinCons(c: char, lines: seq<string>)
    requires lines != []
    ensures Join([[c] + lines[0]] + lines[1..]) == [c] + Join(lines)
    ensures Join([""] + lines) == "\n" + Join(lines)
  {
    assert ([[c] + lines[0]] + lines[1..])[1..] == lines[1..];
    assert ([""] + lines)[1..] == lines;
    assert "" + "\n" == "\n";
    if |lines| > 1 {
      Assoc([c], lines[0] + "\n", Join(lines[1..]));
      Assoc([c], lines[0], "\n");
    }
  }

  lemma {:induction false} JoinSplit(s: string)
    ensures Join(Split(s)) == s
  {
    if s != "" {
      JoinSplit(s[1..]);
      assert s == [s[0]] + s[1..];
      SplitCons(s[0], s[1..]);
      JoinCons(s[0], Split(s[1..]));
    }
  }

  lemma {:induction false} SplitOneLine(line: string)
    requires '\n' !in line
    ensures Split(line) == [line]
  {
    if line != "" {
      SplitOneLine(line[1..]);
      assert line == [line[0]] + line[1..];
    }
  }

  lemma {:induction false} SplitJoin(lines: seq<string>)
    requires lines != [] && forall line :: line in lines ==> '\n' !in line
    ensures Split(Join(lines)) == lines
  {
    SplitOneLine(lines[0]);
    if |lines| > 1 {
      SplitJoin(lines[1..]);
      SplitConcat(lines[0], Join(lines[1..]));
      assert lines == [lines[0]] + lines[1..];
    }
  }

  // ----- groups -----

  lemma {:induction false} GroupsOfNoRules(lines: seq<string>)
    requires NoRules(lines)
    ensures Groups(lines) == [lines]
  {
    if lines != [] {
      assert NoRules(lines[1..]);
      GroupsOfNoRules(lines[1..]);
      assert lines == [lines[0]] + lines[1..];
    }
  }

  lemma {:induction false} GroupsAtRule(lines: seq<string>, rule: string, rest: seq<string>)
    requires NoRules(lines) && IsRuleLine(rule)
    ensures Groups(lines + [rule] + rest) == [lines] + Groups(rest)
  {
    if lines == [] {
      assert lines + [rule] + rest == [rule] + rest && ([rule] + rest)[1..] == rest;
    } else {
      assert NoRules(lines[1..]);
      GroupsAtRule(lines[1..], rule, rest);
      assert (lines + [rule] + rest)[1..] == lines[1..] + [rule] + rest;
      assert [lines[0]] + lines[1..] == lines;
    }
  }

  lemma {:induction false} GroupLines(lines: seq<string>, i: nat)
    requires i < |Groups(lines)|
    ensures NoRules(Groups(lines)[i])
    ensures forall line :: line in Groups(lines)[i] ==> line in lines
  {
    if lines != [] {
      var rest := Groups(lines[1..]);
      if IsRuleLine(lines[0]) {
        if i > 0 {
          GroupLines(lines[1..], i - 1);
        }
      } else {
        GroupLines(lines[1..], i);
      }
    }
  }

  // ----- trimming keeps a text free of rule lines -----

  lemma {:induction false} TrimLeftOfSpaced(x: string, c: char)
    requires IsSpace(c)
    ensures TrimLeft(x + [c]) == if TrimLeft(x) == "" then "" else TrimLeft(x) + [c]
  {
    if x == "" {
      assert x + [c] == [c] && [c][1..] == "";
      assert TrimLeft([c]) == TrimLeft("");
    } else if IsSpace(x[0]) {
      assert (x + [c])[1..] == x[1..] + [c];
      TrimLeftOfSpaced(x[1..], c);
    }
  }

  lemma TrimOfSpaced(x: string, c: char)
    requires IsSpace(c)
    ensures TrimSpace(x + [c]) == TrimSpace(x)
    ensures TrimSpace([c] + x) == TrimSpace(x)
  {
    TrimLeftOfSpaced(x, c);
    var t := TrimLeft(x);
    assert (t + [c])[..|t|] == t;
    assert ([c] + x)[1..] == x;
  }

  lemma RuleFreeWithoutFirst(s: string)
    requires s != "" && IsSpace(s[0]) && RuleFree(s)
    ensures RuleFree(s[1..])
  {
    var rest := Split(s[1..]);
    forall line | line in rest
      ensures !IsRuleLine(line)
    {
      if s[0] == '\n' || line in rest[1..] {
        assert line in Split(s);
      } else {
        assert line == rest[0];
        assert [s[0]] + rest[0] in Split(s);
        TrimOfSpaced(rest[0], s[0]);
      }
    }
  }

  /** The lines with a character added to the end of the text. */
  function AddChar(lines: seq<string>, c: char): seq<string>
    requires lines != []
  {
    if c == '\n' then lines + [""] else lines[..|lines| - 1] + [lines[|lines| - 1] + [c]]
  }

  lemma AddCharEmptyLine(lines: seq<string>, c: char)
    requires lines != []
    ensures AddChar([""] + lines, c) == [""] + AddChar(lines, c)
  {
    var n := |lines| - 1;
    if c != '\n' {
      assert ([""] + lines)[..n + 1] == [""] + lines[..n];
    }
  }

  lemma AddCharFirstLine(d: char, lines: seq<string>, c: char)
    requires lines != []
    ensures AddChar([[d] + lines[0]] + lines[1..], c) == [[d] + AddChar(lines, c)[0]] + AddChar(lines, c)[1..]
  {
    var n, longer := |lines| - 1, [[d] + lines[0]] + lines[1..];
    if c == '\n' {
      assert (lines + [""])[1..] == lines[1..] + [""];
    } else if n == 0 {
      assert [d] + lines[0] + [c] == [d] + (lines[0] + [c]);
    } else {
      assert longer[..n] == [[d] + lines[0]] + lines[1..n] && longer[n] == lines[n];
      assert AddChar(lines, c)[0] == lines[0];
      assert AddChar(lines, c)[1..] == lines[1..n] + [lines[n] + [c]];
    }
  }

  lemma {:induction false} SplitLastChar(t: string, c: char)
    ensures Split(t + [c]) == AddChar(Split(t), c)
  {
    if t == "" {
      assert t + [c] == [c] && [c] == [c] + "";
      SplitCons(c, "");
      assert [c] + "" == "" + [c];
    } else {
      assert t + [c] == [t[0]] + (t[1..] + [c]) && t == [t[0]] + t[1..];
      SplitLastChar(t[1..], c);
      SplitCons(t[0], t[1..] + [c]);
      SplitCons(t[0], t[1..]);
      AddCharEmptyLine(Split(t[1..]), c);
      AddCharFirstLine(t[0], Split(t[1..]), c);
    }
  }

  lemma RuleFreeWithoutLast(s: string)
    requires s != "" && IsSpace(s[|s| - 1]) && RuleFree(s)
    ensures RuleFree(s[..|s| - 1])
  {
    var t, c := s[..|s| - 1], s[|s| - 1];
    var lines := Split(t);
    assert s == t + [c];
    SplitLastChar(t, c);
    forall line | line in lines
      ensures !IsRuleLine(line)
    {
      if c == '\n' || line in lines[..|lines| - 1] {
        assert line in Split(s);
      } else {
        assert line == lines[|lines| - 1];
        assert line + [c] in Split(s);
        TrimOfSpaced(line, c);
      }
    }
  }

  lemma {:induction false} RuleFreeTrimLeft(s: string)
    requires RuleFree(s)
    ensures RuleFree(TrimLeft(s))
  {
    if s != "" && IsSpace(s[0]) {
      RuleFreeWithoutFirst(s);
      RuleFreeTrimLeft(s[1..]);
    }
  }

  lemma {:induction false} RuleFreeTrimRight(s: string)
    requires RuleFree(s)
    ensures RuleFree(TrimRight(s))
  {
    if s != "" && IsSpace(s[|s| - 1]) {
      RuleFreeWithoutLast(s);
      RuleFreeTrimRight(s[..|s| - 1]);
    }
  }

  // ----- what a successful parse yields -----

  lemma SegmentIsClean(lines: seq<string>, i: nat)
    requires forall line :: line in lines ==> '\n' !in line
    requires i < |Groups(lines)| && Segment(Groups(lines)[i]) != ""
    ensures Clean(Segment(Groups(lines)[i]))
  {
    var group := Groups(lines)[i];
    GroupLines(lines, i);
    TrimSpaceIsTrimmed(Join(group));
    if group != [] {
      SplitJoin(group);
      RuleFreeTrimLeft(Join(group));
      RuleFreeTrimRight(TrimLeft(Join(group)));
    }
  }

  /** Every successful parse yields at least two segments, each trimmed, not empty and without rule lines. */
  lemma ParsedSegmentsAreClean(input: string)
    requires Parse(input).Thread?
    ensures |Parse(input).segments| >= 2 && AllClean(Parse(input).segments)
  {
    var lines := Split(ReplaceCRLF(input));
    var end := FrontEnd(lines);
    var body := if end > 0 then lines[end + 1..] else lines;
    var segments := Segments(Groups(body));
    assert Parse(input).segments == segments;
    assert FirstEmpty(segments, 0) < 0;
    forall i | 0 <= i < |segments|
      ensures Clean(segments[i])
    {
      SegmentIsClean(body, i);
    }
  }

  // ----- writing and parsing again -----

  lemma SplitFirst(first: string, body: string)
    ensures Split(first + "\n---\n" + body) == Split(first) + ["---"] + Split(body)
  {
    RuleText(first, body);
    SplitConcat(first, "---" + "\n" + body);
    SplitConcat("---", body);
    RuleIsOneLine();
  }

  /** The groups of the written text are the lines of the segments, one group a segment. */
  ghost predicate GroupsMatch(groups: seq<seq<string>>, segments: seq<string>) {
    |groups| == |segments| && forall i :: 0 <= i < |segments| ==> groups[i] == Split(segments[i])
  }

  lemma GroupsMatchCons(groups: seq<seq<string>>, segments: seq<string>)
    requires segments != [] && GroupsMatch(groups, segments[1..])
    ensures GroupsMatch([Split(segments[0])] + groups, segments)
  {
    forall i | 0 <= i < |segments|
      ensures ([Split(segments[0])] + groups)[i] == Split(segments[i])
    {
      if i > 0 {
        assert groups[i - 1] == Split(segments[1..][i - 1]);
      }
    }
  }

  lemma WriteTwoGroups(first: string, body: string)
    requires RuleFree(first)
    ensures Groups(Split(first + "\n---\n" + body)) == [Split(first)] + Groups(Split(body))
    ensures Split(first + "\n---\n" + body)[0] == Split(first)[0]
  {
    SplitFirst(first, body);
    RuleIsOneLine();
    GroupsAtRule(Split(first), "---", Split(body));
  }

  lemma AllCleanTail(segments: seq<string>)
    requires segments != [] && AllClean(segments)
    ensures AllClean(segments[1..])
  {
  }

  lemma {:induction false} WriteToGroups(segments: seq<string>)
    requires segments != [] && AllClean(segments)
    ensures GroupsMatch(Groups(Split(Write(segments))), segments)
    ensures Split(Write(segments))[0] == Split(segments[0])[0]
  {
    assert Clean(segments[0]);
    if |segments| == 1 {
      GroupsOfNoRules(Split(segments[0]));
    } else {
      AllCleanTail(segments);
      WriteToGroups(segments[1..]);
      WriteTwoGroups(segments[0], Write(segments[1..]));
      GroupsMatchCons(Groups(Split(Write(segments[1..]))), segments);
    }
  }

  lemma RuleIsOneLine()
    ensures Split("---") == ["---"] && IsRuleLine("---")
  {
    SplitOneLine("---");
    TrimSpaceFixedIff("---");
  }

  lemma SegmentOfLines(s: string)
    requires Trimmed(s)
    ensures Segment(Split(s)) == s
  {
    JoinSplit(s);
    TrimSpaceFixedIff(s);
  }

  lemma SegmentsOfGroups(groups: seq<seq<string>>, segments: seq<string>)
    requires GroupsMatch(groups, segments) && AllClean(segments)
    ensures Segments(groups) == segments
  {
    forall i | 0 <= i < |segments|
      ensures Segments(groups)[i] == segments[i]
    {
      assert Clean(segments[i]);
      SegmentOfLines(segments[i]);
    }
  }

  lemma CleanSegmentsPass(front: Option<string>, segments: seq<string>)
    requires |segments| >= 2 && AllClean(segments)
    ensures Check(front, segments) == Thread(front, segments)
  {
    assert forall i :: 0 <= i < |segments| ==> Clean(segments[i]) && segments[i] != "";
  }

  lemma SegmentsOfWritten(front: Option<string>, segments: seq<string>)
    requires |segments| >= 2 && AllClean(segments)
    ensures Check(front, Segments(Groups(Split(Write(segments))))) == Thread(front, segments)
  {
    WriteToGroups(segments);
    SegmentsOfGroups(Groups(Split(Write(segments))), segments);
    CleanSegmentsPass(front, segments);
  }

  /** Without carriage returns in the way, the parser reads back exactly what was written. */
  lemma ParseLinesOfWritten(segments: seq<string>)
    requires |segments| >= 2 && AllClean(segments)
    ensures ParseLines(Split(Write(segments))) == Thread(None, segments)
  {
    WriteToGroups(segments);
    SegmentsOfWritten(None, segments);
    assert Clean(segments[0]);
    assert Split(segments[0])[0] in Split(segments[0]);
  }

  /** A body with front matter in front of it, between two rule lines. */
  function WithFront(open: string, front: string, close: string, body: string): string {
    open + "\n" + (front + "\n" + (close + "\n" + body))
  }

  lemma LinesWithFront(open: string, front: string, close: string, body: string)
    requires '\n' !in open && '\n' !in close
    ensures Split(WithFront(open, front, close, body)) == [open] + Split(front) + [close] + Split(body)
  {
    SplitConcat(open, front + "\n" + (close + "\n" + body));
    SplitConcat(front, close + "\n" + body);
    SplitConcat(close, body);
    SplitOneLine(open);
    SplitOneLine(close);
  }

  lemma {:induction false} RuleFromSkips(lines: seq<string>, from: nat, end: nat)
    requires from <= end < |lines| && IsRuleLine(lines[end])
    requires forall i :: from <= i < end ==> !IsRuleLine(lines[i])
    ensures RuleFrom(lines, from) == end
    decreases end - from
  {
  }

  lemma ParseLinesWithFront(open: string, front: seq<string>, close: string, body: seq<string>)
    requires IsRuleLine(open) && IsRuleLine(close) && NoRules(front)
    ensures ParseLines([open] + front + [close] + body) == Check(Some(Join(front)), Segments(Groups(body)))
  {
    var lines, end := [open] + front + [close] + body, |front| + 1;
    forall i | 1 <= i < end
      ensures !IsRuleLine(lines[i])
    {
      assert lines[i] == front[i - 1] && front[i - 1] in front;
    }
    RuleFromSkips(lines, 1, end);
    assert lines[1..end] == front && lines[end + 1..] == body;
  }

  // ----- carriage returns -----

  lemma ReplaceCons(c: char, s: string)
    requires c != '\r' || s == "" || s[0] != '\n'
    ensures ReplaceCRLF([c] + s) == [c] + ReplaceCRLF(s)
  {
    assert ([c] + s)[1..] == s;
  }

  lemma ReplaceLineEnd(s: string)
    ensures ReplaceCRLF("\r\n" + s) == "\n" + ReplaceCRLF(s)
  {
    assert ("\r\n" + s)[2..] == s;
  }

  lemma ReplaceConcatLineEnd(rest: string, b: string)
    requires ReplaceCRLF(rest + b) == ReplaceCRLF(rest) + ReplaceCRLF(b)
    ensures ReplaceCRLF("\r\n" + (rest + b)) == ReplaceCRLF("\r\n" + rest) + ReplaceCRLF(b)
  {
    ReplaceLineEnd(rest);
    ReplaceLineEnd(rest + b);
    Assoc("\n", ReplaceCRLF(rest), ReplaceCRLF(b));
  }

  lemma ReplaceConcatCons(c: char, rest: string, b: string)
    requires ReplaceCRLF(rest + b) == ReplaceCRLF(rest) + ReplaceCRLF(b)
    requires c != '\r' || (rest != "" && rest[0] != '\n') || (rest == "" && (b == "" || b[0] != '\n'))
    ensures ReplaceCRLF([c] + (rest + b)) == ReplaceCRLF([c] + rest) + ReplaceCRLF(b)
  {
    ReplaceCons(c, rest);
    ReplaceCons(c, rest + b);
    Assoc([c], ReplaceCRLF(rest), ReplaceCRLF(b));
  }

  lemma {:induction false} ReplaceConcat(a: string, b: string)
    requires a == "" || b == "" || a[|a| - 1] != '\r' || b[0] != '\n'
    ensures ReplaceCRLF(a + b) == ReplaceCRLF(a) + ReplaceCRLF(b)
    decreases |a|
  {
    if a == "" {
      assert a + b == b;
    } else if |a| >= 2 && a[0] == '\r' && a[1] == '\n' {
      var rest := a[2..];
      assert a == "\r\n" + rest;
      Assoc("\r\n", rest, b);
      ReplaceConcat(rest, b);
      ReplaceConcatLineEnd(rest, b);
    } else {
      var rest := a[1..];
      HeadAndTail(a);
      Assoc([a[0]], rest, b);
      ReplaceConcat(rest, b);
      ReplaceConcatCons(a[0], rest, b);
    }
  }

  /** Text ended by a line feed is replaced on its own, unless it ends in a carriage return. */
  lemma ReplaceAtLineFeed(a: string, rest: string)
    requires a == "" || a[|a| - 1] != '\r'
    ensures ReplaceCRLF(a + "\n" + rest) == ReplaceCRLF(a) + "\n" + ReplaceCRLF(rest)
  {
    ReplaceConcat(a + "\n", rest);
    ReplaceConcat(a, "\n");
    ReplaceCons('\n', "");
    assert ['\n'] + "" == "\n";
  }

  function ReplaceAll(segments: seq<string>): seq<string> {
    seq(|segments|, i requires 0 <= i < |segments| => ReplaceCRLF(segments[i]))
  }

  ghost predicate HasCRLF(s: string) {
    exists i :: 0 <= i < |s| - 1 && s[i] == '\r' && s[i + 1] == '\n'
  }

  lemma {:induction false} ReplaceShortens(s: string)
    ensures |ReplaceCRLF(s)| <= |s|
    decreases |s|
  {
    if s == "" {
    } else if |s| >= 2 && s[0] == '\r' && s[1] == '\n' {
      ReplaceShortens(s[2..]);
    } else {
      ReplaceShortens(s[1..]);
    }
  }

  lemma {:induction false} NoCRLFIff(s: string)
    ensures ReplaceCRLF(s) == s <==> !HasCRLF(s)
    decreases |s|
  {
    if s == "" {
    } else if |s| >= 2 && s[0] == '\r' && s[1] == '\n' {
      ReplaceShortens(s[2..]);
      assert HasCRLF(s) by {
        assert 0 <= 0 < |s| - 1;
      }
    } else {
      NoCRLFIff(s[1..]);
      assert s == [s[0]] + s[1..];
      if HasCRLF(s) {
        var i :| 0 <= i < |s| - 1 && s[i] == '\r' && s[i + 1] == '\n';
        assert s[1..][i - 1] == '\r' && s[1..][i] == '\n';
      }
      if HasCRLF(s[1..]) {
        var i :| 0 <= i < |s[1..]| - 1 && s[1..][i] == '\r' && s[1..][i + 1] == '\n';
        assert s[i + 1] == '\r' && s[i + 2] == '\n';
      }
    }
  }

  lemma RuleIsKept()
    ensures ReplaceCRLF("---") == "---"
  {
  }

  lemma ReplaceFirst(first: string, body: string)
    requires first != "" && Trimmed(first)
    ensures ReplaceCRLF(first + "\n---\n" + body) == ReplaceCRLF(first) + "\n---\n" + ReplaceCRLF(body)
  {
    RuleText(first, body);
    ReplaceAtLineFeed(first, "---" + "\n" + body);
    ReplaceAtLineFeed("---", body);
    RuleIsKept();
    RuleText(ReplaceCRLF(first), ReplaceCRLF(body));
  }

  lemma {:induction false} ReplaceWritten(segments: seq<string>)
    requires AllClean(segments)
    ensures ReplaceCRLF(Write(segments)) == Write(ReplaceAll(segments))
  {
    if |segments| >= 2 {
      var rest := segments[1..];
      assert Clean(segments[0]);
      AllCleanTail(segments);
      ReplaceWritten(rest);
      ReplaceFirst(segments[0], Write(rest));
      ReplaceAllTail(segments);
      WriteCons(ReplaceAll(segments));
    }
  }

  lemma ReplaceAllTail(segments: seq<string>)
    requires segments != []
    ensures ReplaceAll(segments)[0] == ReplaceCRLF(segments[0]) && ReplaceAll(segments)[1..] == ReplaceAll(segments[1..])
  {
  }

  lemma WriteCons(segments: seq<string>)
    requires |segments| >= 2
    ensures Write(segments) == segments[0] + "\n---\n" + Write(segments[1..])
  {
  }

  /** `after` is `before`, or `before` without the carriage return at its end. */
  ghost predicate LosesCR(before: string, after: string) {
    before == after || before == after + "\r"
  }

  lemma SplitCRLF(t: string)
    ensures Split("\r\n" + t) == ["\r"] + Split(t)
    ensures Split("\n" + t) == [""] + Split(t)
  {
    SplitCons('\n', t);
    assert "\r\n" + t == ['\r'] + ("\n" + t);
    SplitCons('\r', "\n" + t);
    assert ['\r'] + "" == "\r";
  }

  lemma LosesCRCons(c: char, before: seq<string>, after: seq<string>)
    requires |before| == |after| >= 1
    requires forall i :: 0 <= i < |before| ==> LosesCR(before[i], after[i])
    ensures LosesCR([c] + before[0], [c] + after[0])
  {
    assert [c] + (after[0] + "\r") == [c] + after[0] + "\r";
  }

  /** The same number of lines, each the same but for a carriage return at its end. */
  ghost predicate LinesLoseCR(before: seq<string>, after: seq<string>) {
    |before| == |after| && forall i :: 0 <= i < |before| ==> LosesCR(before[i], after[i])
  }

  lemma LineEndLosesCR(t: string, after: string)
    requires LinesLoseCR(Split(t), Split(after))
    ensures LinesLoseCR(Split("\r\n" + t), Split("\n" + after))
  {
    SplitCRLF(t);
    SplitCRLF(after);
    assert LosesCR("\r", "");
  }

  lemma NewLineLosesCR(lines: seq<string>, kept: seq<string>)
    requires LinesLoseCR(lines, kept)
    ensures LinesLoseCR([""] + lines, [""] + kept)
  {
    assert LosesCR("", "");
  }

  lemma LongerLineLosesCR(c: char, lines: seq<string>, kept: seq<string>)
    requires LinesLoseCR(lines, kept) && lines != []
    ensures LinesLoseCR([[c] + lines[0]] + lines[1..], [[c] + kept[0]] + kept[1..])
  {
    var left, right := [[c] + lines[0]] + lines[1..], [[c] + kept[0]] + kept[1..];
    LosesCRCons(c, lines, kept);
    forall i | 0 <= i < |left|
      ensures LosesCR(left[i], right[i])
    {
      assert i > 0 ==> left[i] == lines[i] && right[i] == kept[i];
    }
  }

  lemma CharacterLosesCR(c: char, t: string, after: string)
    requires LinesLoseCR(Split(t), Split(after))
    ensures LinesLoseCR(Split([c] + t), Split([c] + after))
  {
    SplitCons(c, t);
    SplitCons(c, after);
    if c == '\n' {
      NewLineLosesCR(Split(t), Split(after));
    } else {
      LongerLineLosesCR(c, Split(t), Split(after));
    }
  }

  lemma {:induction false} ReplaceLines(s: string)
    ensures LinesLoseCR(Split(s), Split(ReplaceCRLF(s)))
    decreases |s|
  {
    if s == "" {
    } else if |s| >= 2 && s[0] == '\r' && s[1] == '\n' {
      ReplaceLines(s[2..]);
      assert s == "\r\n" + s[2..];
      LineEndLosesCR(s[2..], ReplaceCRLF(s[2..]));
    } else {
      ReplaceLines(s[1..]);
      assert s == [s[0]] + s[1..];
      CharacterLosesCR(s[0], s[1..], ReplaceCRLF(s[1..]));
    }
  }

  lemma RuleFreeAfterReplace(s: string)
    requires RuleFree(s)
    ensures RuleFree(ReplaceCRLF(s))
  {
    var lines := Split(ReplaceCRLF(s));
    ReplaceLines(s);
    forall line | line in lines
      ensures !IsRuleLine(line)
    {
      var i :| 0 <= i < |lines| && lines[i] == line;
      assert LosesCR(Split(s)[i], line) && Split(s)[i] in Split(s);
      TrimOfSpaced(line, '\r');
    }
  }

  /** The first and the last character of a trimmed text are not touched. */
  lemma TrimmedAfterReplace(s: string)
    requires s != "" && Trimmed(s)
    ensures ReplaceCRLF(s) != "" && Trimmed(ReplaceCRLF(s))
  {
    var first, tail := [s[0]], s[1..];
    var front, last := s[..|s| - 1], [s[|s| - 1]];
    assert s == first + tail && s == front + last;
    ReplaceConcat(first, tail);
    ReplaceConcat(front, last);
    OneCharacter(s[0]);
    OneCharacter(s[|s| - 1]);
    var t := ReplaceCRLF(s);
    assert t == first + ReplaceCRLF(tail) && t == ReplaceCRLF(front) + last;
    assert t[0] == s[0] && t[|t| - 1] == s[|s| - 1];
  }

  lemma OneCharacter(c: char)
    ensures ReplaceCRLF([c]) == [c]
  {
  }

  lemma CleanAfterReplace(s: string)
    requires Clean(s)
    ensures Clean(ReplaceCRLF(s))
  {
    TrimmedAfterReplace(s);
    RuleFreeAfterReplace(s);
  }

  /**
   Writing two or more clean segments and parsing the text yields the same segments with CRLF line ends
   turned into LF, and no front matter.
   */
  lemma WriteThenParse(segments: seq<string>)
    requires |segments| >= 2 && AllClean(segments)
    ensures Parse(Write(segments)) == Thread(None, ReplaceAll(segments))
  {
    ReplaceWritten(segments);
    AllCleanAfterReplace(segments);
    ParseLinesOfWritten(ReplaceAll(segments));
  }

  lemma ReplaceAfterLine(line: string, rest: string)
    requires '\r' !in line
    ensures ReplaceCRLF(line + "\n" + rest) == line + "\n" + ReplaceCRLF(rest)
  {
    ReplaceAtLineFeed(line, rest);
    NoCRLFIff(line);
  }

  lemma ReplaceWithFront(open: string, front: string, close: string, body: string)
    requires '\r' !in open && '\r' !in front && '\r' !in close
    ensures ReplaceCRLF(WithFront(open, front, close, body)) == WithFront(open, front, close, ReplaceCRLF(body))
  {
    ReplaceAfterLine(close, body);
    ReplaceAfterLine(front, close + "\n" + body);
    ReplaceAfterLine(open, front + "\n" + (close + "\n" + body));
  }

  lemma AllCleanAfterReplace(segments: seq<string>)
    requires AllClean(segments)
    ensures AllClean(ReplaceAll(segments))
  {
    forall i | 0 <= i < |segments|
      ensures Clean(ReplaceAll(segments)[i])
    {
      CleanAfterReplace(segments[i]);
    }
  }

  /**
   Front matter without rule lines and carriage returns is handed over as it is, and the posts are read
   as before.
   */
  lemma WriteThenParseFrontMatter(front: string, segments: seq<string>)
    requires RuleFree(front) && '\r' !in front && |segments| >= 2 && AllClean(segments)
    ensures Parse(WithFront("---", front, "---", Write(segments))) == Thread(Some(front), ReplaceAll(segments))
  {
    var after := ReplaceAll(segments);
    ReplaceWithFront("---", front, "---", Write(segments));
    ReplaceWritten(segments);
    AllCleanAfterReplace(segments);
    LinesWithFront("---", front, "---", Write(after));
    RuleIsOneLine();
    ParseLinesWithFront("---", Split(front), "---", Split(Write(after)));
    JoinSplit(front);
    SegmentsOfWritten(Some(front), after);
  }

  /** Exactly which threads survive the round trip. */
  lemma RoundTripIff(segments: seq<string>)
    ensures (Parse(Write(segments)).Thread? && Parse(Write(segments)).segments == segments) <==>
            (|segments| >= 2 && AllClean(segments) && forall i :: 0 <= i < |segments| ==> !HasCRLF(segments[i]))
  {
    if Parse(Write(segments)).Thread? && Parse(Write(segments)).segments == segments {
      ParsedSegmentsAreClean(Write(segments));
    }
    if |segments| >= 2 && AllClean(segments) {
      WriteThenParse(segments);
      forall i | 0 <= i < |segments|
        ensures ReplaceAll(segments)[i] == segments[i] <==> !HasCRLF(segments[i])
      {
        NoCRLFIff(segments[i]);
      }
    }
  }
}
