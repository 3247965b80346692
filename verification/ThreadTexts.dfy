/** What any thread file parses to, said in terms of the texts between its rule lines. */
module ThreadTexts {
  import opened Wrappers
  import opened GoStrings
  import opened Sequences
  import opened ThreadMarkdown
  import opened ThreadRoundTrip

  /** A rule line is three hyphens with nothing but white space around them. */
  lemma RuleLineIff(line: string)
    ensures IsRuleLine(line) <==> exists before, after :: AllSpace(before) && AllSpace(after) && line == before + "---" + after
  {
    TrimSpaceIff(line, "---");
  }

  // ----- white space around a text keeps it free of rule lines -----

  lemma RuleFreeCons(c: char, s: string)
    requires IsSpace(c) && RuleFree(s)
    ensures RuleFree([c] + s)
  {
    var lines := Split(s);
    SplitCons(c, s);
    forall line | line in Split([c] + s)
      ensures !IsRuleLine(line)
    {
      if c != '\n' && line == [c] + lines[0] {
        assert lines[0] in lines;
        TrimOfSpaced(lines[0], c);
      } else if line == "" {
        TrimSpaceFixedIff("");
      } else {
        assert line in lines;
      }
    }
  }

  lemma RuleFreeSnoc(s: string, c: char)
    requires IsSpace(c) && RuleFree(s)
    ensures RuleFree(s + [c])
  {
    var lines := Split(s);
    var n := |lines| - 1;
    SplitLastChar(s, c);
    forall line | line in Split(s + [c])
      ensures !IsRuleLine(line)
    {
      if c != '\n' && line == lines[n] + [c] {
        assert lines[n] in lines;
        TrimOfSpaced(lines[n], c);
      } else if line == "" {
        TrimSpaceFixedIff("");
      } else {
        assert line in lines;
      }
    }
  }

  lemma {:induction false} RuleFreeBehind(pad: string, s: string)
    requires AllSpace(pad) && RuleFree(s)
    ensures RuleFree(pad + s)
  {
    if pad == "" {
      assert pad + s == s;
    } else {
      RuleFreeBehind(pad[1..], s);
      RuleFreeCons(pad[0], pad[1..] + s);
      HeadAndTail(pad);
      Assoc([pad[0]], pad[1..], s);
    }
  }

  lemma {:induction false} RuleFreeBefore(s: string, pad: string)
    requires AllSpace(pad) && RuleFree(s)
    ensures RuleFree(s + pad)
  {
    if pad == "" {
      assert s + pad == s;
    } else {
      var n := |pad| - 1;
      RuleFreeBefore(s, pad[..n]);
      RuleFreeSnoc(s + pad[..n], pad[n]);
      assert s + pad == s + pad[..n] + [pad[n]];
    }
  }

  // ----- groups of lines with rule lines between them -----

  /** The lines of the groups one after the other, rule line i behind group i. */
  function LinesOf(groups: seq<seq<string>>, rules: seq<string>): seq<string>
    requires |groups| == |rules| + 1
  {
    if rules == [] then groups[0] else groups[0] + ([rules[0]] + LinesOf(groups[1..], rules[1..]))
  }

  /** A line that is not the first half of a CR LF; carriage returns inside it are characters like others. */
  ghost predicate PlainLine(line: string) {
    '\n' !in line && (line == "" || line[|line| - 1] != '\r')
  }

  ghost predicate AllPlain(lines: seq<string>) {
    forall i :: 0 <= i < |lines| ==> PlainLine(lines[i])
  }

  ghost predicate AllRules(rules: seq<string>) {
    forall i :: 0 <= i < |rules| ==> IsRuleLine(rules[i]) && PlainLine(rules[i])
  }

  ghost predicate AllGroups(groups: seq<seq<string>>) {
    forall i :: 0 <= i < |groups| ==> NoRules(groups[i]) && AllPlain(groups[i])
  }

  lemma AllGroupsTail(groups: seq<seq<string>>, rules: seq<string>)
    requires groups != [] && rules != [] && AllGroups(groups) && AllRules(rules)
    ensures AllGroups(groups[1..]) && AllRules(rules[1..])
  {
    assert forall i :: 0 <= i < |groups[1..]| ==> groups[1..][i] == groups[i + 1];
    assert forall i :: 0 <= i < |rules[1..]| ==> rules[1..][i] == rules[i + 1];
  }

  lemma {:induction false} GroupsOfLines(groups: seq<seq<string>>, rules: seq<string>)
    requires |groups| == |rules| + 1 && AllGroups(groups) && AllRules(rules)
    ensures Groups(LinesOf(groups, rules)) == groups && AllPlain(LinesOf(groups, rules))
  {
    if rules == [] {
      GroupsOfNoRules(groups[0]);
      assert groups == [groups[0]];
    } else {
      var rest := LinesOf(groups[1..], rules[1..]);
      AllGroupsTail(groups, rules);
      GroupsOfLines(groups[1..], rules[1..]);
      GroupsAtRule(groups[0], rules[0], rest);
      Assoc(groups[0], [rules[0]], rest);
      HeadAndTail(groups);
    }
  }

  /** Every list of lines is of this form. */
  lemma {:induction false} EveryFileIsGroups(lines: seq<string>) returns (groups: seq<seq<string>>, rules: seq<string>)
    requires AllPlain(lines)
    ensures |groups| == |rules| + 1 && AllGroups(groups) && AllRules(rules) && LinesOf(groups, rules) == lines
  {
    if lines == [] {
      groups, rules := [[]], [];
    } else {
      assert forall i :: 0 <= i < |lines[1..]| ==> lines[1..][i] == lines[i + 1];
      var more, rest := EveryFileIsGroups(lines[1..]);
      HeadAndTail(lines);
      if IsRuleLine(lines[0]) {
        groups, rules := [[]] + more, [lines[0]] + rest;
        assert groups[1..] == more && rules[1..] == rest;
      } else {
        groups, rules := [[lines[0]] + more[0]] + more[1..], rest;
        LongerFirstGroup(lines[0], more, rest);
        assert NoRules(more[0]) && AllPlain(more[0]);
      }
    }
  }

  lemma LongerFirstGroup(line: string, groups: seq<seq<string>>, rules: seq<string>)
    requires |groups| == |rules| + 1
    ensures LinesOf([[line] + groups[0]] + groups[1..], rules) == [line] + LinesOf(groups, rules)
  {
    var longer := [[line] + groups[0]] + groups[1..];
    assert longer[0] == [line] + groups[0];
    if rules != [] {
      assert longer[1..] == groups[1..];
      Assoc([line], groups[0], [rules[0]] + LinesOf(groups[1..], rules[1..]));
    }
  }

  lemma {:induction false} JoinIsPlain(lines: seq<string>)
    requires AllPlain(lines)
    ensures ReplaceCRLF(Join(lines)) == Join(lines)
  {
    if lines != [] {
      assert PlainLine(lines[0]);
      NoCRLFIff(lines[0]);
      if |lines| > 1 {
        assert forall i :: 0 <= i < |lines[1..]| ==> lines[1..][i] == lines[i + 1];
        JoinIsPlain(lines[1..]);
        ReplaceAtLineFeed(lines[0], Join(lines[1..]));
      }
    }
  }

  /** Without CR LF a file is the list of its lines. */
  lemma ParseOfJoin(lines: seq<string>)
    requires lines != [] && AllPlain(lines)
    ensures Parse(Join(lines)) == ParseLines(lines)
  {
    JoinIsPlain(lines);
    forall line | line in lines
      ensures '\n' !in line
    {
      var i :| 0 <= i < |lines| && lines[i] == line;
      assert PlainLine(lines[i]);
    }
    SplitJoin(lines);
  }

  function Texts(groups: seq<seq<string>>): (texts: seq<string>)
    ensures |texts| == |groups| && forall i :: 0 <= i < |groups| ==> texts[i] == Join(groups[i])
  {
    seq(|groups|, i requires 0 <= i < |groups| => Join(groups[i]))
  }

  /**
   The outcome for these texts: the first one that holds nothing but white space is reported, then there
   have to be two, and the segments are the texts without the white space around them.
   */
  ghost predicate ParsedAs(parsed: Parsed, front: Option<string>, texts: seq<string>) {
    match parsed
    case EmptySegment(f, i) =>
      f == front && i < |texts| && TrimSpace(texts[i]) == "" && forall j :: 0 <= j < i ==> TrimSpace(texts[j]) != ""
    case TooFewPosts(f) =>
      f == front && |texts| < 2 && forall j :: 0 <= j < |texts| ==> TrimSpace(texts[j]) != ""
    case Thread(f, segments) =>
      f == front && |segments| == |texts| >= 2 && forall j :: 0 <= j < |texts| ==> segments[j] == TrimSpace(texts[j]) != ""
  }

  lemma CheckIsParsedAs(front: Option<string>, groups: seq<seq<string>>)
    ensures ParsedAs(Check(front, Segments(groups)), front, Texts(groups))
  {
  }

  /** A file whose first line is not a rule line: the texts between the rule lines are the posts. */
  lemma ParseOfGroups(groups: seq<seq<string>>, rules: seq<string>)
    requires |groups| == |rules| + 1 && AllGroups(groups) && AllRules(rules) && groups[0] != []
    ensures ParsedAs(Parse(Join(LinesOf(groups, rules))), None, Texts(groups))
  {
    var lines := LinesOf(groups, rules);
    GroupsOfLines(groups, rules);
    assert NoRules(groups[0]) && lines[0] == groups[0][0] && groups[0][0] in groups[0];
    ParseOfJoin(lines);
    CheckIsParsedAs(None, groups);
  }

  /** A file that opens with a rule line and has another one: what is between them is the front matter. */
  lemma ParseBehindFrontMatter(open: string, front: seq<string>, close: string, groups: seq<seq<string>>, rules: seq<string>)
    requires AllRules([open, close]) && NoRules(front) && AllPlain(front)
    requires |groups| == |rules| + 1 && AllGroups(groups) && AllRules(rules)
    ensures ParsedAs(Parse(Join([open] + front + [close] + LinesOf(groups, rules))), Some(Join(front)), Texts(groups))
  {
    var body := LinesOf(groups, rules);
    assert IsRuleLine([open, close][0]) && PlainLine([open, close][0]) && IsRuleLine([open, close][1]) && PlainLine([open, close][1]);
    GroupsOfLines(groups, rules);
    ParseOfJoin([open] + front + [close] + body);
    ParseLinesWithFront(open, front, close, body);
    CheckIsParsedAs(Some(Join(front)), groups);
  }

  /** A file that opens with its only rule line has an empty first post. */
  lemma ParseOfLoneRule(open: string, lines: seq<string>)
    requires AllRules([open]) && NoRules(lines) && AllPlain(lines)
    ensures Parse(Join([open] + lines)) == EmptySegment(None, 0)
  {
    assert IsRuleLine([open][0]) && PlainLine([open][0]);
    var all := [open] + lines;
    ParseOfJoin(all);
    assert forall i :: 1 <= i < |all| ==> all[i] == lines[i - 1] && lines[i - 1] in lines;
    NoSecondRule(all, 1);
    assert all[1..] == lines;
    TrimSpaceFixedIff("");
  }

  lemma {:induction false} NoSecondRule(lines: seq<string>, from: nat)
    requires from <= |lines| && forall i :: from <= i < |lines| ==> !IsRuleLine(lines[i])
    ensures RuleFrom(lines, from) == -1
    decreases |lines| - from
  {
    if from < |lines| {
      NoSecondRule(lines, from + 1);
    }
  }

  // ----- texts with rule lines between them -----

  /** The texts one after the other, rule line i behind text i. */
  function Interleave(texts: seq<string>, rules: seq<string>): string
    requires |texts| == |rules| + 1
  {
    if rules == [] then texts[0]
    else texts[0] + "\n" + (rules[0] + "\n" + Interleave(texts[1..], rules[1..]))
  }

  /** No CR LF in the text, and none when a line feed follows. */
  ghost predicate PlainText(text: string) {
    !HasCRLF(text) && (text == "" || text[|text| - 1] != '\r')
  }

  ghost predicate AllTexts(texts: seq<string>) {
    forall i :: 0 <= i < |texts| ==> RuleFree(texts[i]) && PlainText(texts[i])
  }

  function Groupings(texts: seq<string>): (groups: seq<seq<string>>)
    ensures |groups| == |texts| && forall i :: 0 <= i < |texts| ==> groups[i] == Split(texts[i])
  {
    seq(|texts|, i requires 0 <= i < |texts| => Split(texts[i]))
  }

  lemma GroupingsTail(texts: seq<string>)
    requires texts != []
    ensures Groupings(texts)[1..] == Groupings(texts[1..])
  {
  }

  lemma SplitAtRule(text: string, rule: string, rest: string)
    requires '\n' !in rule
    ensures Split(text + "\n" + (rule + "\n" + rest)) == Split(text) + ([rule] + Split(rest))
  {
    SplitConcat(text, rule + "\n" + rest);
    SplitConcat(rule, rest);
    SplitOneLine(rule);
  }

  lemma {:induction false} LinesOfTexts(texts: seq<string>, rules: seq<string>)
    requires |texts| == |rules| + 1 && AllRules(rules)
    ensures Split(Interleave(texts, rules)) == LinesOf(Groupings(texts), rules)
  {
    if rules != [] {
      assert forall i :: 0 <= i < |rules[1..]| ==> rules[1..][i] == rules[i + 1];
      LinesOfTexts(texts[1..], rules[1..]);
      assert PlainLine(rules[0]);
      SplitAtRule(texts[0], rules[0], Interleave(texts[1..], rules[1..]));
      GroupingsTail(texts);
    }
  }

  lemma PlainTail(text: string)
    requires text != "" && PlainText(text)
    ensures PlainText(text[1..]) && (text[0] == '\r' ==> text[1..] != "" && text[1] != '\n')
  {
    var tail := text[1..];
    assert forall i :: 0 <= i < |text| - 1 && text[i] == '\r' ==> text[i + 1] != '\n';
    forall i | 0 <= i < |tail| - 1 && tail[i] == '\r'
      ensures tail[i + 1] != '\n'
    {
      assert text[i + 1] == tail[i] && text[i + 1 + 1] == tail[i + 1];
    }
  }

  lemma FirstLineStarts(text: string)
    requires text != "" && text[0] != '\n'
    ensures Split(text)[0] != ""
  {
  }

  lemma {:induction false} LinesArePlain(text: string)
    requires PlainText(text)
    ensures AllPlain(Split(text))
  {
    if text != "" {
      PlainTail(text);
      LinesArePlain(text[1..]);
      HeadAndTail(text);
      SplitCons(text[0], text[1..]);
      assert PlainLine(Split(text[1..])[0]);
      if text[0] == '\r' {
        FirstLineStarts(text[1..]);
      }
    }
  }

  lemma GroupingsAreGroups(texts: seq<string>)
    requires AllTexts(texts)
    ensures AllGroups(Groupings(texts)) && Texts(Groupings(texts)) == texts
  {
    forall i | 0 <= i < |texts|
      ensures NoRules(Groupings(texts)[i]) && AllPlain(Groupings(texts)[i]) && Texts(Groupings(texts))[i] == texts[i]
    {
      assert RuleFree(texts[i]);
      LinesArePlain(texts[i]);
      JoinSplit(texts[i]);
    }
  }

  /** Any texts without rule lines, any rule lines between them. */
  lemma ParseOfTexts(texts: seq<string>, rules: seq<string>)
    requires |texts| == |rules| + 1 && AllTexts(texts) && AllRules(rules)
    ensures ParsedAs(Parse(Interleave(texts, rules)), None, texts)
  {
    GroupingsAreGroups(texts);
    LinesOfTexts(texts, rules);
    JoinSplit(Interleave(texts, rules));
    ParseOfGroups(Groupings(texts), rules);
  }

  lemma JoinBehindFront(open: string, front: string, close: string, body: string)
    requires '\n' !in open && '\n' !in close
    ensures WithFront(open, front, close, body) == Join([open] + Split(front) + [close] + Split(body))
  {
    LinesWithFront(open, front, close, body);
    JoinSplit(WithFront(open, front, close, body));
  }

  lemma ParseOfTextsBehindFrontMatter(open: string, front: string, close: string, texts: seq<string>, rules: seq<string>)
    requires AllRules([open, close]) && RuleFree(front) && PlainText(front)
    requires |texts| == |rules| + 1 && AllTexts(texts) && AllRules(rules)
    ensures ParsedAs(Parse(WithFront(open, front, close, Interleave(texts, rules))), Some(front), texts)
  {
    assert PlainLine([open, close][0]) && PlainLine([open, close][1]);
    GroupingsAreGroups(texts);
    LinesOfTexts(texts, rules);
    LinesArePlain(front);
    JoinSplit(front);
    JoinBehindFront(open, front, close, Interleave(texts, rules));
    ParseBehindFrontMatter(open, Split(front), close, Groupings(texts), rules);
  }

  // ----- clean segments with white space around them -----

  ghost predicate AllPads(pads: seq<string>) {
    forall i :: 0 <= i < |pads| ==> AllSpace(pads[i]) && '\r' !in pads[i]
  }

  function Padded(before: seq<string>, segments: seq<string>, after: seq<string>): seq<string>
    requires |before| == |segments| == |after|
  {
    seq(|segments|, i requires 0 <= i < |segments| => before[i] + segments[i] + after[i])
  }

  lemma PaddedStaysPlain(before: string, s: string, after: string)
    requires '\r' !in before && '\r' !in after && s != "" && Trimmed(s) && !HasCRLF(s)
    ensures PlainText(before + s + after)
  {
    var t := before + s + after;
    assert t[|t| - 1] == if after == "" then s[|s| - 1] else after[|after| - 1];
    forall i | 0 <= i < |t| - 1 && t[i] == '\r'
      ensures t[i + 1] != '\n'
    {
      var k := i - |before|;
      assert t[i] == s[k] && t[i + 1] == s[k + 1];
    }
  }

  lemma PaddedText(before: string, s: string, after: string)
    requires AllSpace(before) && AllSpace(after) && Clean(s)
    ensures RuleFree(before + s + after) && TrimSpace(before + s + after) == s
  {
    RuleFreeBehind(before, s);
    RuleFreeBefore(before + s, after);
    TrimSpaceOfPadded(before, s, after);
  }

  lemma PaddedTexts(before: seq<string>, segments: seq<string>, after: seq<string>)
    requires |before| == |segments| == |after| && AllPads(before) && AllPads(after) && AllClean(segments)
    requires forall i :: 0 <= i < |segments| ==> !HasCRLF(segments[i])
    ensures AllTexts(Padded(before, segments, after))
    ensures forall i :: 0 <= i < |segments| ==> TrimSpace(Padded(before, segments, after)[i]) == segments[i] != ""
  {
    forall i | 0 <= i < |segments|
      ensures RuleFree(Padded(before, segments, after)[i]) && PlainText(Padded(before, segments, after)[i])
      ensures TrimSpace(Padded(before, segments, after)[i]) == segments[i] != ""
    {
      assert Clean(segments[i]);
      PaddedText(before[i], segments[i], after[i]);
      PaddedStaysPlain(before[i], segments[i], after[i]);
    }
  }

  lemma SegmentsAreTexts(parsed: Parsed, front: Option<string>, texts: seq<string>, segments: seq<string>)
    requires ParsedAs(parsed, front, texts) && |texts| == |segments| >= 2
    requires forall i :: 0 <= i < |segments| ==> TrimSpace(texts[i]) == segments[i] != ""
    ensures parsed == Thread(front, segments)
  {
    if parsed.Thread? {
      assert parsed.segments == segments;
    }
  }

  /**
   White space around the posts, line feeds included, does not matter, and neither does white space on the
   rule lines: two or more clean segments come back as they are.
   */
  lemma PaddedSegmentsParse(before: seq<string>, segments: seq<string>, after: seq<string>, rules: seq<string>)
    requires |before| == |segments| == |after| == |rules| + 1 >= 2
    requires AllPads(before) && AllPads(after) && AllClean(segments) && AllRules(rules)
    requires forall i :: 0 <= i < |segments| ==> !HasCRLF(segments[i])
    ensures Parse(Interleave(Padded(before, segments, after), rules)) == Thread(None, segments)
  {
    var texts := Padded(before, segments, after);
    PaddedTexts(before, segments, after);
    ParseOfTexts(texts, rules);
    SegmentsAreTexts(Parse(Interleave(texts, rules)), None, texts, segments);
  }

  lemma PaddedSegmentsParseBehindFrontMatter(open: string, front: string, close: string,
                                             before: seq<string>, segments: seq<string>, after: seq<string>, rules: seq<string>)
    requires AllRules([open, close]) && RuleFree(front) && PlainText(front)
    requires |before| == |segments| == |after| == |rules| + 1 >= 2
    requires AllPads(before) && AllPads(after) && AllClean(segments) && AllRules(rules)
    requires forall i :: 0 <= i < |segments| ==> !HasCRLF(segments[i])
    ensures Parse(WithFront(open, front, close, Interleave(Padded(before, segments, after), rules))) == Thread(Some(front), segments)
  {
    var texts := Padded(before, segments, after);
    PaddedTexts(before, segments, after);
    ParseOfTextsBehindFrontMatter(open, front, close, texts, rules);
    SegmentsAreTexts(Parse(WithFront(open, front, close, Interleave(texts, rules))), Some(front), texts, segments);
  }

  // ----- line ends -----

  /** The text as an editor saves it that ends lines with CR LF. */
  function ToCRLF(s: string): string {
    if s == "" then "" else (if s[0] == '\n' then "\r\n" else [s[0]]) + ToCRLF(s[1..])
  }

  lemma {:induction false} ReplaceUndoesCRLF(s: string)
    ensures ReplaceCRLF(ToCRLF(s)) == s
  {
    if s != "" {
      var rest := ToCRLF(s[1..]);
      ReplaceUndoesCRLF(s[1..]);
      HeadAndTail(s);
      if s[0] == '\n' {
        ReplaceLineEnd(rest);
      } else {
        ReplaceCons(s[0], rest);
      }
    }
  }

  /** How the lines of a file end makes no difference. */
  lemma CRLFFilesParseAlike(s: string)
    requires !HasCRLF(s)
    ensures Parse(ToCRLF(s)) == Parse(s)
  {
    ReplaceUndoesCRLF(s);
    NoCRLFIff(s);
  }
}
