/** The thread file format: posts separated by lines that hold nothing but `---`. */
module ThreadMarkdown {
  import opened Wrappers
  import opened GoStrings

  /** strings.ReplaceAll(s, "\r\n", "\n"). */
  function ReplaceCRLF(s: string): string {
    if s == "" then ""
    else if |s| >= 2 && s[0] == '\r' && s[1] == '\n' then "\n" + ReplaceCRLF(s[2..])
    else [s[0]] + ReplaceCRLF(s[1..])
  }

  /** strings.Split(s, "\n"): one line more than there are line feeds. */
  function Split(s: string): (lines: seq<string>)
    ensures lines != []
    ensures forall line :: line in lines ==> '\n' !in line
  {
    if s == "" then [""]
    else
      var rest := Split(s[1..]);
      if s[0] == '\n' then [""] + rest else [[s[0]] + rest[0]] + rest[1..]
  }

  /** strings.Join(lines, "\n"). */
  function Join(lines: seq<string>): string {
    if lines == [] then ""
    else if |lines| == 1 then lines[0]
    else lines[0] + "\n" + Join(lines[1..])
  }

  predicate IsRuleLine(line: string) {
    TrimSpace(line) == "---"
  }

  /** The index of the first rule line at or after `from`, or -1. */
  function RuleFrom(lines: seq<string>, from: nat): (i: int)
    requires from <= |lines|
    ensures i == -1 || (from <= i < |lines| && IsRuleLine(lines[i]))
    ensures forall k :: from <= k < (if i < 0 then |lines| else i) ==> !IsRuleLine(lines[k])
    decreases |lines| - from
  {
    if from == |lines| then -1
    else if IsRuleLine(lines[from]) then from
    else RuleFrom(lines, from + 1)
  }

  /** The runs of lines between rule lines. */
  function Groups(lines: seq<string>): (groups: seq<seq<string>>)
    ensures groups != []
  {
    if lines == [] then [[]]
    else
      var rest := Groups(lines[1..]);
      if IsRuleLine(lines[0]) then [[]] + rest else [[lines[0]] + rest[0]] + rest[1..]
  }

  function Segment(group: seq<string>): string {
    TrimSpace(Join(group))
  }

  function Segments(groups: seq<seq<string>>): (segments: seq<string>)
    ensures |segments| == |groups|
    ensures forall i :: 0 <= i < |groups| ==> segments[i] == Segment(groups[i])
  {
    seq(|groups|, i requires 0 <= i < |groups| => Segment(groups[i]))
  }

  /** The text handed to the front-matter parser if there is a front matter, and the segments or the error. */
  datatype Parsed =
    | Thread(front: Option<string>, segments: seq<string>)
    | EmptySegment(front: Option<string>, index: nat)
    | TooFewPosts(front: Option<string>)

  function FirstEmpty(segments: seq<string>, from: nat): (i: int)
    requires from <= |segments|
    ensures i == -1 || (from <= i < |segments| && segments[i] == "")
    ensures forall k :: from <= k < (if i < 0 then |segments| else i) ==> segments[k] != ""
    decreases |segments| - from
  {
    if from == |segments| then -1 else if segments[from] == "" then from else FirstEmpty(segments, from + 1)
  }

  /** Where the front matter ends, or -1: it needs a rule line first and another one later. */
  function FrontEnd(lines: seq<string>): int
    requires lines != []
  {
    if IsRuleLine(lines[0]) then RuleFrom(lines, 1) else -1
  }

  function Check(front: Option<string>, segments: seq<string>): Parsed {
    var empty := FirstEmpty(segments, 0);
    if empty >= 0 then EmptySegment(front, empty)
    else if |segments| < 2 then TooFewPosts(front)
    else Thread(front, segments)
  }

  function ParseLines(lines: seq<string>): Parsed
    requires lines != []
  {
    var end := FrontEnd(lines);
    if end > 0 then Check(Some(Join(lines[1..end])), Segments(Groups(lines[end + 1..])))
    else Check(None, Segments(Groups(lines)))
  }

  function Parse(input: string): Parsed {
    ParseLines(Split(ReplaceCRLF(input)))
  }

  /** The front matter, if there is one, and where the posts start. */
  method TakeFrontMatter(lines: seq<string>) returns (front: Option<string>, start: nat)
    requires lines != []
    ensures var end := FrontEnd(lines);
      if end > 0 then front == Some(Join(lines[1..end])) && start == end + 1 else front == None && start == 0
    ensures start <= |lines|
  {
    start := 0;
    front := None;
    if IsRuleLine(lines[0]) {
      var end := -1;
      var i := 1;
      while i < |lines|
        invariant 1 <= i <= |lines|
        invariant end == -1 && RuleFrom(lines, 1) == RuleFrom(lines, i)
      {
        if IsRuleLine(lines[i]) {
          end := i;
          break;
        }
        i := i + 1;
      }
      if end > 0 {
        front := Some(Join(lines[1..end]));
        start := end + 1;
      }
    }
  }

  method CollectSegments(lines: seq<string>) returns (segments: seq<string>)
    ensures segments == Segments(Groups(lines))
  {
    segments := [];
    var current: seq<string> := [];
    AppendedNothing(lines);
    assert lines[0..] == lines;
    for i := 0 to |lines|
      invariant Segments(Groups(lines)) == Appended(segments, current, lines[i..])
    {
      assert lines[i..][1..] == lines[i + 1..];
      if IsRuleLine(lines[i]) {
        AppendedRule(segments, current, lines[i..]);
        segments := segments + [TrimSpace(Join(current))];
        current := [];
        continue;
      }
      AppendedLine(segments, current, lines[i..]);
      current := current + [lines[i]];
    }
    assert lines[|lines|..] == [];
    AppendedEnd(segments, current);
    segments := segments + [TrimSpace(Join(current))];
  }

  method CheckSegments(front: Option<string>, segments: seq<string>) returns (parsed: Parsed)
    requires forall s :: s in segments ==> Trimmed(s)
    ensures parsed == Check(front, segments)
  {
    for i := 0 to |segments|
      invariant FirstEmpty(segments, 0) == FirstEmpty(segments, i)
    {
      TrimSpaceFixedIff(segments[i]);
      if TrimSpace(segments[i]) == "" {
        return EmptySegment(front, i);
      }
    }
    if |segments| < 2 {
      return TooFewPosts(front);
    }
    parsed := Thread(front, segments);
  }

  method ParseThreadMarkdown(input: string) returns (parsed: Parsed)
    ensures parsed == Parse(input)
  {
    var lines := Split(ReplaceCRLF(input));
    var front, start := TakeFrontMatter(lines);
    var segments := CollectSegments(lines[start..]);
    assert start == 0 ==> lines[start..] == lines;
    SegmentsAreTrimmed(Groups(lines[start..]));
    parsed := CheckSegments(front, segments);
  }

  /** The segments when `segments` are done, `current` is collected and `rest` is still to come. */
  ghost function Appended(segments: seq<string>, current: seq<string>, rest: seq<string>): seq<string> {
    var groups := Groups(rest);
    segments + [Segment(current + groups[0])] + Segments(groups[1..])
  }

  lemma AppendedNothing(rest: seq<string>)
    ensures Appended([], [], rest) == Segments(Groups(rest))
  {
    assert [] + Groups(rest)[0] == Groups(rest)[0];
  }

  lemma SegmentsCons(first: seq<string>, groups: seq<seq<string>>)
    ensures Segments([first] + groups) == [Segment(first)] + Segments(groups)
  {
  }

  lemma AppendedRule(segments: seq<string>, current: seq<string>, rest: seq<string>)
    requires rest != [] && IsRuleLine(rest[0])
    ensures Appended(segments, current, rest) == Appended(segments + [Segment(current)], [], rest[1..])
  {
    var tail := Groups(rest[1..]);
    assert Groups(rest) == [[]] + tail;
    assert Groups(rest)[1..] == tail && tail == [tail[0]] + tail[1..];
    assert current + [] == current && [] + tail[0] == tail[0];
    SegmentsCons(tail[0], tail[1..]);
  }

  lemma AppendedLine(segments: seq<string>, current: seq<string>, rest: seq<string>)
    requires rest != [] && !IsRuleLine(rest[0])
    ensures Appended(segments, current, rest) == Appended(segments, current + [rest[0]], rest[1..])
  {
    var tail := Groups(rest[1..]);
    assert Groups(rest) == [[rest[0]] + tail[0]] + tail[1..];
    assert Groups(rest)[1..] == tail[1..];
    assert current + ([rest[0]] + tail[0]) == current + [rest[0]] + tail[0];
  }

  lemma AppendedEnd(segments: seq<string>, current: seq<string>)
    ensures Appended(segments, current, []) == segments + [Segment(current)]
  {
    assert current + [] == current;
  }

  lemma SegmentsAreTrimmed(groups: seq<seq<string>>)
    ensures forall s :: s in Segments(groups) ==> Trimmed(s)
  {
    forall s | s in Segments(groups)
      ensures Trimmed(s)
    {
      var i :| 0 <= i < |groups| && Segments(groups)[i] == s;
      TrimSpaceIsTrimmed(Join(groups[i]));
    }
  }
}
