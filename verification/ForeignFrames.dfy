/** Reading frames whose headers are written by other clients. */
module ForeignFrames {
  import opened Bytes
  import opened Wrappers
  import opened Sequences
  import GoStrings
  import opened FrameFormat
  import opened HeaderTexts

  /** One header line, `name` and `value` as they stand on it, and how it ends. */
  datatype RawEntry = RawEntry(name: bytes, value: bytes, end: bytes)

  ghost predicate LineEnd(end: bytes) {
    end == [LF] || end == [CR, LF]
  }

  ghost predicate Written(e: RawEntry) {
    && COLON !in e.name && LF !in e.name
    && CR !in e.value && LF !in e.value
    && LineEnd(e.end)
  }

  ghost predicate AllWritten(entries: seq<RawEntry>) {
    forall i :: 0 <= i < |entries| ==> Written(entries[i])
  }

  function Line(e: RawEntry): bytes {
    e.name + [COLON] + e.value
  }

  function Lines(entries: seq<RawEntry>): bytes {
    if entries == [] then [] else Line(entries[0]) + entries[0].end + Lines(entries[1..])
  }

  /** What the entries make of the headers read before them. */
  function Collected(entries: seq<RawEntry>, headers: Headers): Headers {
    if entries == [] then headers
    else Collected(entries[1..], headers[ToLower(TrimSpace(entries[0].name)) := TrimSpace(entries[0].value)])
  }

  // ----- one line -----

  lemma LineIsTaken(line: bytes, end: bytes, tail: bytes)
    requires LF !in line && LineEnd(end)
    ensures TakeHeaderLine(line + end + tail) == Read(ParseHeaderLine(line + end), tail)
  {
    var s := line + end + tail;
    var n := |line| + |end|;
    assert s[..n - 1] == line + end[..|end| - 1] && s[..n] == line + end && s[n..] == tail;
    GoStrings.IndexOfAt(s, LF, n - 1);
  }

  lemma EndIsTrimmed(line: bytes, end: bytes)
    requires LineEnd(end) && (line != [] ==> line[|line| - 1] != CR && line[|line| - 1] != LF)
    ensures TrimLineEnd(line + end) == line
  {
    assert TrimLineEnd(line) == line;
    if end == [LF] {
      assert (line + end)[..|line|] == line;
    } else {
      assert (line + end)[..|line| + 1] == line + [CR] && (line + [CR])[..|line|] == line;
    }
  }

  lemma EntryIsSplit(e: RawEntry)
    requires Written(e)
    ensures ParseHeaderLine(Line(e) + e.end) == Entry(ToLower(TrimSpace(e.name)), TrimSpace(e.value))
  {
    var line := Line(e);
    assert line[|line| - 1] == if e.value == [] then COLON else e.value[|e.value| - 1];
    EndIsTrimmed(line, e.end);
    ColonAfterName(e.name, e.value);
  }

  lemma EntryIsRead(e: RawEntry, tail: bytes, headers: Headers)
    requires Written(e)
    ensures ReadHeaders(Line(e) + e.end + tail, headers) ==
            ReadHeaders(tail, headers[ToLower(TrimSpace(e.name)) := TrimSpace(e.value)])
  {
    LineIsTaken(Line(e), e.end, tail);
    EntryIsSplit(e);
  }

  lemma {:induction false} EntriesAreRead(entries: seq<RawEntry>, tail: bytes, headers: Headers)
    requires AllWritten(entries)
    ensures ReadHeaders(Lines(entries) + tail, headers) == ReadHeaders(tail, Collected(entries, headers))
  {
    if entries == [] {
      assert Lines(entries) + tail == tail;
    } else {
      var e := entries[0];
      var first, rest := Line(e) + e.end, Lines(entries[1..]);
      assert forall i :: 0 <= i < |entries[1..]| ==> entries[1..][i] == entries[i + 1];
      Assoc(first, rest, tail);
      EntryIsRead(e, rest + tail, headers);
      EntriesAreRead(entries[1..], tail, headers[ToLower(TrimSpace(e.name)) := TrimSpace(e.value)]);
    }
  }

  lemma HeaderEnds(end: bytes, rest: bytes, headers: Headers)
    requires LineEnd(end)
    ensures ReadHeaders(end + rest, headers) == Read(headers, rest)
  {
    LineIsTaken([], end, rest);
    EndIsTrimmed([], end);
    assert [] + end + rest == end + rest && [] + end == end;
  }

  // ----- the length that counts -----

  /** Entry i names the length and no later entry does. */
  ghost predicate LastLength(entries: seq<RawEntry>, i: int) {
    && 0 <= i < |entries| && NamesLength(entries[i].name)
    && forall j :: i < j < |entries| ==> !NamesLength(entries[j].name)
  }

  ghost predicate NoLength(entries: seq<RawEntry>) {
    forall j :: 0 <= j < |entries| ==> !NamesLength(entries[j].name)
  }

  lemma {:induction false} OthersKeepLength(entries: seq<RawEntry>, headers: Headers)
    requires NoLength(entries)
    ensures LENGTH_KEY in Collected(entries, headers) <==> LENGTH_KEY in headers
    ensures LENGTH_KEY in headers ==> Collected(entries, headers)[LENGTH_KEY] == headers[LENGTH_KEY]
  {
    if entries != [] {
      var e := entries[0];
      assert forall i :: 0 <= i < |entries[1..]| ==> entries[1..][i] == entries[i + 1];
      NamesLengthIff(e.name);
      OthersKeepLength(entries[1..], headers[ToLower(TrimSpace(e.name)) := TrimSpace(e.value)]);
    }
  }

  lemma LengthInTail(entries: seq<RawEntry>, i: nat)
    requires LastLength(entries, i)
    ensures if i == 0 then NoLength(entries[1..]) else LastLength(entries[1..], i - 1)
  {
    assert forall j :: 0 <= j < |entries[1..]| ==> entries[1..][j] == entries[j + 1];
  }

  lemma {:induction false} LastLengthCounts(entries: seq<RawEntry>, i: nat, headers: Headers)
    requires LastLength(entries, i)
    ensures LENGTH_KEY in Collected(entries, headers)
    ensures Collected(entries, headers)[LENGTH_KEY] == TrimSpace(entries[i].value)
  {
    var next := headers[ToLower(TrimSpace(entries[0].name)) := TrimSpace(entries[0].value)];
    LengthInTail(entries, i);
    if i == 0 {
      NamesLengthIff(entries[0].name);
      OthersKeepLength(entries[1..], next);
    } else {
      LastLengthCounts(entries[1..], i - 1, next);
    }
  }

  lemma FrameOfEntries(entries: seq<RawEntry>, end: bytes, rest: bytes)
    requires AllWritten(entries) && LineEnd(end)
    ensures ReadFrame(Lines(entries) + (end + rest)) == ReadBody(Collected(entries, map[]), rest)
  {
    EntriesAreRead(entries, end + rest, map[]);
    HeaderEnds(end, rest, Collected(entries, map[]));
  }

  // ----- what is read -----

  /**
   The last entry named Content-Length, in any letter case and with any white space around name and
   number, says how many of the bytes behind the empty line are the body.
   */
  lemma FrameIsRead(entries: seq<RawEntry>, i: nat, before: string, text: bytes, after: string, end: bytes, body: bytes, rest: bytes)
    requires AllWritten(entries) && LineEnd(end) && LastLength(entries, i)
    requires Around(entries[i].value, before, text, after) && WritesLength(text, |body|)
    ensures ReadFrame(Lines(entries) + (end + (body + rest))) == Read(body, rest)
  {
    LengthIsFound(entries, i, before, text, after, |body|);
    FrameOfEntries(entries, end, body + rest);
  }

  lemma LengthIsFound(entries: seq<RawEntry>, i: nat, before: string, text: bytes, after: string, n: nat)
    requires LastLength(entries, i)
    requires Around(entries[i].value, before, text, after) && WritesLength(text, n)
    ensures LENGTH_KEY in Collected(entries, map[])
    ensures Collected(entries, map[])[LENGTH_KEY] == text != [] && Atoi(text) == Some(n)
  {
    LastLengthCounts(entries, i, map[]);
    WritesLengthIff(text, n);
    WrittenIsBare(text, n);
    TrimSpaceOfPadded(entries[i].value, before, text, after);
  }

  lemma WrittenIsBare(text: bytes, n: nat)
    requires WritesLength(text, n)
    ensures Bare(text) && text != []
  {
    var digits :| digits != [] && AllDigits(digits) && DigitsValue(digits) == n <= MAX_INT &&
                  (text == digits || text == [43] + digits || (n == 0 && text == [45] + digits));
    forall b | b in text
      ensures 33 <= b < 127
    {
    }
    PrintableIsTrimmed(text);
  }

  /** A body that is cut short is an error, and the end of the input when nothing of it is there. */
  lemma BodyIsCut(entries: seq<RawEntry>, i: nat, before: string, text: bytes, after: string, end: bytes, part: bytes, n: nat)
    requires AllWritten(entries) && LineEnd(end) && LastLength(entries, i)
    requires Around(entries[i].value, before, text, after) && WritesLength(text, n) && |part| < n
    ensures ReadFrame(Lines(entries) + (end + part)) == Fail(if part == [] then EOF else UnexpectedEOF)
  {
    LengthIsFound(entries, i, before, text, after, n);
    FrameOfEntries(entries, end, part);
  }

  /** No Content-Length entry, or a last one with nothing but white space, is a missing length. */
  lemma LengthIsMissing(entries: seq<RawEntry>, end: bytes, rest: bytes)
    requires AllWritten(entries) && LineEnd(end)
    requires NoLength(entries) || exists i, pad :: LastLength(entries, i) && GoStrings.AllSpace(pad) && entries[i].value == Encoded(pad)
    ensures ReadFrame(Lines(entries) + (end + rest)) == Fail(MissingLength)
  {
    FrameOfEntries(entries, end, rest);
    if NoLength(entries) {
      OthersKeepLength(entries, map[]);
    } else {
      var i: nat, pad :| LastLength(entries, i) && GoStrings.AllSpace(pad) && entries[i].value == Encoded(pad);
      LastLengthCounts(entries, i, map[]);
      assert Encoded("") + [] + Encoded(pad) == Encoded(pad);
      TrimSpaceOfPadded(entries[i].value, "", [], pad);
    }
  }

  /** Any other value is an invalid length. */
  lemma LengthIsInvalid(entries: seq<RawEntry>, i: nat, before: string, text: bytes, after: string, end: bytes, rest: bytes)
    requires AllWritten(entries) && LineEnd(end) && LastLength(entries, i)
    requires Around(entries[i].value, before, text, after) && Bare(text) && text != []
    requires forall n: nat :: !WritesLength(text, n)
    ensures ReadFrame(Lines(entries) + (end + rest)) == Fail(InvalidLength)
  {
    FrameOfEntries(entries, end, rest);
    LastLengthCounts(entries, i, map[]);
    TrimSpaceOfPadded(entries[i].value, before, text, after);
    if Atoi(text).Some? && Atoi(text).value >= 0 {
      WritesLengthIff(text, Atoi(text).value);
    }
  }

  /** A line without a colon, whatever entries come before it, makes the header invalid. */
  lemma HeaderIsInvalid(entries: seq<RawEntry>, line: bytes, end: bytes, rest: bytes)
    requires AllWritten(entries) && LineEnd(end)
    requires line != [] && COLON !in line && LF !in line && CR !in line
    ensures ReadFrame(Lines(entries) + (line + end + rest)) == Fail(InvalidHeader)
  {
    EntriesAreRead(entries, line + end + rest, map[]);
    LineIsTaken(line, end, rest);
    EndIsTrimmed(line, end);
  }

  /** An input that ends within its header, at any place, is at its end. */
  lemma HeaderIsCut(entries: seq<RawEntry>, part: bytes)
    requires AllWritten(entries) && LF !in part
    ensures ReadFrame(Lines(entries) + part) == Fail(EOF)
  {
    EntriesAreRead(entries, part, map[]);
    NoNewlineIsEOF(part, Collected(entries, map[]));
  }
}
