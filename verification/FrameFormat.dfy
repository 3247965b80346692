/** The Content-Length framing of the stdio proxy, on byte sequences. */
module FrameFormat {
  import opened Bytes
  import opened Sequences
  import opened Wrappers
  import GoStrings

  const CR: byte := 13
  const LF: byte := 10
  const COLON: byte := 58
  const SPACE: byte := 32
  const MAX_INT: int := 0x7fff_ffff_ffff_ffff

  /** "Content-Length" and "content-length". */
  const LENGTH_NAME: bytes := [67, 111, 110, 116, 101, 110, 116, 45, 76, 101, 110, 103, 116, 104]
  const LENGTH_KEY: bytes := [99, 111, 110, 116, 101, 110, 116, 45, 108, 101, 110, 103, 116, 104]

  /** How many bytes a UTF-8 encoded white-space character takes at the front of s; 0 if there is none. */
  function LeadingSpace(s: bytes): (n: nat)
    ensures n <= |s|
  {
    if |s| >= 1 && (9 <= s[0] <= 13 || s[0] == SPACE) then 1
    else if |s| >= 2 && s[0] == 0xC2 && (s[1] == 0x85 || s[1] == 0xA0) then 2
    else if |s| < 3 then 0
    else if s[0] == 0xE1 && s[1] == 0x9A && s[2] == 0x80 then 3
    else if s[0] == 0xE2 && s[1] == 0x80 && (0x80 <= s[2] <= 0x8A || s[2] == 0xA8 || s[2] == 0xA9 || s[2] == 0xAF) then 3
    else if s[0] == 0xE2 && s[1] == 0x81 && s[2] == 0x9F then 3
    else if s[0] == 0xE3 && s[1] == 0x80 && s[2] == 0x80 then 3
    else 0
  }

  function TrailingSpace(s: bytes): (n: nat)
    ensures n <= |s|
  {
    if |s| >= 1 && LeadingSpace(s[|s| - 1..]) == 1 then 1
    else if |s| >= 2 && LeadingSpace(s[|s| - 2..]) == 2 then 2
    else if |s| >= 3 && LeadingSpace(s[|s| - 3..]) == 3 then 3
    else 0
  }

  function TrimLeft(s: bytes): bytes
    decreases |s|
  {
    if LeadingSpace(s) == 0 then s else TrimLeft(s[LeadingSpace(s)..])
  }

  function TrimRight(s: bytes): bytes
    decreases |s|
  {
    if TrailingSpace(s) == 0 then s else TrimRight(s[..|s| - TrailingSpace(s)])
  }

  /** strings.TrimSpace on the bytes of a string. */
  function TrimSpace(s: bytes): bytes {
    TrimRight(TrimLeft(s))
  }

  /** strings.TrimRight(line, "\r\n"). */
  function TrimLineEnd(s: bytes): (t: bytes)
    ensures |t| <= |s| && t == s[..|t|]
  {
    if s != [] && (s[|s| - 1] == CR || s[|s| - 1] == LF) then TrimLineEnd(s[..|s| - 1]) else s
  }

  /** strings.ToLower on ASCII letters; only ASCII letters can lower to a letter of the header's name. */
  function ToLower(s: bytes): (t: bytes)
    ensures |t| == |s|
    ensures forall i :: 0 <= i < |s| ==> t[i] == if 65 <= s[i] <= 90 then s[i] + 32 else s[i]
  {
    if s == [] then [] else [if 65 <= s[0] <= 90 then s[0] + 32 else s[0]] + ToLower(s[1..])
  }

  // ----- decimal numbers -----

  predicate IsDigit(b: byte) {
    48 <= b <= 57
  }

  predicate AllDigits(s: bytes) {
    forall b :: b in s ==> IsDigit(b)
  }

  function DigitsValue(s: bytes): nat
    requires AllDigits(s)
  {
    if s == [] then 0
    else
      assert s[|s| - 1] in s;
      10 * DigitsValue(s[..|s| - 1]) + (s[|s| - 1] as int - 48)
  }

  /** strconv.Atoi: an optional sign, at least one decimal digit, and a value that fits an int64. */
  function Atoi(s: bytes): Option<int> {
    var negative := s != [] && s[0] == 45;
    var digits := if s != [] && (s[0] == 43 || s[0] == 45) then s[1..] else s;
    if digits == [] || !AllDigits(digits) then None
    else
      var n: int := if negative then 0 - DigitsValue(digits) else DigitsValue(digits);
      if -MAX_INT - 1 <= n <= MAX_INT then Some(n) else None
  }

  /** The decimal digits of n, as "%d" prints them. */
  function Itoa(n: nat): (s: bytes)
    ensures s != [] && AllDigits(s) && DigitsValue(s) == n
  {
    if n < 10 then [48 + n]
    else
      var front := Itoa(n / 10);
      var s := front + [48 + n % 10];
      assert s[..|s| - 1] == front;
      s
  }

  // ----- frames -----

  datatype ReadError = EOF | UnexpectedEOF | InvalidHeader | MissingLength | InvalidLength

  datatype Outcome<+T> = Read(value: T, rest: bytes) | Fail(error: ReadError)

  type Headers = map<bytes, bytes>

  /** One line of the header: the end of it, an entry, or a line without a colon. */
  datatype HeaderLine = EndOfHeader | Entry(name: bytes, value: bytes) | Malformed

  function ParseHeaderLine(raw: bytes): HeaderLine {
    SplitHeader(TrimLineEnd(raw))
  }

  function SplitHeader(line: bytes): HeaderLine {
    if line == [] then EndOfHeader
    else
      var colon := GoStrings.IndexOf(line, COLON);
      if colon < 0 then Malformed else Entry(ToLower(TrimSpace(line[..colon])), TrimSpace(line[colon + 1..]))
  }

  /** The first line of the input; without a line feed there is none, and that is io.EOF. */
  function TakeHeaderLine(s: bytes): (r: Outcome<HeaderLine>)
    ensures r.Read? ==> |r.rest| < |s|
  {
    var end := GoStrings.IndexOf(s, LF);
    if end < 0 then Fail(EOF) else Read(ParseHeaderLine(s[..end + 1]), s[end + 1..])
  }

  /** The header lines up to the empty line. Any truncation inside them surfaces as io.EOF. */
  function ReadHeaders(s: bytes, headers: Headers): (r: Outcome<Headers>)
    ensures r.Read? ==> |r.rest| < |s|
    decreases |s|
  {
    match TakeHeaderLine(s)
    case Fail(e) => Fail(e)
    case Read(EndOfHeader, rest) => Read(headers, rest)
    case Read(Malformed, _) => Fail(InvalidHeader)
    case Read(Entry(name, value), rest) => ReadHeaders(rest, headers[name := value])
  }

  /** io.ReadFull into a buffer of n bytes. */
  function ReadFull(s: bytes, n: nat): Outcome<bytes> {
    if |s| >= n then Read(s[..n], s[n..])
    else Fail(if s == [] then EOF else UnexpectedEOF)
  }

  function ReadBody(headers: Headers, rest: bytes): Outcome<bytes> {
    var raw := if LENGTH_KEY in headers then headers[LENGTH_KEY] else [];
    if raw == [] then Fail(MissingLength)
    else
      match Atoi(raw)
      case None => Fail(InvalidLength)
      case Some(n) => if n < 0 then Fail(InvalidLength) else ReadFull(rest, n)
  }

  function ReadFrame(s: bytes): (r: Outcome<bytes>)
    ensures r.Read? ==> |r.rest| < |s|
  {
    match ReadHeaders(s, map[])
    case Fail(e) => Fail(e)
    case Read(headers, rest) => ReadBody(headers, rest)
  }

  /** "Content-Length: n" CR LF CR LF. */
  function Header(n: nat): bytes {
    LENGTH_NAME + [COLON, SPACE] + Itoa(n) + [CR, LF] + [CR, LF]
  }

  function WriteFrame(body: bytes): bytes {
    Header(|body|) + body
  }

  // ----- reading back a header -----

  lemma PrintableHasNoSpace(s: bytes, i: nat)
    requires i <= |s| && forall b :: b in s ==> 33 <= b < 127
    ensures LeadingSpace(s[i..]) == 0
  {
    if i < |s| {
      assert s[i..][0] == s[i] && s[i] in s;
    }
  }

  /** Printable ASCII is not trimmed. */
  lemma PrintableIsTrimmed(s: bytes)
    requires forall b :: b in s ==> 33 <= b < 127
    ensures LeadingSpace(s) == 0 && TrailingSpace(s) == 0 && TrimSpace(s) == s
  {
    forall i | 0 <= i <= |s|
      ensures LeadingSpace(s[i..]) == 0
    {
      PrintableHasNoSpace(s, i);
    }
    assert s[0..] == s;
  }

  lemma LeadingBlankIsTrimmed(s: bytes)
    requires forall b :: b in s ==> 33 <= b < 127
    ensures TrimSpace([SPACE] + s) == s
  {
    PrintableIsTrimmed(s);
    assert LeadingSpace([SPACE] + s) == 1 && ([SPACE] + s)[1..] == s;
    assert TrimLeft([SPACE] + s) == TrimLeft(s) == s;
  }

  lemma LowerIs(s: bytes, t: bytes)
    requires |s| == |t| && forall i :: 0 <= i < |s| ==> t[i] == if 65 <= s[i] <= 90 then s[i] + 32 else s[i]
    ensures ToLower(s) == t
  {
  }

  lemma NameIsPrintable(name: bytes)
    requires name == LENGTH_NAME
    ensures forall b :: b in name ==> 33 <= b < 127
  {
  }

  lemma NameLowersToKey(name: bytes)
    requires name == LENGTH_NAME
    ensures ToLower(name) == LENGTH_KEY
  {
    LowerIs(name, LENGTH_KEY);
  }

  lemma NameIsKey(name: bytes)
    requires name == LENGTH_NAME
    ensures ToLower(TrimSpace(name)) == LENGTH_KEY
  {
    NameIsPrintable(name);
    PrintableIsTrimmed(name);
    NameLowersToKey(name);
  }

  /** The text of the length header, without its line end. */
  function LengthLine(n: nat): bytes {
    LENGTH_NAME + [COLON, SPACE] + Itoa(n)
  }

  lemma LengthLineHasNoLineEnd(n: nat)
    ensures forall b :: b in LengthLine(n) ==> b != LF && b != CR
  {
  }

  lemma LineEndIsTrimmed(line: bytes)
    requires line != [] && line[|line| - 1] != LF && line[|line| - 1] != CR
    ensures TrimLineEnd(line + [CR, LF]) == line
  {
    assert (line + [CR, LF])[..|line| + 1] == line + [CR];
    assert (line + [CR])[..|line|] == line;
    assert TrimLineEnd(line + [CR, LF]) == TrimLineEnd(line + [CR]) == TrimLineEnd(line);
  }

  lemma ColonAfterName(name: bytes, value: bytes)
    requires COLON !in name
    ensures var line := name + [COLON] + value;
      GoStrings.IndexOf(line, COLON) == |name| && line[..|name|] == name && line[|name| + 1..] == value
  {
    var line := name + [COLON] + value;
    assert line[..|name|] == name;
    GoStrings.IndexOfAt(line, COLON, |name|);
  }

  lemma LengthLineColon(n: nat)
    ensures GoStrings.IndexOf(LengthLine(n), COLON) == |LENGTH_NAME|
    ensures LengthLine(n)[..|LENGTH_NAME|] == LENGTH_NAME
    ensures LengthLine(n)[|LENGTH_NAME| + 1..] == [SPACE] + Itoa(n)
  {
    assert LengthLine(n) == LENGTH_NAME + [COLON] + ([SPACE] + Itoa(n));
    ColonAfterName(LENGTH_NAME, [SPACE] + Itoa(n));
  }

  /** Where the first line of a text ends. */
  lemma FirstLine(line: bytes, tail: bytes)
    requires forall b :: b in line ==> b != LF
    ensures var s := line + [CR, LF] + tail;
      GoStrings.IndexOf(s, LF) == |line| + 1 && s[..|line| + 2] == line + [CR, LF] && s[|line| + 2..] == tail
  {
    var s := line + [CR, LF] + tail;
    assert s[..|line| + 1] == line + [CR];
    assert LF !in line + [CR];
    GoStrings.IndexOfAt(s, LF, |line| + 1);
  }

  lemma LineIsTaken(line: bytes, tail: bytes)
    requires forall b :: b in line ==> b != LF
    ensures TakeHeaderLine(line + [CR, LF] + tail) == Read(ParseHeaderLine(line + [CR, LF]), tail)
  {
    FirstLine(line, tail);
  }

  lemma LineIsSplit(line: bytes)
    requires line != [] && forall b :: b in line ==> b != LF && b != CR
    ensures ParseHeaderLine(line + [CR, LF]) == SplitHeader(line)
  {
    assert line[|line| - 1] in line;
    LineEndIsTrimmed(line);
  }

  lemma EntryIsAdded(s: bytes, name: bytes, value: bytes, tail: bytes, headers: Headers)
    requires TakeHeaderLine(s) == Read(Entry(name, value), tail)
    ensures ReadHeaders(s, headers) == ReadHeaders(tail, headers[name := value])
  {
  }

  /** One header line is taken off the front. */
  lemma ReadHeadersLine(line: bytes, tail: bytes, headers: Headers)
    requires line != [] && forall b :: b in line ==> b != LF && b != CR
    requires GoStrings.IndexOf(line, COLON) >= 0
    ensures var colon := GoStrings.IndexOf(line, COLON);
      ReadHeaders(line + [CR, LF] + tail, headers) ==
      ReadHeaders(tail, headers[ToLower(TrimSpace(line[..colon])) := TrimSpace(line[colon + 1..])])
  {
    var colon := GoStrings.IndexOf(line, COLON);
    LineIsTaken(line, tail);
    LineIsSplit(line);
    EntryIsAdded(line + [CR, LF] + tail, ToLower(TrimSpace(line[..colon])), TrimSpace(line[colon + 1..]), tail, headers);
  }

  lemma HeaderSplit(n: nat, rest: bytes)
    ensures Header(n) + rest == LengthLine(n) + [CR, LF] + ([CR, LF] + rest)
  {
  }

  /** The entry that the length header makes in the map. */
  lemma LengthEntry(n: nat)
    ensures var line, colon := LengthLine(n), GoStrings.IndexOf(LengthLine(n), COLON);
      && 0 <= colon < |line|
      && ToLower(TrimSpace(line[..colon])) == LENGTH_KEY
      && TrimSpace(line[colon + 1..]) == Itoa(n)
  {
    LengthLineColon(n);
    NameIsKey(LengthLine(n)[..|LENGTH_NAME|]);
    DigitsAreTrimmed(LengthLine(n)[|LENGTH_NAME| + 1..], n);
  }

  lemma DigitsAreTrimmed(value: bytes, n: nat)
    requires value == [SPACE] + Itoa(n)
    ensures TrimSpace(value) == Itoa(n)
  {
    LeadingBlankIsTrimmed(Itoa(n));
  }

  lemma LengthLineIsRead(n: nat, tail: bytes)
    ensures ReadHeaders(LengthLine(n) + [CR, LF] + tail, map[]) == ReadHeaders(tail, map[LENGTH_KEY := Itoa(n)])
  {
    LengthLineHasNoLineEnd(n);
    LengthEntry(n);
    ReadHeadersLine(LengthLine(n), tail, map[]);
  }

  /** The header of a frame parses to its one entry, whatever follows. */
  lemma HeaderReadsBack(n: nat, rest: bytes)
    ensures ReadHeaders(Header(n) + rest, map[]) == Read(map[LENGTH_KEY := Itoa(n)], rest)
  {
    HeaderSplit(n, rest);
    LengthLineIsRead(n, [CR, LF] + rest);
    EmptyLineEnds(map[LENGTH_KEY := Itoa(n)], rest);
  }

  lemma EmptyLineEnds(headers: Headers, rest: bytes)
    ensures ReadHeaders([CR, LF] + rest, headers) == Read(headers, rest)
  {
    var s := [CR, LF] + rest;
    GoStrings.IndexOfAt(s, LF, 1);
    assert s[..2] == [CR, LF] && s[2..] == rest;
    assert [CR, LF][..1] == [CR] && [CR][..0] == [];
    assert TrimLineEnd([CR, LF]) == [];
  }

  lemma AtoiOfItoa(n: nat)
    requires n <= MAX_INT
    ensures Atoi(Itoa(n)) == Some(n)
  {
    assert Itoa(n)[0] in Itoa(n);
  }

  /** Whatever bytes a body consists of, reading its frame gives it back and stops right behind it. */
  lemma FrameRoundTrip(body: bytes, rest: bytes)
    requires |body| <= MAX_INT
    ensures ReadFrame(WriteFrame(body) + rest) == Read(body, rest)
  {
    assert WriteFrame(body) + rest == Header(|body|) + (body + rest);
    HeaderReadsBack(|body|, body + rest);
    AtoiOfItoa(|body|);
  }

  lemma NoNewlineIsEOF(s: bytes, headers: Headers)
    requires LF !in s
    ensures ReadHeaders(s, headers) == Fail(EOF)
  {
  }

  lemma CutHeaderFails(n: nat, k: nat)
    requires k < |Header(n)|
    ensures ReadHeaders(Header(n)[..k], map[]) == Fail(EOF)
  {
    var line := LengthLine(n);
    var s := Header(n)[..k];
    assert Header(n) == line + [CR, LF] + [CR, LF];
    LengthLineHasNoLineEnd(n);
    if k <= |line| + 1 {
      assert s == (line + [CR])[..k];
      assert forall b :: b in s ==> b in line + [CR];
      NoNewlineIsEOF(s, map[]);
    } else {
      var tail := s[|line| + 2..];
      assert tail == [] || tail == [CR];
      assert s == line + [CR, LF] + tail;
      LengthLineIsRead(n, tail);
      NoNewlineIsEOF(tail, map[LENGTH_KEY := Itoa(n)]);
    }
  }

  /**
   No proper prefix of a frame reads as a frame. The cut is reported as unexpected only when at least one
   byte of the body has arrived; before that it looks like the end of the input.
   */
  lemma NoPrefixIsAFrame(body: bytes, k: nat)
    requires |body| <= MAX_INT && k < |WriteFrame(body)|
    ensures ReadFrame(WriteFrame(body)[..k]) == Fail(if k > |Header(|body|)| then UnexpectedEOF else EOF)
  {
    var n := |body|;
    var s := WriteFrame(body)[..k];
    if k < |Header(n)| {
      assert s == Header(n)[..k];
      CutHeaderFails(n, k);
    } else {
      var part := body[..k - |Header(n)|];
      assert s == Header(n) + part;
      HeaderReadsBack(n, part);
      AtoiOfItoa(n);
    }
  }

  // ----- streams of frames -----

  function Stream(bodies: seq<bytes>): bytes {
    if bodies == [] then [] else WriteFrame(bodies[0]) + Stream(bodies[1..])
  }

  /** Reads frames until reading fails; the error tells how it ended. */
  function ReadAll(s: bytes): (seq<bytes>, ReadError)
    decreases |s|
  {
    match ReadFrame(s)
    case Fail(e) => ([], e)
    case Read(body, rest) =>
      var (more, e) := ReadAll(rest);
      ([body] + more, e)
  }

  ghost predicate Sizes(bodies: seq<bytes>) {
    forall body :: body in bodies ==> |body| <= MAX_INT
  }

  lemma ReadAllStep(s: bytes, body: bytes, rest: bytes)
    requires ReadFrame(s) == Read(body, rest)
    ensures ReadAll(s) == ([body] + ReadAll(rest).0, ReadAll(rest).1)
  {
  }

  lemma FirstFrameIsRead(body: bytes, rest: bytes)
    requires |body| <= MAX_INT
    ensures ReadAll(WriteFrame(body) + rest) == ([body] + ReadAll(rest).0, ReadAll(rest).1)
  {
    FrameRoundTrip(body, rest);
    ReadAllStep(WriteFrame(body) + rest, body, rest);
  }

  lemma FirstOfStreamIsRead(bodies: seq<bytes>)
    requires bodies != [] && |bodies[0]| <= MAX_INT
    ensures ReadAll(Stream(bodies)) == ([bodies[0]] + ReadAll(Stream(bodies[1..])).0, ReadAll(Stream(bodies[1..])).1)
  {
    FirstFrameIsRead(bodies[0], Stream(bodies[1..]));
  }

  lemma NothingIsEOF()
    ensures ReadAll([]) == ([], EOF)
  {
  }

  /** A stream of frames reads back as the bodies it was written from, in order, and then EOF. */
  lemma {:induction false} StreamRoundTrip(bodies: seq<bytes>)
    requires Sizes(bodies)
    ensures ReadAll(Stream(bodies)) == (bodies, EOF)
  {
    if bodies == [] {
      NothingIsEOF();
    } else {
      FirstOfStreamIsRead(bodies);
      StreamRoundTrip(bodies[1..]);
      HeadAndTail(bodies);
    }
  }

  lemma CutInTwo(first: bytes, rest: bytes, k: nat)
    requires k <= |first + rest|
    ensures (first + rest)[..k] == if k < |first| then first[..k] else first + rest[..k - |first|]
  {
  }

  lemma CutInFirst(body: bytes, s: bytes)
    requires |body| <= MAX_INT && |s| < |WriteFrame(body)| && s == WriteFrame(body)[..|s|]
    ensures ReadAll(s).0 == []
  {
    NoPrefixIsAFrame(body, |s|);
  }

  /** Cutting a stream short loses bodies at the end; it never changes one or makes one up. */
  lemma {:induction false} TruncatedStream(bodies: seq<bytes>, k: nat)
    requires Sizes(bodies) && k <= |Stream(bodies)|
    ensures ReadAll(Stream(bodies)[..k]).0 <= bodies
  {
    if bodies == [] {
    } else {
      var first, rest := WriteFrame(bodies[0]), Stream(bodies[1..]);
      CutInTwo(first, rest, k);
      if k < |first| {
        CutInFirst(bodies[0], first[..k]);
      } else {
        FirstFrameIsRead(bodies[0], rest[..k - |first|]);
        TruncatedStream(bodies[1..], k - |first|);
        assert bodies == [bodies[0]] + bodies[1..];
      }
    }
  }
}
