/** The stdio proxy: reading frames from a buffered reader, and the serve loop. */
module StdioProxy {
  import opened Bytes
  import opened Wrappers
  import GoStrings
  import opened Sequences
  import opened FrameFormat

  /** A bufio.Reader over a finite input; `input` is what has not been read yet. */
  class Reader {
    var input: bytes

    constructor (input: bytes)
      ensures this.input == input
    {
      this.input := input;
    }

    /** ReadString: up to and including the delimiter, or the rest of the input together with io.EOF. */
    method ReadString(delim: byte) returns (line: bytes, eof: bool)
      modifies this
      ensures eof <==> delim !in old(input)
      ensures eof ==> line == old(input) && input == []
      ensures !eof ==>
        var end := GoStrings.IndexOf(old(input), delim);
        end >= 0 && line == old(input)[..end + 1] && input == old(input)[end + 1..]
    {
      var end := GoStrings.IndexOf(input, delim);
      if end < 0 {
        line, eof := input, true;
        input := [];
      } else {
        line, eof := input[..end + 1], false;
        input := input[end + 1..];
      }
    }

    method ReadFull(n: nat) returns (body: Option<bytes>, error: ReadError)
      modifies this
      ensures body.Some? <==> |old(input)| >= n
      ensures body.Some? ==> body.value == old(input)[..n] && input == old(input)[n..]
      ensures body.None? ==> error == if old(input) == [] then EOF else UnexpectedEOF
    {
      error := EOF;
      if |input| >= n {
        body := Some(input[..n]);
        input := input[n..];
      } else {
        body := None;
        if input != [] {
          error := UnexpectedEOF;
        }
        input := [];
      }
    }
  }

  class Writer {
    var output: bytes

    constructor ()
      ensures output == []
    {
      output := [];
    }

    /** WriteFrame, to a writer that does not fail. */
    method WriteFrame(body: bytes)
      modifies this
      ensures output == old(output) + FrameFormat.WriteFrame(body)
    {
      output := output + Header(|body|);
      output := output + body;
    }
  }

  datatype Frame = Body(body: bytes) | Error(error: ReadError)

  method SplitHeaderLine(raw: bytes) returns (header: HeaderLine)
    ensures header == ParseHeaderLine(raw)
  {
    var line := TrimLineEnd(raw);
    if line == [] {
      return EndOfHeader;
    }
    var colon := GoStrings.IndexOf(line, COLON);
    if colon < 0 {
      return Malformed;
    }
    var name, value := line[..colon], line[colon + 1..];
    header := Entry(ToLower(TrimSpace(name)), TrimSpace(value));
  }

  method ReadHeaderLine(r: Reader) returns (header: Option<HeaderLine>)
    modifies r
    ensures match TakeHeaderLine(old(r.input))
      case Read(line, rest) => header == Some(line) && r.input == rest
      case Fail(_) => header == None
  {
    var raw, eof := r.ReadString(LF);
    if eof {
      return None;
    }
    var line := SplitHeaderLine(raw);
    header := Some(line);
  }

  /** The header loop: the headers up to the empty line, or the error. */
  method ReadHeaderLines(r: Reader) returns (headers: Option<Headers>, error: ReadError)
    modifies r
    ensures match ReadHeaders(old(r.input), map[])
      case Read(found, rest) => headers == Some(found) && r.input == rest
      case Fail(e) => headers == None && error == e
  {
    var found: Headers := map[];
    while true
      invariant ReadHeaders(old(r.input), map[]) == ReadHeaders(r.input, found)
      decreases |r.input|
    {
      ghost var before := r.input;
      var header := ReadHeaderLine(r);
      match header {
        case None => return None, EOF;
        case Some(EndOfHeader) => return Some(found), EOF;
        case Some(Malformed) => return None, InvalidHeader;
        case Some(Entry(name, value)) => found := found[name := value];
      }
    }
  }

  method ReadFrame(r: Reader) returns (frame: Frame)
    modifies r
    ensures match FrameFormat.ReadFrame(old(r.input))
      case Read(body, rest) => frame == Body(body) && r.input == rest
      case Fail(e) => frame == Error(e)
  {
    var headers, failure := ReadHeaderLines(r);
    if headers.None? {
      return Error(failure);
    }
    var raw := if LENGTH_KEY in headers.value then headers.value[LENGTH_KEY] else [];
    if raw == [] {
      return Error(MissingLength);
    }
    var length := Atoi(raw);
    if length.None? || length.value < 0 {
      return Error(InvalidLength);
    }
    var body, error := r.ReadFull(length.value);
    frame := if body.Some? then Body(body.value) else Error(error);
  }

  /** What the serve loop writes, and the error it returns; reaching io.EOF is not an error. */
  function Served(input: bytes, respond: bytes -> bytes): (bytes, Option<ReadError>)
    decreases |input|
  {
    match FrameFormat.ReadFrame(input)
    case Fail(EOF) => ([], None)
    case Fail(e) => ([], Some(e))
    case Read(body, rest) =>
      var (more, e) := Served(rest, respond);
      ((if respond(body) == [] then [] else FrameFormat.WriteFrame(respond(body))) + more, e)
  }

  /**
   Serve. `respond` stands for forwarding a request, with a failure already turned into its JSON-RPC
   error; an empty response is not written.
   */
  method Serve(input: Reader, output: Writer, respond: bytes -> bytes) returns (error: Option<ReadError>)
    modifies input, output
    ensures output.output == old(output.output) + Served(old(input.input), respond).0
    ensures error == Served(old(input.input), respond).1
  {
    while true
      invariant output.output + Served(input.input, respond).0 == old(output.output) + Served(old(input.input), respond).0
      invariant Served(input.input, respond).1 == Served(old(input.input), respond).1
      decreases |input.input|
    {
      ghost var written, unread := output.output, input.input;
      var frame := ReadFrame(input);
      if frame.Error? {
        return if frame.error == EOF then None else Some(frame.error);
      }
      var response := respond(frame.body);
      ServedStep(unread, frame.body, input.input, respond);
      if |response| == 0 {
        continue;
      }
      output.WriteFrame(response);
      Assoc(written, FrameFormat.WriteFrame(response), Served(input.input, respond).0);
    }
  }

  lemma ServedStep(input: bytes, body: bytes, rest: bytes, respond: bytes -> bytes)
    requires FrameFormat.ReadFrame(input) == Read(body, rest)
    ensures Served(input, respond) ==
      ((if respond(body) == [] then [] else FrameFormat.WriteFrame(respond(body))) + Served(rest, respond).0, Served(rest, respond).1)
    ensures respond(body) == [] ==> Served(input, respond).0 == Served(rest, respond).0
  {
  }

  /** The responses to a list of requests, without the empty ones. */
  function Responses(bodies: seq<bytes>, respond: bytes -> bytes): seq<bytes> {
    if bodies == [] then []
    else (if respond(bodies[0]) == [] then [] else [respond(bodies[0])]) + Responses(bodies[1..], respond)
  }

  lemma StreamConcat(head: bytes, tail: seq<bytes>)
    ensures Stream([head] + tail) == FrameFormat.WriteFrame(head) + Stream(tail)
  {
    assert ([head] + tail)[1..] == tail;
  }

  lemma ServesResponse(responses: seq<bytes>, response: bytes)
    ensures (if response == [] then [] else FrameFormat.WriteFrame(response)) + Stream(responses) ==
            Stream((if response == [] then [] else [response]) + responses)
  {
    if response == [] {
      assert [] + responses == responses;
    } else {
      StreamConcat(response, responses);
    }
  }

  /**
   Served frames and behind them something that is not a frame, the proxy writes the stream of the
   responses to the frames and returns what is wrong with the rest, unless that is the end of the input.
   */
  lemma {:induction false} ServeStopsAtError(bodies: seq<bytes>, bad: bytes, respond: bytes -> bytes, e: ReadError)
    requires Sizes(bodies) && FrameFormat.ReadFrame(bad) == Fail(e)
    ensures Served(Stream(bodies) + bad, respond) == (Stream(Responses(bodies, respond)), if e == EOF then None else Some(e))
  {
    if bodies == [] {
      assert Stream(bodies) + bad == bad;
    } else {
      var rest := Stream(bodies[1..]) + bad;
      Assoc(FrameFormat.WriteFrame(bodies[0]), Stream(bodies[1..]), bad);
      FrameRoundTrip(bodies[0], rest);
      ServedStep(Stream(bodies) + bad, bodies[0], rest, respond);
      ServeStopsAtError(bodies[1..], bad, respond, e);
      ServesResponse(Responses(bodies[1..], respond), respond(bodies[0]));
    }
  }

  /** Served a stream of frames, the proxy writes the stream of the responses and reports no error. */
  lemma ServeAnswersInOrder(bodies: seq<bytes>, respond: bytes -> bytes)
    requires Sizes(bodies)
    ensures Served(Stream(bodies), respond) == (Stream(Responses(bodies, respond)), None)
  {
    assert Stream(bodies) + [] == Stream(bodies);
    ServeStopsAtError(bodies, [], respond, EOF);
  }

  /** A stream cut inside a frame: the whole frames are answered, and only a cut body is an error. */
  lemma ServeCutStream(bodies: seq<bytes>, body: bytes, k: nat, respond: bytes -> bytes)
    requires Sizes(bodies) && |body| <= MAX_INT && k < |FrameFormat.WriteFrame(body)|
    ensures Served(Stream(bodies) + FrameFormat.WriteFrame(body)[..k], respond) ==
            (Stream(Responses(bodies, respond)), if k > |Header(|body|)| then Some(UnexpectedEOF) else None)
  {
    NoPrefixIsAFrame(body, k);
    ServeStopsAtError(bodies, FrameFormat.WriteFrame(body)[..k], respond, if k > |Header(|body|)| then UnexpectedEOF else EOF);
  }
}
