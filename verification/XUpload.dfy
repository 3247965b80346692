/** Uploading media to X in numbered segments. */
module XUpload {
  import opened Bytes

  const CHUNK_SIZE: nat := 5 * 1024 * 1024

  datatype Segment = Segment(index: nat, data: seq<byte>)

  /** One whole upload in a single request, or INIT, these APPENDs, and FINALIZE unless an APPEND failed. */
  datatype Upload = Simple(data: seq<byte>) | Chunked(total: nat, segments: seq<Segment>, finalized: bool)

  function Concat(segments: seq<Segment>): seq<byte> {
    if segments == [] then [] else Concat(segments[..|segments| - 1]) + segments[|segments| - 1].data
  }

  /** total / 5 MiB, rounded up. */
  function SegmentsFor(total: nat): nat {
    (total + CHUNK_SIZE - 1) / CHUNK_SIZE
  }

  /** The segments cover the first `sent` bytes: numbered from 0, all full except possibly the last. */
  ghost predicate Covers(segments: seq<Segment>, data: seq<byte>, sent: nat) {
    && sent <= |data|
    && Concat(segments) == data[..sent]
    && (forall i :: 0 <= i < |segments| ==> segments[i].index == i && 1 <= |segments[i].data| <= CHUNK_SIZE)
    && (forall i :: 0 <= i < |segments| - 1 ==> |segments[i].data| == CHUNK_SIZE)
    && (sent < |data| ==> sent == |segments| * CHUNK_SIZE)
    && |segments| == SegmentsFor(sent)
  }

  lemma ConcatAppend(segments: seq<Segment>, s: Segment)
    ensures Concat(segments + [s]) == Concat(segments) + s.data
  {
    assert (segments + [s])[..|segments|] == segments;
  }

  lemma SegmentsForNext(n: nat, total: nat)
    requires n * CHUNK_SIZE < total <= n * CHUNK_SIZE + CHUNK_SIZE
    ensures SegmentsFor(total) == n + 1
  {
  }

  lemma CoversNext(segments: seq<Segment>, data: seq<byte>, sent: nat)
    requires Covers(segments, data, sent) && sent < |data|
    ensures var end := if sent + CHUNK_SIZE > |data| then |data| else sent + CHUNK_SIZE;
      Covers(segments + [Segment(|segments|, data[sent..end])], data, end)
  {
    var end := if sent + CHUNK_SIZE > |data| then |data| else sent + CHUNK_SIZE;
    var s := Segment(|segments|, data[sent..end]);
    ConcatAppend(segments, s);
    assert data[..sent] + data[sent..end] == data[..end];
    SegmentsForNext(|segments|, end);
    FullSoFar(segments, data, sent);
  }

  lemma {:induction false} ConcatLength(segments: seq<Segment>)
    requires forall i :: 0 <= i < |segments| ==> |segments[i].data| <= CHUNK_SIZE
    ensures |Concat(segments)| <= |segments| * CHUNK_SIZE
  {
    if segments != [] {
      ConcatLength(segments[..|segments| - 1]);
    }
  }

  /** As long as bytes are left, the last segment is full as well. */
  lemma FullSoFar(segments: seq<Segment>, data: seq<byte>, sent: nat)
    requires Covers(segments, data, sent) && sent < |data|
    ensures forall i :: 0 <= i < |segments| ==> |segments[i].data| == CHUNK_SIZE
  {
    if segments != [] {
      var n := |segments| - 1;
      ConcatLength(segments[..n]);
      assert |Concat(segments)| == |Concat(segments[..n])| + |segments[n].data|;
    }
  }

  /**
   The chunked upload. `accepts(i)` says whether the service takes segment i. If it takes all of them,
   the segments are the whole input cut into pieces of 5 MiB; otherwise what was sent is the beginning
   of the input up to and including the segment that failed.
   */
  method UploadMediaChunked(data: seq<byte>, accepts: nat -> bool) returns (upload: Upload)
    ensures upload.Chunked? && upload.total == |data|
    ensures upload.finalized <==> forall i: nat :: i < SegmentsFor(|data|) ==> accepts(i)
    ensures upload.finalized ==> Covers(upload.segments, data, |data|)
    ensures !upload.finalized ==>
      && upload.segments != [] && !accepts(|upload.segments| - 1)
      && (forall i: nat :: i < |upload.segments| - 1 ==> accepts(i))
      && exists sent :: Covers(upload.segments, data, sent)
  {
    var segments: seq<Segment> := [];
    var offset := 0;
    while offset < |data|
      invariant 0 <= offset
      invariant Covers(segments, data, if offset > |data| then |data| else offset)
      invariant forall i: nat :: i < |segments| ==> accepts(i)
      decreases |data| - offset
    {
      var end := offset + CHUNK_SIZE;
      if end > |data| {
        end := |data|;
      }
      CoversNext(segments, data, offset);
      SegmentsStillFit(segments, data, offset);
      segments := segments + [Segment(|segments|, data[offset..end])];
      if !accepts(|segments| - 1) {
        return Chunked(|data|, segments, false);
      }
      offset := offset + CHUNK_SIZE;
    }
    upload := Chunked(|data|, segments, true);
  }

  lemma SegmentsStillFit(segments: seq<Segment>, data: seq<byte>, sent: nat)
    requires Covers(segments, data, sent) && sent < |data|
    ensures |segments| < SegmentsFor(|data|)
  {
    OneSegmentMore(|segments|, |data|);
  }

  lemma OneSegmentMore(n: nat, total: nat)
    requires n * CHUNK_SIZE < total
    ensures n < SegmentsFor(total)
  {
  }

  predicate Contains(s: string, t: string) {
    t <= s || (s != "" && Contains(s[1..], t))
  }

  lemma StartsWith(t: string, after: string)
    ensures t <= "" + t + after
  {
  }

  /** strings.Contains: the text is the other one with something before and something after it. */
  lemma {:induction false} ContainsIff(s: string, t: string)
    ensures Contains(s, t) <==> exists before: string, after: string :: s == before + t + after
  {
    if t <= s {
      assert s == "" + t + s[|t|..];
    } else if s != "" {
      ContainsIff(s[1..], t);
      if before: string, after: string :| s[1..] == before + t + after {
        assert s == ([s[0]] + before) + t + after;
      }
      if before: string, after: string :| s == before + t + after {
        StartsWith(t, after);
        assert s[1..] == before[1..] + t + after;
      }
    }
  }

  /** UploadMedia: small still images go in one request, everything else in segments. */
  method UploadMedia(mimeType: string, data: seq<byte>, accepts: nat -> bool) returns (upload: Upload)
    ensures upload.Simple? <==> |data| <= CHUNK_SIZE && !Contains(mimeType, "video") && !Contains(mimeType, "gif")
    ensures upload.Simple? ==> upload.data == data
    ensures upload.Chunked? && upload.finalized ==> Concat(upload.segments) == data
  {
    var isVideo := Contains(mimeType, "video");
    var isGIF := Contains(mimeType, "gif");
    if |data| <= CHUNK_SIZE && !isVideo && !isGIF {
      return Simple(data);
    }
    upload := UploadMediaChunked(data, accepts);
    assert data[..|data|] == data;
  }

  /** The input is determined by the segments: two inputs cut into the same segments are the same. */
  lemma SegmentsDetermineData(segments: seq<Segment>, a: seq<byte>, b: seq<byte>)
    requires Covers(segments, a, |a|) && Covers(segments, b, |b|)
    ensures a == b
  {
  }
}
