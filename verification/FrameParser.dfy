/** The pure reading of a byte stream as a sequence of frames. It is the specification of the
    reassembly loop, and knows nothing about chunks, cursors or buffers. */
module FrameParser {
  import opened Wire

  // The server refuses ids and lengths above this; it is also the size of a read buffer.
  const MAX_LENGTH := 2048

  // The client checks nothing: no `short` exceeds this, so a check against it never fires.
  const NO_LIMIT := 32767

  /** What stopped the parser: too few bytes, a header over the limit, or a negative length. */
  datatype Verdict = Running | Rejected | Faulted

  datatype Parsed = Parsed(msgs: seq<Msg>, rest: seq<byte>, verdict: Verdict)

  predicate HeaderOver(limit: int, s: seq<byte>)
    requires HEAD_TOTAL_LEN <= |s|
  {
    HeaderId(s) > limit || HeaderLen(s) > limit
  }

  /** What the front of a stream holds: a whole frame and the rest, or the reason why not. */
  datatype Front = Whole(m: Msg, tail: seq<byte>) | Stop(v: Verdict)

  function Look(limit: int, s: seq<byte>): Front {
    if |s| < HEAD_TOTAL_LEN then Stop(Running)
    else if HeaderOver(limit, s) then Stop(Rejected)
    else if HeaderLen(s) < 0 then Stop(Faulted)
    else if |s| < HEAD_TOTAL_LEN + HeaderLen(s) then Stop(Running)
    else
      var end := HEAD_TOTAL_LEN + HeaderLen(s);
      Whole(Msg(HeaderId(s), s[HEAD_TOTAL_LEN..end]), s[end..])
  }

  function Prepend(ms: seq<Msg>, p: Parsed): Parsed {
    p.(msgs := ms + p.msgs)
  }

  function Parse(limit: int, s: seq<byte>): Parsed
    decreases |s|
  {
    match Look(limit, s)
    case Stop(v) => Parsed([], s, v)
    case Whole(m, tail) => Prepend([m], Parse(limit, tail))
  }

  predicate Within(limit: int, m: Msg) {
    IsShort(m.id) && m.id <= limit && |m.body| <= limit && IsShort(|m.body|)
  }

  predicate AllWithin(limit: int, ms: seq<Msg>) {
    forall i :: 0 <= i < |ms| ==> Within(limit, ms[i])
  }

  /** Why no further frame can be taken off the front of `s`, if none can. */
  predicate Stuck(limit: int, s: seq<byte>, v: Verdict) {
    match v
    case Running =>
      || |s| < HEAD_TOTAL_LEN
      || (!HeaderOver(limit, s) && 0 <= HeaderLen(s) && |s| < HEAD_TOTAL_LEN + HeaderLen(s))
    case Rejected => HEAD_TOTAL_LEN <= |s| && HeaderOver(limit, s)
    case Faulted => HEAD_TOTAL_LEN <= |s| && !HeaderOver(limit, s) && HeaderLen(s) < 0
  }

  lemma LookStuck(limit: int, s: seq<byte>, v: Verdict)
    ensures Look(limit, s) == Stop(v) <==> Stuck(limit, s, v)
  {
  }

  /** The front of a stream, byte by byte: two bytes of id and two of length, high byte first and
      signed; either over the limit refuses the stream; and then the body. */
  lemma FrontBytes(limit: int, s: seq<byte>)
    requires 4 <= |s|
    ensures
      var u, v := s[0] as int * 256 + s[1] as int, s[2] as int * 256 + s[3] as int;
      var id := if u <= 32767 then u else u - 65536;
      var len := if v <= 32767 then v else v - 65536;
      && (Look(limit, s) == Stop(Rejected) <==> id > limit || len > limit)
      && (Look(limit, s) == Stop(Faulted) <==> id <= limit && len <= limit && len < 0)
      && (Look(limit, s) == Stop(Running) <==> id <= limit && 0 <= len <= limit && |s| < 4 + len)
      && (id <= limit && 0 <= len <= limit && 4 + len <= |s| ==>
            Look(limit, s) == Whole(Msg(id, s[4..4 + len]), s[4 + len..]))
  {
  }

  /** The server refuses an id or a length from 2049 on, and the client refuses nothing. */
  lemma LimitsByValue(s: seq<byte>)
    requires 4 <= |s|
    ensures Look(MAX_LENGTH, s) == Stop(Rejected) <==>
      (s[0] < 128 && s[0] as int * 256 + s[1] as int >= 2049) || (s[2] < 128 && s[2] as int * 256 + s[3] as int >= 2049)
    ensures Look(NO_LIMIT, s) != Stop(Rejected)
  {
    FrontBytes(MAX_LENGTH, s);
    FrontBytes(NO_LIMIT, s);
    hide Look;
  }

  /** A header within the limit and the body it announces are the frame of one message. */
  lemma FrameOf(limit: int, h: seq<byte>, body: seq<byte>, tail: seq<byte>)
    requires |h| == HEAD_TOTAL_LEN && !HeaderOver(limit, h) && HeaderLen(h) == |body|
    ensures Within(limit, Msg(HeaderId(h), body))
    ensures h + body + tail == Encode(Msg(HeaderId(h), body)) + tail
  {
    HeaderOfFields(h);
  }

  /** A stream begins with a frame within the limit exactly when looking at it finds that frame. */
  lemma {:induction false} LookFrame(limit: int, m: Msg, tail: seq<byte>, s: seq<byte>)
    ensures Look(limit, s) == Whole(m, tail) <==> s == Encode(m) + tail && Within(limit, m)
  {
    if s == Encode(m) + tail && Within(limit, m) {
      assert s == Header(m.id, |m.body|) + (m.body + tail);
      HeaderFields(m.id, |m.body|, m.body + tail);
      var end := HEAD_TOTAL_LEN + |m.body|;
      assert s[HEAD_TOTAL_LEN..end] == m.body;
      assert s[end..] == tail;
    } else if Look(limit, s) == Whole(m, tail) {
      var h := s[..HEAD_TOTAL_LEN];
      assert s == h + m.body + tail;
      FrameOf(limit, h, m.body, tail);
    }
  }

  /** More bytes behind a stream change what its front is only if it was an incomplete frame. */
  lemma LookFurther(limit: int, a: seq<byte>, b: seq<byte>)
    ensures Look(limit, a).Whole? ==>
      Look(limit, a + b) == Whole(Look(limit, a).m, Look(limit, a).tail + b)
    ensures Look(limit, a).Stop? && !Look(limit, a).v.Running? ==> Look(limit, a + b) == Look(limit, a)
  {
    if Look(limit, a).Whole? {
      var m, tail := Look(limit, a).m, Look(limit, a).tail;
      LookFrame(limit, m, tail, a);
      assert a + b == Encode(m) + (tail + b);
      LookFrame(limit, m, tail + b, a + b);
    } else if HEAD_TOTAL_LEN <= |a| {
      assert (a + b)[..HEAD_TOTAL_LEN] == a[..HEAD_TOTAL_LEN];
    }
  }

  /** Parsing more bytes after what a first parse left over. */
  function Resume(limit: int, p: Parsed, s: seq<byte>): Parsed {
    if p.verdict.Running? then Prepend(p.msgs, Parse(limit, p.rest + s))
    else p.(rest := p.rest + s)
  }

  lemma PrependTwice(a: seq<Msg>, b: seq<Msg>, p: Parsed)
    ensures Prepend(a, Prepend(b, p)) == Prepend(a + b, p)
    ensures Prepend([], p) == p
  {
    assert a + (b + p.msgs) == a + b + p.msgs;
  }

  /** A stream may be cut anywhere: parsing the first part and resuming with the second gives
      what parsing the whole stream gives. */
  lemma {:induction false} ParseResumes(limit: int, a: seq<byte>, b: seq<byte>)
    ensures Parse(limit, a + b) == Resume(limit, Parse(limit, a), b)
    decreases |a|
  {
    LookFurther(limit, a, b);
    hide Look;
    match Look(limit, a)
    case Stop(v) =>
      PrependTwice([], [], Parse(limit, a + b));
    case Whole(m, tail) =>
      LookFrame(limit, m, tail, a);
      ParseResumes(limit, tail, b);
      var p := Parse(limit, tail);
      PrependTwice([m], p.msgs, Parse(limit, p.rest + b));
  }

  /** The reference definition of parsing: a decomposition into frames within the limit and a
      remainder from which no further frame can be taken. */
  predicate Decomposes(limit: int, s: seq<byte>, p: Parsed) {
    && s == Frames(p.msgs) + p.rest
    && AllWithin(limit, p.msgs)
    && Stuck(limit, p.rest, p.verdict)
  }

  lemma {:induction false} ParseDecomposes(limit: int, s: seq<byte>)
    ensures Decomposes(limit, s, Parse(limit, s))
    decreases |s|
  {
    hide Look, Stuck, Encode;
    match Look(limit, s)
    case Stop(v) =>
      LookStuck(limit, s, v);
      assert Frames([]) + s == s;
    case Whole(m, tail) =>
      LookFrame(limit, m, tail, s);
      ParseDecomposes(limit, tail);
      var q := Parse(limit, tail);
      FramesConcat([m], q.msgs);
      FramesOne(m);
      assert Encode(m) + (Frames(q.msgs) + q.rest) == Encode(m) + Frames(q.msgs) + q.rest;
  }

  /** The first frame of a stream is the first message parsed. */
  lemma ParseFrame(limit: int, m: Msg, s: seq<byte>)
    requires Within(limit, m)
    ensures Parse(limit, Encode(m) + s) == Prepend([m], Parse(limit, s))
  {
    LookFrame(limit, m, s, Encode(m) + s);
  }

  lemma {:induction false} ParseFrames(limit: int, ms: seq<Msg>, s: seq<byte>)
    requires AllWithin(limit, ms)
    ensures Parse(limit, Frames(ms) + s) == Prepend(ms, Parse(limit, s))
  {
    PrependTwice([], [], Parse(limit, s));
    if ms == [] {
      assert Frames(ms) + s == s;
    } else {
      hide Look, Encode, Parse, Within, Frames, Prepend;
      var m, more := ms[0], ms[1..];
      assert ms == [m] + more;
      FramesConcat([m], more);
      FramesOne(m);
      assert Frames(ms) + s == Encode(m) + (Frames(more) + s);
      ParseFrame(limit, m, Frames(more) + s);
      ParseFrames(limit, more, s);
      PrependTwice([m], more, Parse(limit, s));
    }
  }

  lemma ParseStuck(limit: int, s: seq<byte>, v: Verdict)
    requires Stuck(limit, s, v)
    ensures Parse(limit, s) == Parsed([], s, v)
  {
    LookStuck(limit, s, v);
  }

  /** `Parse` computes the one decomposition there is. */
  lemma ParseIsTheDecomposition(limit: int, s: seq<byte>, p: Parsed)
    ensures Parse(limit, s) == p <==> Decomposes(limit, s, p)
  {
    hide Look, Parse, Frames, Stuck, AllWithin;
    ParseDecomposes(limit, s);
    if Decomposes(limit, s, p) {
      ParseFrames(limit, p.msgs, p.rest);
      ParseStuck(limit, p.rest, p.verdict);
      assert p.msgs + [] == p.msgs;
    }
  }

  /** Rejection cuts precisely: whatever follows the first header over the limit, exactly the
      frames before it are parsed. */
  lemma {:induction false} RejectionCuts(limit: int, ms: seq<Msg>, bad: seq<byte>)
    requires AllWithin(limit, ms)
    requires HEAD_TOTAL_LEN <= |bad| && HeaderOver(limit, bad)
    ensures Parse(limit, Frames(ms) + bad) == Parsed(ms, bad, Rejected)
  {
    assert Decomposes(limit, Frames(ms) + bad, Parsed(ms, bad, Rejected));
    ParseIsTheDecomposition(limit, Frames(ms) + bad, Parsed(ms, bad, Rejected));
  }

  /** The server and the client read a stream alike exactly when the server does not reject it. */
  lemma ServerReadsLikeClient(s: seq<byte>)
    ensures Parse(MAX_LENGTH, s) == Parse(NO_LIMIT, s) <==> !Parse(MAX_LENGTH, s).verdict.Rejected?
  {
    hide Look, Parse, Frames;
    var p := Parse(MAX_LENGTH, s);
    ParseDecomposes(MAX_LENGTH, s);
    ParseIsTheDecomposition(NO_LIMIT, s, p);
  }

  function Concat(chunks: seq<seq<byte>>): seq<byte> {
    if chunks == [] then [] else Concat(chunks[..|chunks| - 1]) + chunks[|chunks| - 1]
  }

  /** Reading a stream chunk by chunk. */
  function ParseChunks(limit: int, chunks: seq<seq<byte>>): Parsed {
    if chunks == [] then Parsed([], [], Running)
    else Resume(limit, ParseChunks(limit, chunks[..|chunks| - 1]), chunks[|chunks| - 1])
  }

  /** Chunking independence: every split of a stream is read as the stream is. */
  lemma {:induction false} ChunkingIndependence(limit: int, chunks: seq<seq<byte>>)
    ensures ParseChunks(limit, chunks) == Parse(limit, Concat(chunks))
  {
    if chunks != [] {
      var before := chunks[..|chunks| - 1];
      ChunkingIndependence(limit, before);
      ParseResumes(limit, Concat(before), chunks[|chunks| - 1]);
    }
  }
}
