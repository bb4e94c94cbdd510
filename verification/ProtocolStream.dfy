/**
  Frames over a byte stream: draining a buffer that fills in arbitrary pieces,
  and the byte ranges of consecutive data frames.
  */
module ProtocolStream {
  import opened Bytes
  import opened Options
  import opened TerminalProtocol

  /** What a reader has: frames decoded, the error that stopped it, bytes not consumed. */
  datatype Reader = Reader(frames: seq<Frame>, failure: Option<ProtocolError>, rest: seq<Byte>)

  const NEW_READER := Reader([], None, [])

  /** Decode until more input is needed or a frame is refused. */
  function Drain(codec: Codec, input: seq<Byte>): (r: Reader)
    ensures |r.rest| <= |input|
    decreases |input|
  {
    DecodeConsumes(codec, input);
    var step := Decoded(codec, input);
    match step.result
    case Err(error) => Reader([], Some(error), step.rest)
    case Ok(None) => Reader([], None, step.rest)
    case Ok(Some(frame)) =>
      Prepend(frame, Drain(codec, step.rest))
  }

  /** One more piece of input; a reader that failed only collects it. */
  function Feed(codec: Codec, reader: Reader, chunk: seq<Byte>): Reader {
    if reader.failure.Some? then reader.(rest := reader.rest + chunk)
    else
      var more := Drain(codec, reader.rest + chunk);
      Reader(reader.frames + more.frames, more.failure, more.rest)
  }

  function FeedAll(codec: Codec, chunks: seq<seq<Byte>>): Reader {
    if chunks == [] then NEW_READER
    else Feed(codec, FeedAll(codec, chunks[..|chunks| - 1]), chunks[|chunks| - 1])
  }

  function Flatten(chunks: seq<seq<Byte>>): seq<Byte> {
    if chunks == [] then [] else Flatten(chunks[..|chunks| - 1]) + chunks[|chunks| - 1]
  }

  function Prepend(frame: Frame, reader: Reader): Reader {
    Reader([frame] + reader.frames, reader.failure, reader.rest)
  }

  lemma {:induction false} FeedPrepend(codec: Codec, frame: Frame, reader: Reader, more: seq<Byte>)
    ensures Feed(codec, Prepend(frame, reader), more) == Prepend(frame, Feed(codec, reader, more))
  {
    hide Decoded;
    if reader.failure.None? {
      var last := Drain(codec, reader.rest + more);
      assert [frame] + (reader.frames + last.frames) == ([frame] + reader.frames) + last.frames;
    }
  }

  /** Draining a longer input is draining the shorter one and feeding the rest. */
  lemma {:induction false} DrainAppend(codec: Codec, input: seq<Byte>, more: seq<Byte>)
    ensures Drain(codec, input + more) == Feed(codec, Drain(codec, input), more)
    decreases |input|
  {
    hide Decoded, ReadHead;
    DecodeConsumes(codec, input);
    var step := Decoded(codec, input);
    match step.result
    case Err(error) => AnswersAreStable(codec, input, more);
    case Ok(None) => assert step.rest == input;
    case Ok(Some(frame)) =>
      AnswersAreStable(codec, input, more);
      DrainAppend(codec, step.rest, more);
      FeedPrepend(codec, frame, Drain(codec, step.rest), more);
  }

  /** Whatever the stream and however it is cut, reading it in pieces is reading it at once. */
  lemma {:induction false} CutsDoNotMatter(codec: Codec, chunks: seq<seq<Byte>>)
    ensures FeedAll(codec, chunks) == Drain(codec, Flatten(chunks))
  {
    if chunks != [] {
      CutsDoNotMatter(codec, chunks[..|chunks| - 1]);
      DrainAppend(codec, Flatten(chunks[..|chunks| - 1]), chunks[|chunks| - 1]);
    }
  }

  /** Frames the codec sends without loss. */
  predicate Sendable(codec: Codec, frames: seq<Frame>) {
    forall frame | frame in frames :: Encoded(codec, frame).Ok? && |frame.payload| < U32_RANGE
  }

  function Wire(codec: Codec, frames: seq<Frame>): seq<Byte>
    requires Sendable(codec, frames)
  {
    if frames == [] then [] else Encoded(codec, frames[0]).value.Coalesce() + Wire(codec, frames[1..])
  }

  lemma {:induction false} WireDrains(codec: Codec, frames: seq<Frame>)
    requires Sendable(codec, frames)
    ensures Drain(codec, Wire(codec, frames)) == Reader(frames, None, [])
  {
    hide Decoded, Encoded;
    if frames == [] {
      DecodeConsumes(codec, []);
    } else {
      WireDrains(codec, frames[1..]);
      RoundTripIff(codec, frames[0], Wire(codec, frames[1..]));
      assert [frames[0]] + frames[1..] == frames;
    }
  }

  /** Encoded frames arrive whole, in order, with nothing left over, however the bytes are cut. */
  lemma {:induction false} FramesArrive(codec: Codec, frames: seq<Frame>, chunks: seq<seq<Byte>>)
    requires Sendable(codec, frames) && Flatten(chunks) == Wire(codec, frames)
    ensures FeedAll(codec, chunks) == Reader(frames, None, [])
  {
    CutsDoNotMatter(codec, chunks);
    WireDrains(codec, frames);
  }

  /** `byte_range`: no range, a subtraction below zero, or the inclusive offsets covered. */
  datatype ByteRange = NoRange | Underflow | Range(first: nat, last: nat)

  function RangeOf(frame: Frame): ByteRange {
    if frame.kind != PtyData || frame.payload == [] then NoRange
    else if frame.position.sequence < |frame.payload| then Underflow
    else Range(frame.position.sequence - |frame.payload| + 1, frame.position.sequence)
  }

  /** The subtraction underflows exactly on frames the constructor refuses for their position. */
  lemma RangeOfAnyFrame(frame: Frame)
    requires frame.flags == 0
    ensures RangeOf(frame) == Underflow
            <==> NewFrame(frame.kind, 0, frame.streamId, frame.position, frame.payload) == Err(InvalidPosition)
    ensures ValidFrame(frame) ==> (RangeOf(frame).Range? <==> frame.kind == PtyData)
    ensures RangeOf(frame).Range? ==>
              var range := RangeOf(frame);
              && 1 <= range.first <= range.last == frame.position.sequence
              && range.last - range.first + 1 == |frame.payload|
  {
  }

  function Payloads(frames: seq<Frame>): seq<Byte> {
    if frames == [] then [] else Payloads(frames[..|frames| - 1]) + frames[|frames| - 1].payload
  }

  /** Consecutive data frames of one epoch, from its first byte on. */
  predicate DataRun(frames: seq<Frame>) {
    && (forall frame | frame in frames ::
          ValidFrame(frame) && frame.kind == PtyData && frame.position.epoch == frames[0].position.epoch)
    && (frames != [] ==> frames[0].position.sequence == |frames[0].payload|)
    && (forall i | 1 <= i < |frames| ::
          frames[i].position.sequence == frames[i - 1].position.sequence + |frames[i].payload|)
  }

  predicate Covers(frame: Frame, offset: nat) {
    RangeOf(frame).Range? && RangeOf(frame).first <= offset <= RangeOf(frame).last
  }

  lemma RunPrefix(frames: seq<Frame>)
    requires DataRun(frames) && frames != []
    ensures DataRun(frames[..|frames| - 1])
  {
    var front := frames[..|frames| - 1];
    assert forall frame | frame in front :: frame in frames;
    assert forall i | 0 <= i < |front| :: front[i] == frames[i];
  }

  lemma InRun(frames: seq<Frame>, i: nat)
    requires DataRun(frames) && i < |frames|
    ensures ValidFrame(frames[i]) && frames[i].kind == PtyData && frames[i].payload != []
    ensures |frames[i].payload| <= frames[i].position.sequence
  {
    assert frames[i] in frames;
  }

  /** The last sequence number counts the bytes so far. */
  lemma {:induction false} RunCounts(frames: seq<Frame>)
    requires DataRun(frames)
    ensures frames != [] ==> frames[|frames| - 1].position.sequence == |Payloads(frames)|
  {
    if |frames| == 1 {
      assert Payloads(frames[..0]) == [];
    } else if frames != [] {
      RunPrefix(frames);
      RunCounts(frames[..|frames| - 1]);
    }
  }

  lemma SliceOfSum(a: seq<Byte>, b: seq<Byte>, lo: nat, hi: nat)
    requires lo <= hi <= |a|
    ensures (a + b)[lo..hi] == a[lo..hi] && (a + b)[|a|..|a| + |b|] == b
  {
  }

  /** The payload of frame `i` stands after the earlier ones in the joined payload. */
  lemma {:induction false} PayloadPlace(frames: seq<Frame>, i: nat)
    requires i < |frames|
    ensures |Payloads(frames[..i])| + |frames[i].payload| == |Payloads(frames[..i + 1])| <= |Payloads(frames)|
    ensures Payloads(frames)[|Payloads(frames[..i])|..|Payloads(frames[..i + 1])|] == frames[i].payload
  {
    var n := |frames| - 1;
    assert frames[..i + 1][..i] == frames[..i];
    if i < n {
      PayloadPlace(frames[..n], i);
      assert frames[..n][..i] == frames[..i] && frames[..n][..i + 1] == frames[..i + 1];
      SliceOfSum(Payloads(frames[..n]), frames[n].payload, |Payloads(frames[..i])|, |Payloads(frames[..i + 1])|);
    } else {
      assert frames[..i + 1] == frames;
      SliceOfSum(Payloads(frames[..n]), frames[n].payload, 0, 0);
    }
  }

  lemma {:induction false} RunPrefixes(frames: seq<Frame>, n: nat)
    requires DataRun(frames) && n <= |frames|
    ensures DataRun(frames[..n])
  {
    assert forall frame | frame in frames[..n] :: frame in frames;
  }

  /** A frame's range is its payload's place in the joined payload. */
  lemma RangeIsPlace(frames: seq<Frame>, i: nat)
    requires DataRun(frames) && i < |frames|
    ensures RangeOf(frames[i]) == Range(|Payloads(frames[..i])| + 1, |Payloads(frames[..i + 1])|)
  {
    InRun(frames, i);
    PayloadPlace(frames, i);
    RunPrefixes(frames, i + 1);
    RunCounts(frames[..i + 1]);
  }

  /** Ranges of different frames of a run do not meet. */
  lemma {:induction false} RangesAscend(frames: seq<Frame>, i: nat, j: nat)
    requires DataRun(frames) && i < j < |frames|
    ensures RangeOf(frames[i]).Range? && RangeOf(frames[j]).Range? && RangeOf(frames[i]).last < RangeOf(frames[j]).first
  {
    InRun(frames, i);
    InRun(frames, j);
    InRun(frames, j - 1);
    if i < j - 1 {
      RangesAscend(frames, i, j - 1);
    }
  }

  lemma OnlyOneCovers(frames: seq<Frame>, i: nat, j: nat, offset: nat)
    requires DataRun(frames) && i < |frames| && j < |frames|
    requires Covers(frames[i], offset) && Covers(frames[j], offset)
    ensures i == j
  {
    if i < j {
      RangesAscend(frames, i, j);
    } else if j < i {
      RangesAscend(frames, j, i);
    }
  }

  lemma {:induction false} SomeFrameCovers(frames: seq<Frame>, offset: nat) returns (i: nat)
    requires DataRun(frames) && 1 <= offset <= |Payloads(frames)|
    ensures i < |frames| && Covers(frames[i], offset)
  {
    var n := |frames| - 1;
    var front := frames[..n];
    RunPrefix(frames);
    RunCounts(frames);
    InRun(frames, n);
    if offset <= |Payloads(front)| {
      i := SomeFrameCovers(front, offset);
      assert front[i] == frames[i];
    } else {
      i := n;
    }
  }

  /** The frame that covers an offset holds its byte. */
  lemma CoveredByte(frames: seq<Frame>, i: nat, offset: nat)
    requires DataRun(frames) && i < |frames| && 1 <= offset <= |Payloads(frames)| && Covers(frames[i], offset)
    ensures Payloads(frames)[offset - 1] == frames[i].payload[offset - RangeOf(frames[i]).first]
  {
    hide DataRun;
    PayloadPlace(frames, i);
    RangeIsPlace(frames, i);
    var range := RangeOf(frames[i]);
    assert Payloads(frames)[range.first - 1..range.last][offset - range.first] == Payloads(frames)[offset - 1];
  }

  /**
    The ranges of a run partition `1..=N`: each offset of the joined payload is
    covered by exactly one frame, which holds that byte at that place.
    */
  lemma RangesTile(frames: seq<Frame>, offset: nat) returns (i: nat)
    requires DataRun(frames) && 1 <= offset <= |Payloads(frames)|
    ensures i < |frames| && Covers(frames[i], offset)
    ensures forall j | 0 <= j < |frames| && Covers(frames[j], offset) :: j == i
    ensures Payloads(frames)[offset - 1] == frames[i].payload[offset - RangeOf(frames[i]).first]
  {
    hide DataRun, Covers;
    i := SomeFrameCovers(frames, offset);
    forall j | 0 <= j < |frames| && Covers(frames[j], offset) ensures j == i {
      OnlyOneCovers(frames, i, j, offset);
    }
    CoveredByte(frames, i, offset);
  }
}
