/**
  The binary frame protocol: a 36-byte header of big-endian fields, then the
  payload. `Encode` and `Decode` work on byte buffers; `Encoded` and `Decoded`
  say what they compute.
  */
module TerminalProtocol {
  import opened Bytes
  import opened Options

  const VERSION: Byte := 4
  const HEADER_LEN := 36
  const MAGIC: seq<Byte> := [0x50, 0x44]

  datatype FrameType =
    | Hello | Attach | AttachAck | Snapshot | Ready | PtyData | Input | Resize | ScrollbackBegin | ScrollbackChunk
    | ScrollbackEnd | ResyncRequest | ResyncBegin | SessionExit | Error | Ping | Pong | Detach | ControlAck

  datatype StreamPosition = StreamPosition(epoch: U64, sequence: U64)

  datatype Frame = Frame(kind: FrameType, flags: U16, streamId: U64, position: StreamPosition, payload: seq<Byte>)

  datatype ProtocolError =
    | BadMagic
    | UnsupportedVersion(version: Byte)
    | UnknownType(code: Byte)
    | UnknownFlags(flags: U16)
    | InvalidHeaderLength(length: nat)
    | PayloadTooLarge(size: nat, max: nat)
    | LengthOverflow
    | EmptyData
    | InvalidPayloadLength(kind: FrameType, expected: nat, actual: nat)
    | InvalidPosition

  function Code(kind: FrameType): Byte {
    match kind
    case Hello => 1
    case Attach => 2
    case AttachAck => 3
    case Snapshot => 4
    case Ready => 5
    case PtyData => 6
    case Input => 7
    case Resize => 8
    case ScrollbackBegin => 9
    case ScrollbackChunk => 10
    case ScrollbackEnd => 11
    case ResyncRequest => 12
    case ResyncBegin => 13
    case SessionExit => 14
    case Error => 15
    case Ping => 16
    case Pong => 17
    case Detach => 18
    case ControlAck => 19
  }

  /** The one frame type with this code, if there is one. */
  function FrameTypeOf(code: Byte): (r: Result<FrameType, ProtocolError>)
    ensures r.Ok? ==> Code(r.value) == code
    ensures r.Ok? <==> 1 <= code <= 19
    ensures r.Err? ==> r.error == UnknownType(code)
  {
    match code
    case 1 => Ok(Hello)
    case 2 => Ok(Attach)
    case 3 => Ok(AttachAck)
    case 4 => Ok(Snapshot)
    case 5 => Ok(Ready)
    case 6 => Ok(PtyData)
    case 7 => Ok(Input)
    case 8 => Ok(Resize)
    case 9 => Ok(ScrollbackBegin)
    case 10 => Ok(ScrollbackChunk)
    case 11 => Ok(ScrollbackEnd)
    case 12 => Ok(ResyncRequest)
    case 13 => Ok(ResyncBegin)
    case 14 => Ok(SessionExit)
    case 15 => Ok(Error)
    case 16 => Ok(Ping)
    case 17 => Ok(Pong)
    case 18 => Ok(Detach)
    case 19 => Ok(ControlAck)
    case _ => Err(UnknownType(code))
  }

  lemma CodesAreDistinct(a: FrameType, b: FrameType)
    requires Code(a) == Code(b)
    ensures a == b
  {
  }

  /** The frame types in the order of their codes, from 1 on. */
  const FRAME_TYPES: seq<FrameType> :=
    [Hello, Attach, AttachAck, Snapshot, Ready, PtyData, Input, Resize, ScrollbackBegin, ScrollbackChunk,
     ScrollbackEnd, ResyncRequest, ResyncBegin, SessionExit, Error, Ping, Pong, Detach, ControlAck]

  lemma CodesCountUp(code: Byte)
    ensures FrameTypeOf(code).Ok? <==> 1 <= code <= |FRAME_TYPES|
    ensures 1 <= code <= |FRAME_TYPES| ==> FrameTypeOf(code) == Ok(FRAME_TYPES[code - 1])
  {
  }

  /** What every frame on the wire satisfies, beyond its header. */
  function ValidateFrame(kind: FrameType, flags: U16, position: StreamPosition,
                         payload: seq<Byte>): Option<ProtocolError> {
    if flags != 0 then Some(UnknownFlags(flags))
    else if kind in {Snapshot, PtyData, Input} && payload == [] then Some(EmptyData)
    else if kind == PtyData && position.sequence < |payload| then Some(InvalidPosition)
    else if kind == Resize && |payload| != 4 then Some(InvalidPayloadLength(kind, 4, |payload|))
    else None
  }

  function NewFrame(kind: FrameType, flags: U16, streamId: U64, position: StreamPosition,
                    payload: seq<Byte>): Result<Frame, ProtocolError> {
    match ValidateFrame(kind, flags, position, payload)
    case Some(error) => Err(error)
    case None => Ok(Frame(kind, flags, streamId, position, payload))
  }

  /** How long a payload of this type may be: data is not empty, output ends at its position, a size is four bytes. */
  predicate LengthFits(kind: FrameType, sequence: nat, length: nat) {
    match kind
    case Snapshot => length > 0
    case Input => length > 0
    case PtyData => 1 <= length <= sequence
    case Resize => length == 4
    case _ => true
  }

  /** Which frames are accepted, and what each other one is refused for. */
  lemma FrameIsAcceptedIff(kind: FrameType, flags: U16, streamId: U64, position: StreamPosition, payload: seq<Byte>)
    ensures var r := NewFrame(kind, flags, streamId, position, payload);
            && (r.Ok? <==> flags == 0 && LengthFits(kind, position.sequence, |payload|))
            && (r.Ok? ==> r.value == Frame(kind, flags, streamId, position, payload))
            && (flags != 0 ==> r == Err(UnknownFlags(flags)))
            && (flags == 0 && kind.Resize? && |payload| != 4 ==> r == Err(InvalidPayloadLength(Resize, 4, |payload|)))
            && (flags == 0 && kind.PtyData? && |payload| > position.sequence ==> r == Err(InvalidPosition))
            && (r == Err(EmptyData) <==>
                  flags == 0 && payload == [] && (kind.Snapshot? || kind.Input? || kind.PtyData?))
  {
  }

  predicate ValidFrame(frame: Frame) {
    ValidateFrame(frame.kind, frame.flags, frame.position, frame.payload).None?
  }

  /** The payload limit of a codec; a limit of zero counts as one. */
  datatype Codec = Codec(maxPayload: nat)

  function NewCodec(maxPayload: nat): (codec: Codec)
    ensures codec.maxPayload >= 1 && maxPayload <= codec.maxPayload <= maxPayload + 1
    ensures maxPayload >= 1 ==> codec.maxPayload == maxPayload
  {
    Codec(if maxPayload < 1 then 1 else maxPayload)
  }

  datatype EncodedFrame = EncodedFrame(header: seq<Byte>, payload: seq<Byte>) {
    function Coalesce(): seq<Byte> {
      header + payload
    }
  }

  function Header(frame: Frame): (header: seq<Byte>)
    ensures |header| == HEADER_LEN
  {
    MAGIC + [VERSION] + [Code(frame.kind)] + BigEndian(frame.flags, 2) + BigEndian(HEADER_LEN, 2)
    + BigEndian(frame.streamId, 8) + BigEndian(frame.position.epoch, 8) + BigEndian(frame.position.sequence, 8)
    + BigEndian(|frame.payload| % U32_RANGE, 4)
  }

  function Encoded(codec: Codec, frame: Frame): Result<EncodedFrame, ProtocolError> {
    if |frame.payload| > codec.maxPayload then Err(PayloadTooLarge(|frame.payload|, codec.maxPayload))
    else
      match ValidateFrame(frame.kind, frame.flags, frame.position, frame.payload)
      case Some(error) => Err(error)
      case None => Ok(EncodedFrame(Header(frame), frame.payload))
  }

  /** A frame is encoded exactly if its payload is within the limit and it is accepted as a frame. */
  lemma EncodesIff(codec: Codec, frame: Frame)
    ensures var r := Encoded(codec, frame);
            && (r.Ok? <==> |frame.payload| <= codec.maxPayload && frame.flags == 0
                           && LengthFits(frame.kind, frame.position.sequence, |frame.payload|))
            && (r.Ok? ==> r.value.payload == frame.payload)
            && (|frame.payload| > codec.maxPayload ==> r == Err(PayloadTooLarge(|frame.payload|, codec.maxPayload)))
            && (r.Err? && |frame.payload| <= codec.maxPayload ==>
                  NewFrame(frame.kind, frame.flags, frame.streamId, frame.position, frame.payload) == Err(r.error))
  {
    hide Header;
    FrameIsAcceptedIff(frame.kind, frame.flags, frame.streamId, frame.position, frame.payload);
  }

  function CheckedAdd(a: nat, b: nat): Option<nat> {
    if a + b <= USIZE_MAX then Some(a + b) else None
  }

  datatype Head = Head(kind: FrameType, flags: U16, streamId: U64, position: StreamPosition, payloadLength: nat)

  /** The number in bytes `from` up to `to`. */
  function Field(input: seq<Byte>, from: nat, to: nat): nat
    requires from <= to <= |input|
  {
    FromBigEndian(input[from..to])
  }

  /** Bytes 2, 4 and 8 of big-endian numbers fit their types. */
  lemma FieldFits(input: seq<Byte>, from: nat, to: nat)
    requires from <= to <= |input|
    ensures to - from == 2 ==> Field(input, from, to) < 0x1_0000
    ensures to - from == 4 ==> Field(input, from, to) < U32_RANGE
    ensures to - from == 8 ==> Field(input, from, to) < 0x1_0000_0000_0000_0000
  {
    BytesReadBack(input[from..to]);
    Widths();
  }

  function U16At(input: seq<Byte>, from: nat): U16
    requires from + 2 <= |input|
  {
    FieldFits(input, from, from + 2);
    Field(input, from, from + 2)
  }

  function U32At(input: seq<Byte>, from: nat): (n: nat)
    requires from + 4 <= |input|
    ensures n < U32_RANGE
  {
    FieldFits(input, from, from + 4);
    Field(input, from, from + 4)
  }

  function U64At(input: seq<Byte>, from: nat): U64
    requires from + 8 <= |input|
  {
    FieldFits(input, from, from + 8);
    Field(input, from, from + 8)
  }

  /** The header of a frame, or why it is refused. */
  function ReadHead(codec: Codec, header: seq<Byte>): Result<Head, ProtocolError>
    requires |header| == HEADER_LEN
  {
    if header[..2] != MAGIC then Err(BadMagic)
    else if header[2] != VERSION then Err(UnsupportedVersion(header[2]))
    else
      match FrameTypeOf(header[3])
      case Err(error) => Err(error)
      case Ok(kind) =>
        if U16At(header, 4) != 0 then Err(UnknownFlags(U16At(header, 4)))
        else if U16At(header, 6) != HEADER_LEN then Err(InvalidHeaderLength(U16At(header, 6)))
        else if U32At(header, 32) > codec.maxPayload then Err(PayloadTooLarge(U32At(header, 32), codec.maxPayload))
        else if CheckedAdd(HEADER_LEN, U32At(header, 32)).None? then Err(LengthOverflow)
        else Ok(Head(kind, 0, U64At(header, 8), StreamPosition(U64At(header, 16), U64At(header, 24)),
                     U32At(header, 32)))
  }

  /** What a decode call returns, and the bytes it leaves. */
  datatype Step = Step(result: Result<Option<Frame>, ProtocolError>, rest: seq<Byte>)

  function Decoded(codec: Codec, input: seq<Byte>): Step {
    if |input| < HEADER_LEN then Step(Ok(None), input)
    else
      match ReadHead(codec, input[..HEADER_LEN])
      case Err(error) => Step(Err(error), input)
      case Ok(head) =>
        var total := HEADER_LEN + head.payloadLength;
        if |input| < total then Step(Ok(None), input)
        else
          match NewFrame(head.kind, head.flags, head.streamId, head.position, input[HEADER_LEN..total])
          case Err(error) => Step(Err(error), input[total..])
          case Ok(frame) => Step(Ok(Some(frame)), input[total..])
  }

  /** A growing byte buffer that is consumed from the front. */
  class BytesMut {
    var data: seq<Byte>

    constructor ()
      ensures data == []
    {
      data := [];
    }

    method Extend(bytes: seq<Byte>)
      modifies this
      ensures data == old(data) + bytes
    {
      data := data + bytes;
    }

    /** Append the low `n` bytes of a number, highest first. */
    method Put(value: nat, n: nat)
      modifies this
      ensures data == old(data) + BigEndian(value, n)
    {
      data := data + BigEndian(value, n);
    }

    method Advance(n: nat)
      requires n <= |data|
      modifies this
      ensures data == old(data)[n..]
    {
      data := data[n..];
    }

    method SplitTo(n: nat) returns (front: seq<Byte>)
      requires n <= |data|
      modifies this
      ensures front == old(data)[..n] && data == old(data)[n..]
    {
      front := data[..n];
      data := data[n..];
    }
  }

  method Encode(codec: Codec, frame: Frame) returns (r: Result<EncodedFrame, ProtocolError>)
    ensures r == Encoded(codec, frame)
  {
    if |frame.payload| > codec.maxPayload {
      return Err(PayloadTooLarge(|frame.payload|, codec.maxPayload));
    }
    var error := ValidateFrame(frame.kind, frame.flags, frame.position, frame.payload);
    if error.Some? {
      return Err(error.value);
    }
    var header := new BytesMut();
    header.Extend(MAGIC);
    assert header.data == MAGIC;
    header.Extend([VERSION]);
    header.Extend([Code(frame.kind)]);
    header.Put(frame.flags, 2);
    header.Put(HEADER_LEN, 2);
    header.Put(frame.streamId, 8);
    header.Put(frame.position.epoch, 8);
    header.Put(frame.position.sequence, 8);
    header.Put(|frame.payload| % U32_RANGE, 4);
    r := Ok(EncodedFrame(header.data, frame.payload));
  }

  /** Decode one frame off the front of the buffer. */
  method Decode(codec: Codec, input: BytesMut) returns (r: Result<Option<Frame>, ProtocolError>)
    modifies input
    ensures Step(r, input.data) == Decoded(codec, old(input.data))
  {
    if |input.data| < HEADER_LEN {
      return Ok(None);
    }
    var header := input.data[..HEADER_LEN];
    var head := ReadHead(codec, header);
    if head.Err? {
      return Err(head.error);
    }
    var total := HEADER_LEN + head.value.payloadLength;
    if |input.data| < total {
      return Ok(None);
    }
    ghost var was := input.data;
    input.Advance(HEADER_LEN);
    var payload := input.SplitTo(head.value.payloadLength);
    assert payload == was[HEADER_LEN..total] && input.data == was[total..];
    var frame := NewFrame(head.value.kind, head.value.flags, head.value.streamId, head.value.position, payload);
    r := match frame case Err(error) => Err(error) case Ok(value) => Ok(Some(value));
  }

  /** The fields of an encoded header, wherever it stands at the front. */
  lemma HeaderFields(frame: Frame)
    ensures var h := Header(frame);
            && h[..2] == MAGIC && h[2] == VERSION && h[3] == Code(frame.kind)
            && h[4..6] == BigEndian(frame.flags, 2) && h[6..8] == BigEndian(HEADER_LEN, 2)
            && h[8..16] == BigEndian(frame.streamId, 8) && h[16..24] == BigEndian(frame.position.epoch, 8)
            && h[24..32] == BigEndian(frame.position.sequence, 8)
            && h[32..36] == BigEndian(|frame.payload| % U32_RANGE, 4)
  {
  }

  /** An encoded header reads back, with the payload length cut to 32 bits. */
  lemma HeadReadsBack(codec: Codec, frame: Frame)
    requires frame.flags == 0
    ensures var length := |frame.payload| % U32_RANGE;
            ReadHead(codec, Header(frame))
            == if length > codec.maxPayload then Err(PayloadTooLarge(length, codec.maxPayload))
               else Ok(Head(frame.kind, 0, frame.streamId, frame.position, length))
  {
    HeaderFields(frame);
    Widths();
    NumberReadsBack(frame.flags, 2);
    NumberReadsBack(HEADER_LEN, 2);
    NumberReadsBack(frame.streamId, 8);
    NumberReadsBack(frame.position.epoch, 8);
    NumberReadsBack(frame.position.sequence, 8);
    NumberReadsBack(|frame.payload| % U32_RANGE, 4);
    CodesAreDistinct(frame.kind, FrameTypeOf(Code(frame.kind)).value);
  }

  /** What is decoded from a header, the payload it announces, and more. */
  lemma DecodesParts(codec: Codec, header: seq<Byte>, head: Head, payload: seq<Byte>, suffix: seq<Byte>)
    requires |header| == HEADER_LEN && ReadHead(codec, header) == Ok(head) && |payload| == head.payloadLength
    ensures Decoded(codec, header + payload + suffix) ==
            match NewFrame(head.kind, head.flags, head.streamId, head.position, payload)
            case Err(error) => Step(Err(error), suffix)
            case Ok(frame) => Step(Ok(Some(frame)), suffix)
  {
    hide ReadHead, NewFrame;
    var input := header + payload + suffix;
    var total := HEADER_LEN + |payload|;
    assert input[..HEADER_LEN] == header && input[HEADER_LEN..total] == payload && input[total..] == suffix;
  }

  lemma EncodedParts(codec: Codec, frame: Frame)
    requires Encoded(codec, frame).Ok?
    ensures Encoded(codec, frame).value == EncodedFrame(Header(frame), frame.payload)
    ensures ValidFrame(frame) && frame.flags == 0 && |frame.payload| <= codec.maxPayload
  {
    hide Header;
  }

  lemma ShortPayloadComesBack(codec: Codec, frame: Frame, suffix: seq<Byte>)
    requires Encoded(codec, frame).Ok? && |frame.payload| < U32_RANGE
    ensures Decoded(codec, Encoded(codec, frame).value.Coalesce() + suffix) == Step(Ok(Some(frame)), suffix)
  {
    hide ReadHead, Header, ValidateFrame, Decoded, Encoded;
    EncodedParts(codec, frame);
    HeadReadsBack(codec, frame);
    var head := Head(frame.kind, 0, frame.streamId, frame.position, |frame.payload|);
    DecodesParts(codec, Header(frame), head, frame.payload, suffix);
  }

  lemma LongPayloadComesBackShort(codec: Codec, frame: Frame, suffix: seq<Byte>)
    requires Encoded(codec, frame).Ok? && |frame.payload| >= U32_RANGE
    ensures var result := Decoded(codec, Encoded(codec, frame).value.Coalesce() + suffix).result;
            result.Ok? && result.value.Some? ==> |result.value.value.payload| < |frame.payload|
  {
    hide ReadHead, Header, ValidateFrame, Encoded;
    EncodedParts(codec, frame);
    var input := Encoded(codec, frame).value.Coalesce() + suffix;
    HeadReadsBack(codec, frame);
    assert input[..HEADER_LEN] == Header(frame);
  }

  /**
    Decoding an encoded frame followed by anything gives the frame and leaves the
    rest: exactly when the payload is shorter than 2^32 bytes, since the header
    keeps only the low 32 bits of its length.
    */
  lemma RoundTripIff(codec: Codec, frame: Frame, suffix: seq<Byte>)
    requires Encoded(codec, frame).Ok?
    ensures Decoded(codec, Encoded(codec, frame).value.Coalesce() + suffix) == Step(Ok(Some(frame)), suffix)
            <==> |frame.payload| < U32_RANGE
  {
    if |frame.payload| < U32_RANGE {
      ShortPayloadComesBack(codec, frame, suffix);
    } else {
      LongPayloadComesBackShort(codec, frame, suffix);
    }
  }

  /** The length wraps: a 2^32-byte payload goes out as an empty one with its bytes left over. */
  lemma LongPayloadIsLost(streamId: U64, position: StreamPosition)
    ensures var codec := NewCodec(U32_RANGE);
            var frame := Frame(Ping, 0, streamId, position, seq(U32_RANGE, _ => 0));
            && Encoded(codec, frame).Ok?
            && Decoded(codec, Encoded(codec, frame).value.Coalesce())
               == Step(Ok(Some(frame.(payload := []))), frame.payload)
  {
    var codec := NewCodec(U32_RANGE);
    var frame := Frame(Ping, 0, streamId, position, seq(U32_RANGE, _ => 0));
    var input := Encoded(codec, frame).value.Coalesce();
    HeadReadsBack(codec, frame);
    assert |frame.payload| % U32_RANGE == 0;
    assert input[..HEADER_LEN] == Header(frame) && input[HEADER_LEN..] == frame.payload;
    assert input[HEADER_LEN..HEADER_LEN] == [];
  }

  /** Headers that agree on every field are equal. */
  lemma FieldsCoverHeader(a: seq<Byte>, b: seq<Byte>)
    requires |a| == |b| == HEADER_LEN
    requires a[..2] == b[..2] && a[2] == b[2] && a[3] == b[3] && a[4..6] == b[4..6] && a[6..8] == b[6..8]
    requires a[8..16] == b[8..16] && a[16..24] == b[16..24] && a[24..32] == b[24..32] && a[32..36] == b[32..36]
    ensures a == b
  {
    forall i | 0 <= i < HEADER_LEN ensures a[i] == b[i] {
      if i < 2 { assert a[..2][i] == b[..2][i]; }
      if 4 <= i < 6 { assert a[4..6][i - 4] == b[4..6][i - 4]; }
      if 6 <= i < 8 { assert a[6..8][i - 6] == b[6..8][i - 6]; }
      if 8 <= i < 16 { assert a[8..16][i - 8] == b[8..16][i - 8]; }
      if 16 <= i < 24 { assert a[16..24][i - 16] == b[16..24][i - 16]; }
      if 24 <= i < 32 { assert a[24..32][i - 24] == b[24..32][i - 24]; }
      if 32 <= i { assert a[32..36][i - 32] == b[32..36][i - 32]; }
    }
  }

  lemma {:induction false} FieldReencodes(h: seq<Byte>, from: nat, to: nat)
    requires from <= to <= |h|
    ensures BigEndian(Field(h, from, to), to - from) == h[from..to]
  {
    BytesReadBack(h[from..to]);
  }

  /** An accepted header is the one its frame encodes to. */
  lemma HeaderIsDetermined(codec: Codec, h: seq<Byte>, frame: Frame)
    requires |h| == HEADER_LEN && ReadHead(codec, h).Ok?
    requires var head := ReadHead(codec, h).value;
             && frame.kind == head.kind && frame.flags == head.flags && frame.streamId == head.streamId
             && frame.position == head.position && |frame.payload| == head.payloadLength
    ensures Header(frame) == h
  {
    hide BigEndian;
    FieldReencodes(h, 4, 6);
    FieldReencodes(h, 6, 8);
    FieldReencodes(h, 8, 16);
    FieldReencodes(h, 16, 24);
    FieldReencodes(h, 24, 32);
    FieldReencodes(h, 32, 36);
    HeaderFields(frame);
    FieldsCoverHeader(h, Header(frame));
  }

  lemma HeadFits(codec: Codec, h: seq<Byte>)
    requires |h| == HEADER_LEN && ReadHead(codec, h).Ok?
    ensures var head := ReadHead(codec, h).value;
            head.flags == 0 && head.payloadLength <= codec.maxPayload && head.payloadLength < U32_RANGE
  {
    hide Field, FrameTypeOf;
  }

  /** Encoding a decoded frame gives exactly the bytes it was decoded from. */
  lemma ReencodesIdentically(codec: Codec, input: seq<Byte>)
    requires Decoded(codec, input).result.Ok? && Decoded(codec, input).result.value.Some?
    ensures var step := Decoded(codec, input);
            var frame := step.result.value.value;
            && Encoded(codec, frame).Ok? && |frame.payload| < U32_RANGE
            && Encoded(codec, frame).value.Coalesce() + step.rest == input
  {
    hide ReadHead, Header;
    var step := Decoded(codec, input);
    var head := ReadHead(codec, input[..HEADER_LEN]).value;
    var total := HEADER_LEN + head.payloadLength;
    HeadFits(codec, input[..HEADER_LEN]);
    HeaderIsDetermined(codec, input[..HEADER_LEN], step.result.value.value);
    assert input[..HEADER_LEN] + input[HEADER_LEN..total] + input[total..] == input;
  }

  /** No encoding is a proper prefix of another, and different frames encode differently. */
  lemma EncodingsArePrefixFree(codec: Codec, one: Frame, other: Frame)
    requires Encoded(codec, one).Ok? && Encoded(codec, other).Ok?
    requires |one.payload| < U32_RANGE && |other.payload| < U32_RANGE
    requires Encoded(codec, one).value.Coalesce() <= Encoded(codec, other).value.Coalesce()
    ensures one == other
  {
    var a, b := Encoded(codec, one).value.Coalesce(), Encoded(codec, other).value.Coalesce();
    RoundTripIff(codec, one, b[|a|..]);
    RoundTripIff(codec, other, []);
    assert a + b[|a|..] == b && b + [] == b;
  }

  /** How a call can end, and what it takes from the buffer each time. */
  lemma DecodeConsumes(codec: Codec, input: seq<Byte>)
    ensures var step := Decoded(codec, input);
            && (|input| < HEADER_LEN ==> step == Step(Ok(None), input))
            && (|input| >= HEADER_LEN && ReadHead(codec, input[..HEADER_LEN]).Err? ==>
                  step == Step(Err(ReadHead(codec, input[..HEADER_LEN]).error), input))
            && (|input| >= HEADER_LEN && ReadHead(codec, input[..HEADER_LEN]).Ok? ==>
                  var total := HEADER_LEN + ReadHead(codec, input[..HEADER_LEN]).value.payloadLength;
                  && (|input| < total <==> step.result == Ok(None))
                  && (|input| < total ==> step.rest == input)
                  && (|input| >= total ==> step.rest == input[total..] && |step.rest| == |input| - total))
  {
  }

  /** A header-level refusal depends on the first 36 bytes alone. */
  lemma RefusalIsInTheHeader(codec: Codec, input: seq<Byte>, other: seq<Byte>)
    requires |input| >= HEADER_LEN && |other| >= HEADER_LEN && input[..HEADER_LEN] == other[..HEADER_LEN]
    requires Decoded(codec, input).result.Err? && Decoded(codec, input).rest == input
    ensures Decoded(codec, other) == Step(Decoded(codec, input).result, other)
  {
  }

  function Number(a: nat, b: nat, c: nat, d: nat): nat {
    0x100_0000 * a + 0x1_0000 * b + 0x100 * c + d
  }

  lemma NumbersOfBytes(input: seq<Byte>, from: nat)
    ensures from + 2 <= |input| ==> U16At(input, from) == Number(0, 0, input[from], input[from + 1])
    ensures from + 4 <= |input| ==>
              U32At(input, from) == Number(input[from], input[from + 1], input[from + 2], input[from + 3])
  {
    if from + 2 <= |input| {
      var two := input[from..from + 2];
      assert FromBigEndian(two[..1]) == two[0];
      assert FromBigEndian(two) == FromBigEndian(two[..1]) * 0x100 + two[1];
    }
    if from + 4 <= |input| {
      var four := input[from..from + 4];
      assert four[..3][..2] == four[..2] && four[..2][..1] == four[..1];
      assert FromBigEndian(four[..1]) == four[0];
      assert FromBigEndian(four[..2]) == FromBigEndian(four[..1]) * 0x100 + four[1];
      assert FromBigEndian(four[..3]) == FromBigEndian(four[..2]) * 0x100 + four[2];
      assert FromBigEndian(four) == FromBigEndian(four[..3]) * 0x100 + four[3];
    }
  }

  lemma ZeroNumbers(a: Byte, b: Byte)
    ensures Number(0, 0, a, b) == 0 <==> a == 0 && b == 0
    ensures Number(0, 0, a, b) == 36 <==> a == 0 && b == 36
  {
  }

  /** What is wrong with a header, field by field, the first fault first. */
  lemma FieldsAnswer(codec: Codec, h: seq<Byte>)
    requires |h| == HEADER_LEN
    ensures var r := ReadHead(codec, h);
            if h[..2] != MAGIC then r == Err(BadMagic)
            else if h[2] != VERSION then r == Err(UnsupportedVersion(h[2]))
            else if FrameTypeOf(h[3]).Err? then r == Err(FrameTypeOf(h[3]).error)
            else if U16At(h, 4) != 0 then r == Err(UnknownFlags(U16At(h, 4)))
            else if U16At(h, 6) != HEADER_LEN then r == Err(InvalidHeaderLength(U16At(h, 6)))
            else if U32At(h, 32) > codec.maxPayload then r == Err(PayloadTooLarge(U32At(h, 32), codec.maxPayload))
            else
              && r.Ok? && r.value.flags == 0 && FrameTypeOf(h[3]) == Ok(r.value.kind)
              && r.value.position.sequence == FromBigEndian(h[24..32]) && r.value.payloadLength == U32At(h, 32)
  {
    hide FromBigEndian, FrameTypeOf;
  }

  lemma MagicBytes(h: seq<Byte>)
    requires |h| >= 2
    ensures h[..2] == MAGIC <==> h[0] == 0x50 && h[1] == 0x44
  {
    assert h[..2] == [h[0], h[1]];
  }

  /** The same byte by byte. */
  lemma HeadAnswers(codec: Codec, h: seq<Byte>)
    requires |h| == HEADER_LEN
    ensures var r, length := ReadHead(codec, h), Number(h[32], h[33], h[34], h[35]);
            if h[0] != 0x50 || h[1] != 0x44 then r == Err(BadMagic)
            else if h[2] != 4 then r == Err(UnsupportedVersion(h[2]))
            else if h[3] == 0 || h[3] > 19 then r == Err(UnknownType(h[3]))
            else if h[4] != 0 || h[5] != 0 then r == Err(UnknownFlags(Number(0, 0, h[4], h[5])))
            else if h[6] != 0 || h[7] != 36 then r == Err(InvalidHeaderLength(Number(0, 0, h[6], h[7])))
            else if length > codec.maxPayload then r == Err(PayloadTooLarge(length, codec.maxPayload))
            else
              && r.Ok? && r.value.flags == 0 && r.value.kind == FRAME_TYPES[h[3] - 1]
              && r.value.position.sequence == FromBigEndian(h[24..32]) && r.value.payloadLength == length
  {
    hide ReadHead, U16At, U32At, Number, FrameTypeOf, FromBigEndian;
    FieldsAnswer(codec, h);
    NumbersOfBytes(h, 4);
    NumbersOfBytes(h, 6);
    NumbersOfBytes(h, 32);
    ZeroNumbers(h[4], h[5]);
    ZeroNumbers(h[6], h[7]);
    CodesCountUp(h[3]);
    MagicBytes(h);
  }

  /** How a call answers that has a header: the header's fault, or none yet, or the frame if its payload fits. */
  lemma DecodeAnswers(codec: Codec, input: seq<Byte>)
    requires |input| >= HEADER_LEN
    ensures var r, length := Decoded(codec, input).result, Number(input[32], input[33], input[34], input[35]);
            if input[0] != 0x50 || input[1] != 0x44 then r == Err(BadMagic)
            else if input[2] != 4 then r == Err(UnsupportedVersion(input[2]))
            else if input[3] == 0 || input[3] > 19 then r == Err(UnknownType(input[3]))
            else if input[4] != 0 || input[5] != 0 then r == Err(UnknownFlags(Number(0, 0, input[4], input[5])))
            else if input[6] != 0 || input[7] != 36 then
              r == Err(InvalidHeaderLength(Number(0, 0, input[6], input[7])))
            else if length > codec.maxPayload then r == Err(PayloadTooLarge(length, codec.maxPayload))
            else if |input| < 36 + length then r == Ok(None)
            else
              var kind, payload := FRAME_TYPES[input[3] - 1], input[36..36 + length];
              && (r.Ok? <==> LengthFits(kind, FromBigEndian(input[24..32]), length))
              && (r.Ok? ==> r.value.Some? && r.value.value.kind == kind && r.value.value.payload == payload)
  {
    hide ReadHead, LengthFits, NewFrame, Number, FromBigEndian;
    var header := input[..HEADER_LEN];
    assert header[24..32] == input[24..32];
    HeadAnswers(codec, header);
    var head := ReadHead(codec, header);
    if head.Ok? && |input| >= HEADER_LEN + head.value.payloadLength {
      FrameIsAcceptedIff(head.value.kind, head.value.flags, head.value.streamId, head.value.position,
                         input[HEADER_LEN..HEADER_LEN + head.value.payloadLength]);
    }
  }

  /** More input never changes an answer already given. */
  lemma AnswersAreStable(codec: Codec, input: seq<Byte>, more: seq<Byte>)
    requires Decoded(codec, input).result != Ok(None)
    ensures Decoded(codec, input + more).result == Decoded(codec, input).result
    ensures Decoded(codec, input + more).rest == Decoded(codec, input).rest + more
  {
    hide ReadHead, NewFrame;
    assert (input + more)[..HEADER_LEN] == input[..HEADER_LEN];
    var head := ReadHead(codec, input[..HEADER_LEN]);
    if head.Ok? {
      var total := HEADER_LEN + head.value.payloadLength;
      assert (input + more)[HEADER_LEN..total] == input[HEADER_LEN..total];
      assert (input + more)[total..] == input[total..] + more;
    }
  }
}
