/**
 Messages between peers: type-length-value encoding, and the incremental reassembly of messages from
 a byte stream that arrives in arbitrary pieces.
 */
module Framing {

  import opened Common

  const HEADER_SIZE := 3
  const U16 := 0x1_0000
  const U32 := 0x1_0000_0000

  type u16 = n: int | 0 <= n < U16
  type MilestoneIndex = n: int | 0 <= n < U32

  datatype Header = Header(messageType: byte, messageLength: u16)

  function HeaderFromBytes(bytes: seq<byte>): Header
    requires |bytes| == HEADER_SIZE
  {
    Header(bytes[0], 256 * bytes[1] as int + bytes[2])
  }

  function HeaderToBytes(h: Header): (bytes: seq<byte>)
    ensures |bytes| == HEADER_SIZE
  {
    [h.messageType, h.messageLength / 256, h.messageLength % 256]
  }

  lemma HeaderRoundTrip(h: Header, bytes: seq<byte>)
    ensures HeaderFromBytes(HeaderToBytes(h)) == h
    ensures |bytes| == HEADER_SIZE ==> HeaderToBytes(HeaderFromBytes(bytes)) == bytes
  {
  }

  /** One byte for the type, then the length with the high byte first. */
  lemma HeaderBigEndian(h: Header, bytes: seq<byte>)
    requires |bytes| == 3
    ensures HeaderToBytes(h)[0] == h.messageType
    ensures HeaderToBytes(h)[1] as int * 256 + HeaderToBytes(h)[2] as int == h.messageLength
    ensures HeaderFromBytes(bytes).messageType == bytes[0]
    ensures HeaderFromBytes(bytes).messageLength == bytes[1] as int * 256 + bytes[2] as int
  {
  }

  // ----- Messages

  datatype Message =
    | MilestoneRequest(index: MilestoneIndex)
    | TransactionBroadcast(transaction: seq<byte>)
    | TransactionRequest(hash: seq<byte>)
    | Heartbeat(solidMilestoneIndex: MilestoneIndex, snapshotMilestoneIndex: MilestoneIndex)

  datatype Kind = MilestoneRequestKind | TransactionBroadcastKind | TransactionRequestKind | HeartbeatKind

  function KindOf(m: Message): Kind {
    match m
    case MilestoneRequest(_) => MilestoneRequestKind
    case TransactionBroadcast(_) => TransactionBroadcastKind
    case TransactionRequest(_) => TransactionRequestKind
    case Heartbeat(_, _) => HeartbeatKind
  }

  function Id(k: Kind): byte {
    match k
    case MilestoneRequestKind => 0x03
    case TransactionBroadcastKind => 0x04
    case TransactionRequestKind => 0x05
    case HeartbeatKind => 0x06
  }

  predicate InSizeRange(k: Kind, n: nat) {
    match k
    case MilestoneRequestKind => n == 4
    case TransactionBroadcastKind => 292 <= n < 1605
    case TransactionRequestKind => n == 49
    case HeartbeatKind => n == 8
  }

  function U32ToBytes(n: MilestoneIndex): (bytes: seq<byte>)
    ensures |bytes| == 4
  {
    [n / 0x100_0000, n / 0x1_0000 % 256, n / 256 % 256, n % 256]
  }

  function U32FromBytes(bytes: seq<byte>): MilestoneIndex
    requires |bytes| == 4
  {
    ((bytes[0] as int * 256 + bytes[1]) * 256 + bytes[2]) * 256 + bytes[3]
  }

  lemma U32RoundTrip(n: MilestoneIndex, bytes: seq<byte>)
    ensures U32FromBytes(U32ToBytes(n)) == n
    ensures |bytes| == 4 ==> U32ToBytes(U32FromBytes(bytes)) == bytes
  {
    U32Encoded(n);
    if |bytes| == 4 {
      U32Decoded(bytes[0], bytes[1], bytes[2], bytes[3]);
    }
  }

  lemma U32Encoded(n: MilestoneIndex)
    ensures U32FromBytes(U32ToBytes(n)) == n
  {
    var a := n / 256;
    var b := a / 256;
    assert n / 0x1_0000 == b && n / 0x100_0000 == b / 256;
    assert n == a * 256 + n % 256 && a == b * 256 + a % 256 && b == b / 256 * 256 + b % 256;
  }

  lemma U32Decoded(a: byte, b: byte, c: byte, d: byte)
    ensures U32ToBytes(U32FromBytes([a, b, c, d])) == [a, b, c, d]
  {
    var high: int := a * 256 + b;
    var middle: int := high * 256 + c;
    var v: int := middle * 256 + d;
    assert v / 256 == middle && middle / 256 == high && high / 256 == a;
    assert v / 0x1_0000 == high && v / 0x100_0000 == a;
  }

  function Payload(m: Message): seq<byte> {
    match m
    case MilestoneRequest(index) => U32ToBytes(index)
    case TransactionBroadcast(transaction) => transaction
    case TransactionRequest(hash) => hash
    case Heartbeat(solid, snapshot) => U32ToBytes(solid) + U32ToBytes(snapshot)
  }

  function FromPayload(k: Kind, bytes: seq<byte>): Message
    requires InSizeRange(k, |bytes|)
  {
    match k
    case MilestoneRequestKind => MilestoneRequest(U32FromBytes(bytes))
    case TransactionBroadcastKind => TransactionBroadcast(bytes)
    case TransactionRequestKind => TransactionRequest(bytes)
    case HeartbeatKind => Heartbeat(U32FromBytes(bytes[..4]), U32FromBytes(bytes[4..]))
  }

  // ----- Type-length-value

  datatype TlvError =
    | InvalidAdvertisedType(advertisedType: byte, actualType: byte)
    | InvalidAdvertisedLength(advertisedLength: nat, actualLength: nat)
    | InvalidLength(length: nat)

  datatype TlvResult = Ok(message: Message) | Err(error: TlvError)

  function TlvFromBytes(k: Kind, header: Header, bytes: seq<byte>): TlvResult {
    if header.messageType != Id(k) then Err(InvalidAdvertisedType(header.messageType, Id(k)))
    else if header.messageLength != |bytes| then Err(InvalidAdvertisedLength(header.messageLength, |bytes|))
    else if !InSizeRange(k, |bytes|) then Err(InvalidLength(|bytes|))
    else Ok(FromPayload(k, bytes))
  }

  /** The header length is cut to 16 bits. */
  function TlvIntoBytes(m: Message): seq<byte> {
    HeaderToBytes(Header(Id(KindOf(m)), |Payload(m)| % U16)) + Payload(m)
  }

  /** The high byte comes first. */
  lemma U32BigEndian(n: MilestoneIndex, a: byte, b: byte, c: byte, d: byte)
    ensures var x := U32ToBytes(n); ((x[0] as int * 256 + x[1] as int) * 256 + x[2] as int) * 256 + x[3] as int == n
    ensures U32FromBytes([a, b, c, d]) == ((a as int * 256 + b as int) * 256 + c as int) * 256 + d as int
  {
    U32Encoded(n);
  }

  /** The bytes of every message: its type, its length cut to 16 bits, and its payload. */
  lemma OnTheWire(m: Message)
    ensures var bytes, n := TlvIntoBytes(m), |TlvIntoBytes(m)| - 3;
      && n >= 0 && bytes[1] as int * 256 + bytes[2] as int == n % 65536
      && (m.MilestoneRequest? ==> bytes[0] == 3 && bytes[3..] == U32ToBytes(m.index))
      && (m.TransactionBroadcast? ==> bytes[0] == 4 && bytes[3..] == m.transaction)
      && (m.TransactionRequest? ==> bytes[0] == 5 && bytes[3..] == m.hash)
      && (m.Heartbeat? ==> bytes[0] == 6 && bytes[3..7] == U32ToBytes(m.solidMilestoneIndex)
                           && bytes[7..11] == U32ToBytes(m.snapshotMilestoneIndex))
    ensures m.MilestoneRequest? || m.Heartbeat? ==> WellSized(m)
    ensures m.TransactionBroadcast? ==> (WellSized(m) <==> 292 <= |m.transaction| <= 1604)
    ensures m.TransactionRequest? ==> (WellSized(m) <==> |m.hash| == 49)
  {
    HeaderBigEndian(Header(Id(KindOf(m)), |Payload(m)| % U16), [0, 0, 0]);
    assert TlvIntoBytes(m)[3..] == Payload(m);
    if m.Heartbeat? {
      assert TlvIntoBytes(m)[3..7] == Payload(m)[..4] && TlvIntoBytes(m)[7..11] == Payload(m)[4..];
    }
  }

  /** What the decoder of each type answers, in the order of its checks. */
  lemma DecodingDecided(k: Kind, header: Header, bytes: seq<byte>, id: byte, least: nat, most: nat)
    requires k == MilestoneRequestKind ==> id == 3 && least == 4 && most == 4
    requires k == TransactionBroadcastKind ==> id == 4 && least == 292 && most == 1604
    requires k == TransactionRequestKind ==> id == 5 && least == 49 && most == 49
    requires k == HeartbeatKind ==> id == 6 && least == 8 && most == 8
    ensures var r := TlvFromBytes(k, header, bytes);
      && (header.messageType != id ==> r == Err(InvalidAdvertisedType(header.messageType, id)))
      && (header.messageType == id && header.messageLength != |bytes| ==>
            r == Err(InvalidAdvertisedLength(header.messageLength, |bytes|)))
      && (header.messageType == id && header.messageLength == |bytes| && !(least <= |bytes| <= most) ==>
            r == Err(InvalidLength(|bytes|)))
      && (header.messageType == id && header.messageLength == |bytes| && least <= |bytes| <= most ==> r.Ok?)
  {
  }

  /** The message has a size its type allows. */
  predicate WellSized(m: Message) {
    InSizeRange(KindOf(m), |Payload(m)|)
  }

  /** Decoding succeeds exactly on well-formed input, and then encoding gives the input back. */
  lemma TlvDecodeEncode(k: Kind, header: Header, bytes: seq<byte>)
    ensures TlvFromBytes(k, header, bytes).Ok? <==>
      header.messageType == Id(k) && header.messageLength == |bytes| && InSizeRange(k, |bytes|)
    ensures var r := TlvFromBytes(k, header, bytes);
      r.Ok? ==> KindOf(r.message) == k && WellSized(r.message) && TlvIntoBytes(r.message) == HeaderToBytes(header) + bytes
  {
    if InSizeRange(k, |bytes|) {
      DecodedPayload(k, bytes);
    }
  }

  /** What is decoded from a payload encodes to that payload. */
  lemma DecodedPayload(k: Kind, bytes: seq<byte>)
    requires InSizeRange(k, |bytes|)
    ensures KindOf(FromPayload(k, bytes)) == k && Payload(FromPayload(k, bytes)) == bytes
  {
    match k
    case MilestoneRequestKind => U32RoundTrip(0, bytes);
    case HeartbeatKind =>
      U32RoundTrip(0, bytes[..4]);
      U32RoundTrip(0, bytes[4..]);
      assert bytes == bytes[..4] + bytes[4..];
    case _ =>
  }

  lemma PayloadRoundTrip(m: Message)
    requires WellSized(m)
    ensures TlvFromBytes(KindOf(m), Header(Id(KindOf(m)), |Payload(m)|), Payload(m)) == Ok(m)
  {
    match m
    case MilestoneRequest(index) => U32RoundTrip(index, []);
    case Heartbeat(solid, snapshot) =>
      U32RoundTrip(solid, []);
      U32RoundTrip(snapshot, []);
      assert Payload(m)[..4] == U32ToBytes(solid) && Payload(m)[4..] == U32ToBytes(snapshot);
    case _ =>
  }

  /** Which decoder the peer worker applies to a frame; other types are ignored. */
  function Dispatch(f: Frame): Option<TlvResult> {
    if f.header.messageType == Id(MilestoneRequestKind) then Some(TlvFromBytes(MilestoneRequestKind, f.header, f.payload))
    else if f.header.messageType == Id(TransactionBroadcastKind) then Some(TlvFromBytes(TransactionBroadcastKind, f.header, f.payload))
    else if f.header.messageType == Id(TransactionRequestKind) then Some(TlvFromBytes(TransactionRequestKind, f.header, f.payload))
    else if f.header.messageType == Id(HeartbeatKind) then Some(TlvFromBytes(HeartbeatKind, f.header, f.payload))
    else None
  }

  /** Frames of other types are ignored, and no others; a frame goes to the decoder of its type. */
  lemma DispatchDecided(f: Frame)
    ensures Dispatch(f) == None <==> f.header.messageType !in {3, 4, 5, 6}
    ensures f.header.messageType == 3 ==> Dispatch(f) == Some(TlvFromBytes(MilestoneRequestKind, f.header, f.payload))
    ensures f.header.messageType == 4 ==> Dispatch(f) == Some(TlvFromBytes(TransactionBroadcastKind, f.header, f.payload))
    ensures f.header.messageType == 5 ==> Dispatch(f) == Some(TlvFromBytes(TransactionRequestKind, f.header, f.payload))
    ensures f.header.messageType == 6 ==> Dispatch(f) == Some(TlvFromBytes(HeartbeatKind, f.header, f.payload))
  {
  }

  // ----- Reassembly

  datatype Frame = Frame(header: Header, payload: seq<byte>)

  datatype ReadState = AwaitHeader | AwaitPayload(header: Header)

  datatype Context = Context(state: ReadState, buffer: seq<byte>)

  datatype Parsed = Parsed(frames: seq<Frame>, context: Context)

  /** Reference parser: all frames of the bytes, and what is left over. */
  function Parse(state: ReadState, bytes: seq<byte>): Parsed
    decreases |bytes|, if state.AwaitPayload? then 1 else 0
  {
    match state
    case AwaitHeader =>
      if |bytes| < HEADER_SIZE then Parsed([], Context(state, bytes))
      else Parse(AwaitPayload(HeaderFromBytes(bytes[..HEADER_SIZE])), bytes[HEADER_SIZE..])
    case AwaitPayload(header) =>
      if |bytes| < header.messageLength then Parsed([], Context(state, bytes))
      else
        var rest := Parse(AwaitHeader, bytes[header.messageLength..]);
        rest.(frames := [Frame(header, bytes[..header.messageLength])] + rest.frames)
  }

  /** Nothing more can be parsed before bytes arrive. */
  predicate Stuck(c: Context) {
    match c.state
    case AwaitHeader => |c.buffer| < HEADER_SIZE
    case AwaitPayload(header) => |c.buffer| < header.messageLength
  }

  lemma StuckParses(c: Context)
    requires Stuck(c)
    ensures Parse(c.state, c.buffer) == Parsed([], c)
  {
  }

  /** Feeding more bytes to what was left over is parsing the concatenation. */
  lemma {:induction false} ParseConcat(state: ReadState, a: seq<byte>, b: seq<byte>)
    ensures var first := Parse(state, a);
      var second := Parse(first.context.state, first.context.buffer + b);
      && Stuck(first.context)
      && Parse(state, a + b) == second.(frames := first.frames + second.frames)
    decreases |a|, if state.AwaitPayload? then 1 else 0
  {
    match state
    case AwaitHeader =>
      if |a| >= HEADER_SIZE {
        assert (a + b)[..HEADER_SIZE] == a[..HEADER_SIZE] && (a + b)[HEADER_SIZE..] == a[HEADER_SIZE..] + b;
        ParseConcat(AwaitPayload(HeaderFromBytes(a[..HEADER_SIZE])), a[HEADER_SIZE..], b);
      }
    case AwaitPayload(header) =>
      var n := header.messageLength;
      if |a| >= n {
        assert (a + b)[..n] == a[..n] && (a + b)[n..] == a[n..] + b;
        ParseConcat(AwaitHeader, a[n..], b);
        var first := Parse(AwaitHeader, a[n..]);
        var second := Parse(first.context.state, first.context.buffer + b);
        var frame := [Frame(header, a[..n])];
        assert Parse(state, a) == first.(frames := frame + first.frames);
        assert frame + (first.frames + second.frames) == frame + first.frames + second.frames;
      }
  }

  /** Frames already read come first. */
  function After(frames: seq<Frame>, p: Parsed): Parsed {
    Parsed(frames + p.frames, p.context)
  }

  lemma HeaderAt(buffer: seq<byte>, offset: nat)
    requires offset + HEADER_SIZE <= |buffer|
    ensures Parse(AwaitHeader, buffer[offset..]) ==
      Parse(AwaitPayload(HeaderFromBytes(buffer[offset..offset + HEADER_SIZE])), buffer[offset + HEADER_SIZE..])
  {
    var unread := buffer[offset..];
    assert unread[..HEADER_SIZE] == buffer[offset..offset + HEADER_SIZE];
    assert unread[HEADER_SIZE..] == buffer[offset + HEADER_SIZE..];
  }

  lemma PayloadAt(frames: seq<Frame>, header: Header, buffer: seq<byte>, offset: nat)
    requires offset + header.messageLength <= |buffer|
    ensures var n := header.messageLength;
      After(frames, Parse(AwaitPayload(header), buffer[offset..])) ==
      After(frames + [Frame(header, buffer[offset..offset + n])], Parse(AwaitHeader, buffer[offset + n..]))
  {
    var n, unread := header.messageLength, buffer[offset..];
    assert unread[..n] == buffer[offset..offset + n];
    assert unread[n..] == buffer[offset + n..];
  }

  /** One turn of the handler's loop: reads a header or a payload if there are bytes enough. */
  method ReadOne(state: ReadState, buffer: seq<byte>, offset: nat, frames: seq<Frame>)
    returns (remaining: bool, state': ReadState, offset': nat, frames': seq<Frame>)
    requires offset <= |buffer|
    ensures !remaining ==> state' == state && offset' == offset && frames' == frames && Stuck(Context(state, buffer[offset..]))
    ensures remaining ==>
      && (offset < offset' <= |buffer| || (offset' == offset && state.AwaitPayload? && state'.AwaitHeader?))
      && After(frames', Parse(state', buffer[offset'..])) == After(frames, Parse(state, buffer[offset..]))
  {
    remaining, state', offset', frames' := true, state, offset, frames;
    match state
    case AwaitHeader =>
      if offset + HEADER_SIZE <= |buffer| {
        HeaderAt(buffer, offset);
        state' := AwaitPayload(HeaderFromBytes(buffer[offset..offset + HEADER_SIZE]));
        offset' := offset + HEADER_SIZE;
      } else {
        remaining := false;
      }
    case AwaitPayload(header) =>
      if offset + header.messageLength <= |buffer| {
        PayloadAt(frames, header, buffer, offset);
        frames' := frames + [Frame(header, buffer[offset..offset + header.messageLength])];
        offset' := offset + header.messageLength;
        state' := AwaitHeader;
      } else {
        remaining := false;
      }
  }

  /** The handler for one piece of the stream: appends it to the buffer and parses with a moving offset,
      also when a message has no payload. */
  method MessageHandler(context: Context, bytes: seq<byte>) returns (next: Context, frames: seq<Frame>)
    ensures Parsed(frames, next) == Parse(context.state, context.buffer + bytes)
  {
    var buffer := if context.buffer == [] then bytes else context.buffer + bytes;
    assert buffer == context.buffer + bytes && buffer[0..] == buffer;
    var state, offset, remaining := context.state, 0, true;
    frames := [];
    ghost var target := Parse(context.state, buffer);
    assert After([], target) == target;
    while remaining
      invariant 0 <= offset <= |buffer|
      invariant After(frames, Parse(state, buffer[offset..])) == target
      invariant !remaining ==> Stuck(Context(state, buffer[offset..]))
      decreases remaining, |buffer| - offset, if state.AwaitPayload? then 1 else 0
    {
      remaining, state, offset, frames := ReadOne(state, buffer, offset, frames);
    }
    next := Context(state, buffer[offset..]);
    StuckParses(next);
    assert frames + [] == frames;
  }

  // ----- Main results

  /** The bytes of a frame, and of a header whose payload has not arrived yet. */
  function FrameBytes(frames: seq<Frame>): seq<byte> {
    if frames == [] then [] else HeaderToBytes(frames[0].header) + frames[0].payload + FrameBytes(frames[1..])
  }

  function PendingHeader(state: ReadState): seq<byte> {
    match state case AwaitHeader => [] case AwaitPayload(h) => HeaderToBytes(h)
  }

  /** Parsing accounts for every byte, in order: the frames, then a pending header, then the leftover; and
      every frame has the length its header says. */
  lemma {:induction false} ParseAccounts(state: ReadState, bytes: seq<byte>)
    ensures var p := Parse(state, bytes);
      && PendingHeader(state) + bytes == FrameBytes(p.frames) + PendingHeader(p.context.state) + p.context.buffer
      && forall i :: 0 <= i < |p.frames| ==> |p.frames[i].payload| == p.frames[i].header.messageLength
    decreases |bytes|, if state.AwaitPayload? then 1 else 0
  {
    match state
    case AwaitHeader =>
      if |bytes| >= HEADER_SIZE {
        var header := HeaderFromBytes(bytes[..HEADER_SIZE]);
        HeaderAt(bytes, 0);
        assert bytes[0..] == bytes && bytes[0..HEADER_SIZE] == bytes[..HEADER_SIZE];
        HeaderRoundTrip(header, bytes[..HEADER_SIZE]);
        assert [] + bytes == bytes[..HEADER_SIZE] + bytes[HEADER_SIZE..];
        ParseAccounts(AwaitPayload(header), bytes[HEADER_SIZE..]);
      } else {
        StuckParses(Context(state, bytes));
      }
    case AwaitPayload(header) =>
      var n := header.messageLength;
      if |bytes| >= n {
        ParseAccounts(AwaitHeader, bytes[n..]);
        PayloadAccounts(header, bytes, Parse(AwaitHeader, bytes[n..]));
      } else {
        StuckParses(Context(state, bytes));
      }
  }

  lemma PayloadAccounts(header: Header, bytes: seq<byte>, rest: Parsed)
    requires header.messageLength <= |bytes| && rest == Parse(AwaitHeader, bytes[header.messageLength..])
    requires [] + bytes[header.messageLength..] == FrameBytes(rest.frames) + PendingHeader(rest.context.state) + rest.context.buffer
    ensures var p := Parse(AwaitPayload(header), bytes);
      && p.frames == [Frame(header, bytes[..header.messageLength])] + rest.frames
      && HeaderToBytes(header) + bytes == FrameBytes(p.frames) + PendingHeader(p.context.state) + p.context.buffer
  {
    var n := header.messageLength;
    var frames := [Frame(header, bytes[..n])] + rest.frames;
    assert frames[1..] == rest.frames && [] + bytes[n..] == bytes[n..];
    OneFrameMore(HeaderToBytes(header), bytes, n, FrameBytes(rest.frames), PendingHeader(rest.context.state), rest.context.buffer);
  }

  lemma OneFrameMore(header: seq<byte>, bytes: seq<byte>, n: nat, frames: seq<byte>, pending: seq<byte>, buffer: seq<byte>)
    requires n <= |bytes| && bytes[n..] == frames + pending + buffer
    ensures header + bytes == header + bytes[..n] + frames + pending + buffer
  {
    assert bytes == bytes[..n] + (frames + pending + buffer);
    assert header + (bytes[..n] + (frames + pending + buffer)) == header + bytes[..n] + frames + pending + buffer;
  }

  /** The handler on the pieces of a stream one after the other: the frames and the leftover of parsing the
      whole stream. */
  method HandleAll(context: Context, chunks: seq<seq<byte>>) returns (next: Context, frames: seq<Frame>)
    requires Stuck(context)
    ensures Parsed(frames, next) == Parse(context.state, context.buffer + Concat(chunks))
  {
    next, frames := context, [];
    var left := chunks;
    while left != []
      invariant After(frames, FeedAll(next, left)) == FeedAll(context, chunks)
      decreases |left|
    {
      ghost var before := next;
      var more;
      next, more := MessageHandler(next, left[0]);
      FeedOne(frames, before, left);
      frames := frames + more;
      left := left[1..];
    }
    assert frames + [] == frames;
    FragmentationIndependence(context, chunks);
  }

  lemma FeedOne(frames: seq<Frame>, context: Context, chunks: seq<seq<byte>>)
    requires chunks != []
    ensures var first := Parse(context.state, context.buffer + chunks[0]);
      After(frames, FeedAll(context, chunks)) == After(frames + first.frames, FeedAll(first.context, chunks[1..]))
  {
    var first := Parse(context.state, context.buffer + chunks[0]);
    var rest := FeedAll(first.context, chunks[1..]);
    assert frames + (first.frames + rest.frames) == frames + first.frames + rest.frames;
  }

  function Concat(chunks: seq<seq<byte>>): seq<byte> {
    if chunks == [] then [] else chunks[0] + Concat(chunks[1..])
  }

  /** Successive handler calls on the pieces of a stream. */
  function FeedAll(context: Context, chunks: seq<seq<byte>>): Parsed
    decreases |chunks|
  {
    if chunks == [] then Parsed([], context)
    else
      var first := Parse(context.state, context.buffer + chunks[0]);
      var rest := FeedAll(first.context, chunks[1..]);
      rest.(frames := first.frames + rest.frames)
  }

  /** Fragmentation independence: however the stream is cut, the frames handed over and the leftover are
      those of parsing it in one go. */
  lemma {:induction false} FragmentationIndependence(context: Context, chunks: seq<seq<byte>>)
    requires Stuck(context)
    ensures FeedAll(context, chunks) == Parse(context.state, context.buffer + Concat(chunks))
    decreases |chunks|
  {
    if chunks == [] {
      assert context.buffer + Concat(chunks) == context.buffer;
    } else {
      var head, tail := context.buffer + chunks[0], Concat(chunks[1..]);
      ParseConcat(context.state, head, tail);
      assert context.buffer + Concat(chunks) == head + tail;
      FragmentationIndependence(Parse(context.state, head).context, chunks[1..]);
    }
  }

  function EncodeAll(messages: seq<Message>): seq<byte> {
    if messages == [] then [] else TlvIntoBytes(messages[0]) + EncodeAll(messages[1..])
  }

  /** The frames a list of messages should arrive as. */
  function FramesOf(messages: seq<Message>): (frames: seq<Frame>)
    ensures |frames| == |messages|
  {
    if messages == [] then []
    else [Frame(Header(Id(KindOf(messages[0])), |Payload(messages[0])| % U16), Payload(messages[0]))] + FramesOf(messages[1..])
  }

  lemma {:induction false} ParseEncoded(messages: seq<Message>)
    requires forall i :: 0 <= i < |messages| ==> WellSized(messages[i])
    ensures Parse(AwaitHeader, EncodeAll(messages)) == Parsed(FramesOf(messages), Context(AwaitHeader, []))
  {
    if messages != [] {
      var m := messages[0];
      assert WellSized(m);
      var header := Header(Id(KindOf(m)), |Payload(m)|);
      ParseFrame(header, Payload(m), EncodeAll(messages[1..]));
      ParseEncoded(messages[1..]);
    }
  }

  lemma ParseFrame(header: Header, payload: seq<byte>, tail: seq<byte>)
    requires |payload| == header.messageLength
    ensures Parse(AwaitHeader, HeaderToBytes(header) + payload + tail) ==
      After([Frame(header, payload)], Parse(AwaitHeader, tail))
  {
    var bytes := HeaderToBytes(header) + payload + tail;
    HeaderRoundTrip(header, []);
    assert bytes[..HEADER_SIZE] == HeaderToBytes(header) && bytes[HEADER_SIZE..] == payload + tail;
    assert (payload + tail)[..|payload|] == payload && (payload + tail)[|payload|..] == tail;
    assert Parse(AwaitHeader, bytes) == Parse(AwaitPayload(header), payload + tail);
  }

  lemma {:induction false} FramesDispatch(messages: seq<Message>, i: nat)
    requires i < |messages| && forall j :: 0 <= j < |messages| ==> WellSized(messages[j])
    ensures Dispatch(FramesOf(messages)[i]) == Some(Ok(messages[i]))
  {
    if i == 0 {
      PayloadRoundTrip(messages[0]);
    } else {
      FramesDispatch(messages[1..], i - 1);
    }
  }

  /** Whatever messages are sent, and however the network cuts the bytes, the receiver hands over exactly
      those messages in order, with nothing left in its buffer. */
  lemma MessagesArrive(messages: seq<Message>, chunks: seq<seq<byte>>)
    requires forall i :: 0 <= i < |messages| ==> WellSized(messages[i])
    requires Concat(chunks) == EncodeAll(messages)
    ensures var r := FeedAll(Context(AwaitHeader, []), chunks);
      && r.context == Context(AwaitHeader, []) && |r.frames| == |messages|
      && forall i :: 0 <= i < |messages| ==> Dispatch(r.frames[i]) == Some(Ok(messages[i]))
  {
    FragmentationIndependence(Context(AwaitHeader, []), chunks);
    assert [] + Concat(chunks) == Concat(chunks);
    ParseEncoded(messages);
    forall i | 0 <= i < |messages|
      ensures Dispatch(FramesOf(messages)[i]) == Some(Ok(messages[i]))
    {
      FramesDispatch(messages, i);
    }
  }
}
