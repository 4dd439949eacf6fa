/** Messages on the wire: a 16-byte mark, a 72-byte header and a body, in the byte order of the host. */
module Framing {
  import opened Bytes

  const MARK_SIGNATURE: u32 := 0xdeadbeef
  const MARK_SIZE := 16
  const HEADER_SIZE := 72

  const REQUEST: u16 := 0
  const RESPONSE: u16 := 1

  const OK: u32 := 0
  const BAD_ARG: u32 := 1
  const NOT_FOUND: u32 := 2

  type Name = s: seq<byte> | |s| == 8 witness [0, 0, 0, 0, 0, 0, 0, 0]
  type Pad = s: seq<byte> | |s| == 4 witness [0, 0, 0, 0]

  datatype Mark = Mark(signature: u32, headerLen: u32, dataLen: u32, checksum: u32)

  /** The four times are T1 to T4: request sent and received, response sent and received. */
  datatype Header = Header(
    rpcId: u32, parent: u32,
    reqSendTime: u64, reqRecvTime: u64, resSendTime: u64, resRecvTime: u64,
    clientIp: u32, serverIp: u32, clientPort: u16, serverPort: u16,
    reqLenLog: u8, resLenLog: u8, messageType: u16,
    name: Name, status: u32, pad: Pad)

  datatype Message = Message(mark: Mark, header: Header, body: seq<byte>)

  /** The fields of the mark, and the four groups of numbers before the method name of the header. */
  const MARK_WIDTHS: seq<nat> := [4, 4, 4, 4]
  const ID_WIDTHS: seq<nat> := [4, 4]
  const TIME_WIDTHS: seq<nat> := [8, 8, 8, 8]
  const ADDRESS_WIDTHS: seq<nat> := [4, 4, 2, 2]
  const SIZE_WIDTHS: seq<nat> := [1, 1, 2]

  lemma Widths()
    ensures Width(MARK_WIDTHS) == MARK_SIZE
    ensures Width(ID_WIDTHS) == 8 && Width(TIME_WIDTHS) == 32
    ensures Width(ADDRESS_WIDTHS) == 12 && Width(SIZE_WIDTHS) == 4
  {
    assert Width([4]) == 4 && Width([8]) == 8 && Width([2]) == 2;
    assert Width([4, 4]) == 8 && Width([8, 8]) == 16 && Width([2, 2]) == 4 && Width([1, 2]) == 3;
    assert Width([4, 4, 4]) == 12 && Width([8, 8, 8]) == 24 && Width([4, 2, 2]) == 8;
  }

  function MarkFields(m: Mark): (values: seq<nat>) {
    [m.signature, m.headerLen, m.dataLen, m.checksum]
  }

  function EncodeMark(m: Mark): (bs: seq<byte>)
    ensures |bs| == MARK_SIZE
  {
    Widths();
    EncodeFields(MARK_WIDTHS, MarkFields(m))
  }

  function DecodeMark(bs: seq<byte>): Mark
    requires |bs| == MARK_SIZE
  {
    Widths();
    LimitWidths();
    var v := DecodeFields(MARK_WIDTHS, bs);
    Mark(v[0], v[1], v[2], v[3])
  }

  function Ids(h: Header): (values: seq<nat>) {
    [h.rpcId, h.parent]
  }

  function Times(h: Header): (values: seq<nat>) {
    [h.reqSendTime, h.reqRecvTime, h.resSendTime, h.resRecvTime]
  }

  function Addresses(h: Header): (values: seq<nat>) {
    [h.clientIp, h.serverIp, h.clientPort, h.serverPort]
  }

  function Sizes(h: Header): (values: seq<nat>) {
    [h.reqLenLog, h.resLenLog, h.messageType]
  }

  function EncodeHeader(h: Header): (bs: seq<byte>)
    ensures |bs| == HEADER_SIZE
  {
    Widths();
    EncodeFields(ID_WIDTHS, Ids(h)) + EncodeFields(TIME_WIDTHS, Times(h)) +
    EncodeFields(ADDRESS_WIDTHS, Addresses(h)) + EncodeFields(SIZE_WIDTHS, Sizes(h)) +
    h.name + Little(4, h.status) + h.pad
  }

  function DecodeHeader(bs: seq<byte>): Header
    requires |bs| == HEADER_SIZE
  {
    Widths();
    LimitWidths();
    var i, t := DecodeFields(ID_WIDTHS, bs[..8]), DecodeFields(TIME_WIDTHS, bs[8..40]);
    var a, z := DecodeFields(ADDRESS_WIDTHS, bs[40..52]), DecodeFields(SIZE_WIDTHS, bs[52..56]);
    Header(i[0], i[1], t[0], t[1], t[2], t[3], a[0], a[1], a[2], a[3], z[0], z[1], z[2],
           bs[56..64], FromLittle(bs[64..68]), bs[68..72])
  }

  lemma MarkRoundTrip(m: Mark)
    ensures DecodeMark(EncodeMark(m)) == m
  {
    LimitWidths();
    FieldsRoundTrip(MARK_WIDTHS, MarkFields(m));
  }

  lemma HeaderRoundTrip(h: Header)
    ensures DecodeHeader(EncodeHeader(h)) == h
  {
    hide EncodeFields, DecodeFields, Width;
    Widths();
    LimitWidths();
    FieldsRoundTrip(ID_WIDTHS, Ids(h));
    FieldsRoundTrip(TIME_WIDTHS, Times(h));
    FieldsRoundTrip(ADDRESS_WIDTHS, Addresses(h));
    FieldsRoundTrip(SIZE_WIDTHS, Sizes(h));
    LittleRoundTrip(4, h.status);
    var bs := EncodeHeader(h);
    assert bs[..8] == EncodeFields(ID_WIDTHS, Ids(h)) && bs[8..40] == EncodeFields(TIME_WIDTHS, Times(h));
    assert bs[40..52] == EncodeFields(ADDRESS_WIDTHS, Addresses(h));
    assert bs[52..56] == EncodeFields(SIZE_WIDTHS, Sizes(h));
    assert bs[56..64] == h.name && bs[64..68] == Little(4, h.status) && bs[68..72] == h.pad;
  }

  /** The fields of the mark, and of the header, lie where the structs have them. */
  lemma MarkLayout(m: Mark)
    ensures EncodeMark(m) ==
            Little(4, m.signature) + Little(4, m.headerLen) + Little(4, m.dataLen) + Little(4, m.checksum)
  {
    FourFields(MARK_WIDTHS, MarkFields(m));
  }

  lemma HeaderLayout(h: Header)
    ensures var bs := EncodeHeader(h);
            && bs[0..4] == Little(4, h.rpcId) && bs[4..8] == Little(4, h.parent)
            && bs[8..16] == Little(8, h.reqSendTime) && bs[16..24] == Little(8, h.reqRecvTime)
            && bs[24..32] == Little(8, h.resSendTime) && bs[32..40] == Little(8, h.resRecvTime)
            && bs[40..44] == Little(4, h.clientIp) && bs[44..48] == Little(4, h.serverIp)
            && bs[48..50] == Little(2, h.clientPort) && bs[50..52] == Little(2, h.serverPort)
            && bs[52..53] == Little(1, h.reqLenLog) && bs[53..54] == Little(1, h.resLenLog)
            && bs[54..56] == Little(2, h.messageType) && bs[56..64] == h.name
            && bs[64..68] == Little(4, h.status) && bs[68..72] == h.pad
  {
    hide Little;
    Widths();
    TwoFields(ID_WIDTHS, Ids(h));
    FourFields(TIME_WIDTHS, Times(h));
    FourFields(ADDRESS_WIDTHS, Addresses(h));
    ThreeFields(SIZE_WIDTHS, Sizes(h));
    HeaderGroups(h);
    var bs := EncodeHeader(h);
    Split(bs, 0, 8, Little(4, h.rpcId), Little(4, h.parent));
    SplitFour(bs, 8, 40, Little(8, h.reqSendTime), Little(8, h.reqRecvTime), Little(8, h.resSendTime),
              Little(8, h.resRecvTime));
    SplitFour(bs, 40, 52, Little(4, h.clientIp), Little(4, h.serverIp), Little(2, h.clientPort),
              Little(2, h.serverPort));
    Split(bs, 52, 56, Little(1, h.reqLenLog) + Little(1, h.resLenLog), Little(2, h.messageType));
    Split(bs, 52, 54, Little(1, h.reqLenLog), Little(1, h.resLenLog));
  }

  /** The header in seven pieces: four groups of numbers, the name, the status and the padding. */
  lemma HeaderGroups(h: Header)
    ensures var bs := EncodeHeader(h);
            && bs[0..8] == EncodeFields(ID_WIDTHS, Ids(h)) && bs[8..40] == EncodeFields(TIME_WIDTHS, Times(h))
            && bs[40..52] == EncodeFields(ADDRESS_WIDTHS, Addresses(h))
            && bs[52..56] == EncodeFields(SIZE_WIDTHS, Sizes(h))
            && bs[56..64] == h.name && bs[64..68] == Little(4, h.status) && bs[68..72] == h.pad
  {
    hide Little, EncodeFields, Width;
    Widths();
    var i, t := EncodeFields(ID_WIDTHS, Ids(h)), EncodeFields(TIME_WIDTHS, Times(h));
    var a, z := EncodeFields(ADDRESS_WIDTHS, Addresses(h)), EncodeFields(SIZE_WIDTHS, Sizes(h));
    var s := Little(4, h.status);
    var bs := EncodeHeader(h);
    assert bs[0..72] == i + t + a + z + h.name + s + h.pad;
    Split(bs, 0, 72, i + t + a + z + h.name + s, h.pad);
    Split(bs, 0, 68, i + t + a + z + h.name, s);
    Split(bs, 0, 64, i + t + a + z, h.name);
    Split(bs, 0, 56, i + t + a, z);
    Split(bs, 0, 52, i + t, a);
    Split(bs, 0, 40, i, t);
  }

  /** A stretch of bytes that is two pieces. */
  lemma Split(bs: seq<byte>, at: nat, end: nat, x: seq<byte>, y: seq<byte>)
    requires at <= end <= |bs| && bs[at..end] == x + y
    ensures at + |x| == end - |y|
    ensures bs[at..at + |x|] == x && bs[at + |x|..end] == y
  {
    assert |x + y| == end - at;
    forall k | 0 <= k < |x| ensures bs[at + k] == x[k] {
      assert bs[at..end][k] == (x + y)[k];
    }
    forall k | 0 <= k < |y| ensures bs[at + |x| + k] == y[k] {
      assert bs[at..end][|x| + k] == (x + y)[|x| + k];
    }
  }

  lemma SplitFour(bs: seq<byte>, at: nat, end: nat, a: seq<byte>, b: seq<byte>, c: seq<byte>, d: seq<byte>)
    requires at <= end <= |bs| && bs[at..end] == a + b + c + d
    ensures at + |a| + |b| + |c| + |d| == end
    ensures bs[at..at + |a|] == a && bs[at + |a|..at + |a| + |b|] == b
    ensures bs[at + |a| + |b|..at + |a| + |b| + |c|] == c && bs[at + |a| + |b| + |c|..end] == d
  {
    Split(bs, at, end, a + b + c, d);
    Split(bs, at, end - |d|, a + b, c);
    Split(bs, at, end - |d| - |c|, a, b);
  }

  lemma FirstField(widths: seq<nat>, values: seq<nat>)
    requires |widths| == |values| > 0
    ensures EncodeFields(widths, values) == Little(widths[0], values[0]) + EncodeFields(widths[1..], values[1..])
  {
  }

  lemma TwoFields(widths: seq<nat>, values: seq<nat>)
    requires |widths| == |values| == 2
    ensures EncodeFields(widths, values) == Little(widths[0], values[0]) + Little(widths[1], values[1])
  {
    hide Little;
    FirstField(widths, values);
    FirstField(widths[1..], values[1..]);
    assert EncodeFields([], []) == [];
  }

  lemma ThreeFields(widths: seq<nat>, values: seq<nat>)
    requires |widths| == |values| == 3
    ensures EncodeFields(widths, values) ==
            Little(widths[0], values[0]) + Little(widths[1], values[1]) + Little(widths[2], values[2])
  {
    hide Little, EncodeFields;
    FirstField(widths, values);
    TwoFields(widths[1..], values[1..]);
  }

  lemma FourFields(widths: seq<nat>, values: seq<nat>)
    requires |widths| == |values| == 4
    ensures EncodeFields(widths, values) ==
            Little(widths[0], values[0]) + Little(widths[1], values[1]) +
            Little(widths[2], values[2]) + Little(widths[3], values[3])
  {
    hide Little, EncodeFields;
    FirstField(widths, values);
    ThreeFields(widths[1..], values[1..]);
    assert widths[1..][1] == widths[2] && widths[1..][2] == widths[3];
    assert values[1..][1] == values[2] && values[1..][2] == values[3];
  }

  lemma MarkBytes(bs: seq<byte>)
    requires |bs| == MARK_SIZE
    ensures EncodeMark(DecodeMark(bs)) == bs
  {
    hide EncodeFields, DecodeFields, Width;
    Widths();
    RecordRoundTrip(MARK_WIDTHS, bs);
    assert MarkFields(DecodeMark(bs)) == DecodeFields(MARK_WIDTHS, bs);
  }

  lemma HeaderBytes(bs: seq<byte>)
    requires |bs| == HEADER_SIZE
    ensures EncodeHeader(DecodeHeader(bs)) == bs
  {
    hide EncodeFields, DecodeFields, Width;
    Widths();
    RecordRoundTrip(ID_WIDTHS, bs[..8]);
    RecordRoundTrip(TIME_WIDTHS, bs[8..40]);
    RecordRoundTrip(ADDRESS_WIDTHS, bs[40..52]);
    RecordRoundTrip(SIZE_WIDTHS, bs[52..56]);
    FromLittleRoundTrip(bs[64..68]);
    var h := DecodeHeader(bs);
    assert Ids(h) == DecodeFields(ID_WIDTHS, bs[..8]) && Times(h) == DecodeFields(TIME_WIDTHS, bs[8..40]);
    assert Addresses(h) == DecodeFields(ADDRESS_WIDTHS, bs[40..52]);
    assert Sizes(h) == DecodeFields(SIZE_WIDTHS, bs[52..56]);
    assert bs == bs[..8] + bs[8..40] + bs[40..52] + bs[52..56] + bs[56..64] + bs[64..68] + bs[68..72];
  }

  function Encode(m: Message): (bs: seq<byte>)
    ensures |bs| == MARK_SIZE + HEADER_SIZE + |m.body|
  {
    EncodeMark(m.mark) + EncodeHeader(m.header) + m.body
  }

  /** The mark comes first, then the header, then the body. */
  lemma MessageLayout(m: Message)
    ensures Encode(m)[..16] == EncodeMark(m.mark)
    ensures Encode(m)[16..88] == EncodeHeader(m.header)
    ensures Encode(m)[88..] == m.body
  {
    hide EncodeMark, EncodeHeader;
  }

  /** A message whose mark tells the truth about its header and its body. */
  ghost predicate Framed(m: Message) {
    m.mark.headerLen == HEADER_SIZE && m.mark.dataLen == |m.body|
  }

  datatype Received = Got(message: Message, rest: seq<byte>) | Failed

  /** The next message of a stream, before its arrival is stamped; the signature is not looked at. */
  function Receive(stream: seq<byte>): Received {
    if |stream| < MARK_SIZE then Failed
    else
      var mark := DecodeMark(stream[..16]);
      if mark.headerLen != HEADER_SIZE then Failed
      else if |stream| < MARK_SIZE + HEADER_SIZE + mark.dataLen then Failed
      else Got(Message(mark, DecodeHeader(stream[16..88]), stream[88..88 + mark.dataLen]),
               stream[88 + mark.dataLen..])
  }

  /** A stream in four parts. */
  lemma ReceiveParts(mark: seq<byte>, header: seq<byte>, body: seq<byte>, rest: seq<byte>)
    requires |mark| == MARK_SIZE && |header| == HEADER_SIZE
    requires DecodeMark(mark).headerLen == HEADER_SIZE && DecodeMark(mark).dataLen == |body|
    ensures Receive(mark + header + body + rest) ==
            Got(Message(DecodeMark(mark), DecodeHeader(header), body), rest)
  {
    hide DecodeMark, DecodeHeader;
    var stream := mark + header + body + rest;
    assert stream[..16] == mark && stream[16..88] == header;
    assert stream[88..88 + |body|] == body && stream[88 + |body|..] == rest;
  }

  /** A stream that breaks off in the mark, in the header or in the body, or whose mark gives another length. */
  lemma ReceiveFails(stream: seq<byte>, mark: seq<byte>)
    ensures |stream| < MARK_SIZE ==> Receive(stream) == Failed
    ensures |mark| == MARK_SIZE && mark <= stream &&
            (DecodeMark(mark).headerLen != HEADER_SIZE || |stream| < MARK_SIZE + HEADER_SIZE + DecodeMark(mark).dataLen)
            ==> Receive(stream) == Failed
  {
    hide DecodeMark, DecodeHeader;
    if |mark| == MARK_SIZE && mark <= stream {
      assert stream[..16] == mark;
    }
  }

  /** A sent message arrives, and exactly its bytes are consumed. */
  lemma ReceiveEncoded(m: Message, rest: seq<byte>)
    requires Framed(m)
    ensures Receive(Encode(m) + rest) == Got(m, rest)
  {
    hide EncodeMark, DecodeMark, EncodeHeader, DecodeHeader;
    var stream := Encode(m) + rest;
    MarkRoundTrip(m.mark);
    HeaderRoundTrip(m.header);
    assert stream[..16] == EncodeMark(m.mark);
    assert stream[16..88] == EncodeHeader(m.header);
    assert stream[88..88 + |m.body|] == m.body;
    assert stream[88 + |m.body|..] == rest;
  }

  /** A received message is what its bytes encode, so nothing is invented or skipped. */
  lemma ReceivedEncodes(stream: seq<byte>)
    requires Receive(stream).Got?
    ensures Framed(Receive(stream).message)
    ensures stream == Encode(Receive(stream).message) + Receive(stream).rest
  {
    hide EncodeMark, DecodeMark, EncodeHeader, DecodeHeader;
    MarkBytes(stream[..16]);
    HeaderBytes(stream[16..88]);
    var n := DecodeMark(stream[..16]).dataLen;
    assert stream == stream[..16] + stream[16..88] + stream[88..88 + n] + stream[88 + n..];
  }

  function EncodeAll(ms: seq<Message>): (bs: seq<byte>) {
    if |ms| == 0 then [] else Encode(ms[0]) + EncodeAll(ms[1..])
  }

  /** Up to `k` messages from the front of a stream, and what is left. */
  function ReceiveMany(stream: seq<byte>, k: nat): (seq<Message>, seq<byte>) {
    if k == 0 then ([], stream)
    else match Receive(stream)
      case Failed => ([], stream)
      case Got(m, rest) => var (ms, left) := ReceiveMany(rest, k - 1); ([m] + ms, left)
  }

  lemma {:induction false} ReceiveAllEncoded(ms: seq<Message>, rest: seq<byte>)
    requires forall i :: 0 <= i < |ms| ==> Framed(ms[i])
    ensures ReceiveMany(EncodeAll(ms) + rest, |ms|) == (ms, rest)
  {
    hide Encode, Receive;
    if |ms| == 0 {
      assert EncodeAll(ms) + rest == rest;
    } else {
      ReceiveAllEncoded(ms[1..], rest);
      ReceiveEncoded(ms[0], EncodeAll(ms[1..]) + rest);
      assert EncodeAll(ms) + rest == Encode(ms[0]) + (EncodeAll(ms[1..]) + rest);
      assert ms == [ms[0]] + ms[1..];
    }
  }

  lemma NothingEncoded()
    ensures EncodeAll([]) == []
  {
  }

  lemma {:induction false} EncodeSnoc(ms: seq<Message>, m: Message)
    ensures EncodeAll(ms + [m]) == EncodeAll(ms) + Encode(m)
  {
    hide Encode;
    if |ms| == 0 {
      assert ms + [m] == [m] && [m][1..] == [];
      assert EncodeAll([m]) == Encode(m) + EncodeAll([]);
    } else {
      EncodeSnoc(ms[1..], m);
      assert (ms + [m])[1..] == ms[1..] + [m];
    }
  }
}
