/** One end of a connection: reads that return as little as they like, and the two senders and receivers. */
module Connections {
  import opened Options
  import opened Bytes
  import opened Logarithms
  import opened Framing

  /** strncpy(dest, name, 8) of a C string: cut at eight characters, or padded with zeros. */
  function CopyName(name: seq<byte>): Name {
    if |name| >= 8 then name[..8] else name + seq(8 - |name|, _ => 0)
  }

  /** The length logarithm of a message with a body of `n` bytes: ilog2 takes a 32-bit argument, and the
      bit-scan instruction leaves its destination alone, here `undefined`, when that argument is zero. */
  function LengthLog(n: nat, undefined: u8): u8 {
    var x := (n + MARK_SIZE + HEADER_SIZE) % 0x1_0000_0000;
    if x == 0 then undefined
    else
      BitScanSmall(x);
      BitScan(x)
  }

  /** The logarithm is that of the whole message's length, or of the part of it that fits 32 bits. */
  lemma LengthLogIs(m: Message, undefined: u8)
    ensures var n := |Encode(m)| % 0x1_0000_0000;
            && (n == 0 ==> LengthLog(|m.body|, undefined) == undefined)
            && (n > 0 ==> Pow2(LengthLog(|m.body|, undefined)) <= n < Pow2(LengthLog(|m.body|, undefined) + 1))
  {
    hide EncodeMark, EncodeHeader, Pow2;
  }

  /** The response to a request: its header, but for the send time, the length, the type and the status. */
  function Response(request: Message, body: seq<byte>, status: u32, time: u64, undefined: u8): Message {
    Message(request.mark.(dataLen := |body| % 0x1_0000_0000),
            request.header.(resSendTime := time, resLenLog := LengthLog(|body|, undefined),
                            messageType := RESPONSE, status := status),
            body)
  }

  /** A request as it is received: with T2. */
  function Stamped(m: Message, time: u64): Message {
    m.(header := m.header.(reqRecvTime := time))
  }

  /** Fields that rpc_send_req leaves as the stack had them. */
  datatype Stack = Stack(checksum: u32, resLenLog: u8, pad: Pad)

  /** The counter from which request ids are taken. */
  class RpcIds {
    var next: u32

    constructor ()
      ensures next == 1
    {
      next := 1;
    }

    method Take() returns (id: u32)
      modifies this
      ensures id == old(next) && next == (old(next) + 1) % 0x1_0000_0000
    {
      id := next;
      next := (next + 1) % 0x1_0000_0000;
    }
  }

  /** `s` is what is left of `t` after some bytes were read. */
  ghost predicate Suffix(s: seq<byte>, t: seq<byte>) {
    |s| <= |t| && s == t[|t| - |s|..]
  }

  lemma SuffixOfSuffix(s: seq<byte>, t: seq<byte>, u: seq<byte>)
    requires Suffix(s, t) && Suffix(t, u)
    ensures Suffix(s, u)
  {
  }

  class Connection {
    /** Bytes sent to us and not yet read, and bytes we have written. */
    var incoming: seq<byte>
    var outgoing: seq<byte>

    /** The clock: how often it was asked, and what it answers each time. */
    var ticks: nat
    const timeAt: nat -> u64

    /** Whether reads fail only at the end of the stream, and whether writes take all they are given. */
    const reliable: bool
    const complete: bool

    const undefined: u8
    const clientIp: u32
    const serverIp: u32
    const clientPort: u16
    const serverPort: u16

    constructor (stream: seq<byte>, timeAt: nat -> u64, reliable: bool, complete: bool, undefined: u8)
      ensures incoming == stream && outgoing == [] && ticks == 0
      ensures this.timeAt == timeAt && this.undefined == undefined
      ensures this.reliable == reliable && this.complete == complete
    {
      incoming, outgoing, ticks := stream, [], 0;
      this.timeAt, this.undefined := timeAt, undefined;
      this.reliable, this.complete := reliable, complete;
      clientIp, serverIp, clientPort, serverPort := *, *, *, *;
    }

    /** `read`: some of the bytes that are there, at most `n`; zero at the end, or a failure. */
    method Read(n: nat) returns (ret: int, got: seq<byte>)
      requires n > 0
      modifies this`incoming
      ensures ret > 0 ==> ret <= n && ret == |got| && old(incoming) == got + incoming
      ensures ret <= 0 ==> incoming == old(incoming)
      ensures reliable && |old(incoming)| > 0 ==> ret > 0
    {
      var fails: bool := *;
      if |incoming| == 0 {
        return 0, [];
      }
      if !reliable && fails {
        return -1, [];
      }
      ret :| 1 <= ret <= n && ret <= |incoming|;
      got := incoming[..ret];
      incoming := incoming[ret..];
    }

    /** `write`: the first `ret` bytes are taken, or none when it fails. */
    method Write(bs: seq<byte>) returns (ret: int)
      modifies this`outgoing
      ensures ret <= |bs| && outgoing == old(outgoing) + bs[..if ret < 0 then 0 else ret]
      ensures complete ==> ret == |bs|
    {
      ret := |bs|;
      if !complete {
        ret :| -1 <= ret <= |bs|;
      }
      outgoing := outgoing + bs[..if ret < 0 then 0 else ret];
    }

    /** What was written since `before` is `bytes`, or where writes fall short a part of it. */
    ghost predicate Wrote(before: seq<byte>, bytes: seq<byte>)
      reads this
    {
      && (exists n: nat :: n <= |bytes| && outgoing == before + bytes[..n])
      && (complete ==> outgoing == before + bytes)
    }

    /** A message in two writes: the mark and the header, and if they were taken whole the body. */
    method WriteMessage(message: Message) returns (ok: bool)
      modifies this`outgoing
      ensures Wrote(old(outgoing), Encode(message)) && (complete ==> ok)
      ensures ok ==> outgoing == old(outgoing) + Encode(message)
    {
      hide EncodeMark, EncodeHeader;
      var head := EncodeMark(message.mark) + EncodeHeader(message.header);
      var bytes := head + message.body;
      var written := Write(head);
      if written != |head| {
        assert bytes[..if written < 0 then 0 else written] == head[..if written < 0 then 0 else written];
        return false;
      }
      assert bytes[..|head|] == head;
      written := Write(message.body);
      ghost var n := if written < 0 then 0 else written;
      assert bytes[..|head| + n] == head + message.body[..n];
      assert bytes[..|bytes|] == bytes;
      ok := written == |message.body|;
    }

    /** However `read` splits the stream, the buffer ends up with its next bytes, or there were too few. */
    method Readn(buf: array<byte>) returns (ok: bool)
      modifies this`incoming, buf
      ensures ok ==> old(incoming) == buf[..] + incoming
      ensures !ok ==> Suffix(incoming, old(incoming))
      ensures reliable ==> (ok <==> buf.Length <= |old(incoming)|)
      ensures reliable && !ok ==> incoming == []
    {
      var nBytes: nat := buf.Length;
      var at: nat := 0;
      while nBytes > 0
        invariant at + nBytes == buf.Length
        invariant old(incoming) == buf[..at] + incoming
        decreases nBytes
      {
        var ret, got := Read(nBytes);
        if ret <= 0 {
          return false;
        }
        ghost var before := buf[..at];
        forall i | 0 <= i < ret {
          buf[at + i] := got[i];
        }
        assert buf[..at + ret] == before + got;
        nBytes := nBytes - ret;
        at := at + ret;
      }
      assert buf[..at] == buf[..];
      ok := true;
    }

    /** The mark, the header and the body that both receivers read. */
    method ReadMessage() returns (r: Option<Message>)
      modifies this`incoming
      ensures r.Some? ==> Receive(old(incoming)) == Got(r.value, incoming)
      ensures reliable ==> (r.Some? <==> Receive(old(incoming)).Got?)
      ensures Suffix(incoming, old(incoming))
    {
      hide DecodeMark, DecodeHeader, Receive;
      ghost var stream := incoming;
      var markBytes := new byte[MARK_SIZE];
      var ok := Readn(markBytes);
      ReceiveFails(stream, markBytes[..]);
      if !ok {
        return None;
      }
      var mark := DecodeMark(markBytes[..]);
      ghost var afterMark := incoming;
      if mark.headerLen != HEADER_SIZE {
        return None;
      }
      var headerBytes := new byte[HEADER_SIZE];
      ok := Readn(headerBytes);
      if !ok {
        SuffixOfSuffix(incoming, afterMark, stream);
        return None;
      }
      ghost var afterHeader := incoming;
      assert stream == markBytes[..] + headerBytes[..] + afterHeader;
      var header := DecodeHeader(headerBytes[..]);
      var body := new byte[mark.dataLen];
      ok := Readn(body);
      if !ok {
        SuffixOfSuffix(incoming, afterHeader, stream);
        return None;
      }
      assert stream == markBytes[..] + headerBytes[..] + body[..] + incoming;
      ReceiveParts(markBytes[..], headerBytes[..], body[..], incoming);
      r := Some(Message(mark, header, body[..]));
    }

    method RecvReq() returns (r: Option<Message>)
      modifies this`incoming, this`ticks
      ensures r.Some? ==>
                exists m :: Receive(old(incoming)) == Got(m, incoming) && ticks == old(ticks) + 1 &&
                  r.value == Stamped(m, timeAt(old(ticks)))
      ensures r == None ==> ticks == old(ticks) && Suffix(incoming, old(incoming))
      ensures reliable ==> (r.Some? <==> Receive(old(incoming)).Got?)
    {
      r := ReadMessage();
      if r.Some? {
        var m := r.value;
        r := Some(Stamped(m, timeAt(ticks)));
        ticks := ticks + 1;
      }
    }

    method RecvResp() returns (r: Option<Message>)
      modifies this`incoming, this`ticks
      ensures r.Some? ==>
                exists m :: Receive(old(incoming)) == Got(m, incoming) && ticks == old(ticks) + 1 &&
                  r.value == m.(header := m.header.(resRecvTime := timeAt(old(ticks))))
      ensures r == None ==> ticks == old(ticks) && Suffix(incoming, old(incoming))
      ensures reliable ==> (r.Some? <==> Receive(old(incoming)).Got?)
    {
      r := ReadMessage();
      if r.Some? {
        var m := r.value;
        r := Some(m.(header := m.header.(resRecvTime := timeAt(ticks))));
        ticks := ticks + 1;
      }
    }

    /** The request that SendReq writes. */
    function Request(id: u32, parent: u32, name: seq<byte>, body: seq<byte>, time: u64, stack: Stack): Message {
      Message(Mark(MARK_SIGNATURE, HEADER_SIZE, |body| % 0x1_0000_0000, stack.checksum),
              Header(id, parent, time, 0, 0, 0, clientIp, serverIp, clientPort, serverPort,
                     LengthLog(|body|, undefined), stack.resLenLog, REQUEST, CopyName(name), OK, stack.pad),
              body)
    }

    method SendReq(ids: RpcIds, body: seq<byte>, parent: u32, name: seq<byte>, stack: Stack) returns (ok: bool)
      modifies this`outgoing, this`ticks, ids
      ensures ids.next == (old(ids.next) + 1) % 0x1_0000_0000 && ticks == old(ticks) + 1
      ensures var message := Request(old(ids.next), parent, name, body, timeAt(old(ticks)), stack);
              && Wrote(old(outgoing), Encode(message)) && (complete ==> ok)
              && (ok ==> outgoing == old(outgoing) + Encode(message))
    {
      hide Encode, LengthLog, CopyName;
      var id := ids.Take();
      var message := Request(id, parent, name, body, timeAt(ticks), stack);
      ticks := ticks + 1;
      ok := WriteMessage(message);
    }

    method SendResp(request: Message, body: seq<byte>, status: u32) returns (ok: bool)
      modifies this`outgoing, this`ticks
      ensures ticks == old(ticks) + 1
      ensures var message := Response(request, body, status, timeAt(old(ticks)), undefined);
              && Wrote(old(outgoing), Encode(message)) && (complete ==> ok)
              && (ok ==> outgoing == old(outgoing) + Encode(message))
    {
      hide Encode, Response;
      var message := Response(request, body, status, timeAt(ticks), undefined);
      ticks := ticks + 1;
      ok := WriteMessage(message);
    }
  }

  /** What one call of SendReq is given. */
  datatype Call = Call(body: seq<byte>, parent: u32, name: seq<byte>, stack: Stack)

  /** The requests that calls in a row send: the ids count on from `id` and wrap, the clock is asked once each. */
  ghost function Requests(client: Connection, calls: seq<Call>, id: u32, tick: nat): (ms: seq<Message>)
    ensures |ms| == |calls|
  {
    seq(|calls|, i requires 0 <= i < |calls| =>
      client.Request((id + i) % 0x1_0000_0000, calls[i].parent, calls[i].name, calls[i].body,
                     client.timeAt(tick + i), calls[i].stack))
  }

  /** Field by field, the message of one call: `id` is the number of its request, `sent` and `received` are
      T1 and T2. The name is cut at eight characters or padded with zeros. */
  ghost predicate Carries(m: Message, client: Connection, call: Call, id: nat, sent: u64, received: u64) {
    && m.body == call.body
    && m.mark.signature == 0xdeadbeef && m.mark.headerLen == 72
    && m.mark.dataLen == |call.body| % 0x1_0000_0000 && m.mark.checksum == call.stack.checksum
    && m.header.rpcId == id % 0x1_0000_0000 && m.header.parent == call.parent
    && m.header.reqSendTime == sent && m.header.reqRecvTime == received
    && m.header.resSendTime == 0 && m.header.resRecvTime == 0
    && m.header.clientIp == client.clientIp && m.header.serverIp == client.serverIp
    && m.header.clientPort == client.clientPort && m.header.serverPort == client.serverPort
    && m.header.resLenLog == call.stack.resLenLog && m.header.pad == call.stack.pad
    && m.header.messageType == 0 && m.header.status == 0
    && (forall k :: 0 <= k < 8 ==> m.header.name[k] == if k < |call.name| then call.name[k] else 0)
    && (|call.body| + 88 < 0x1_0000_0000 ==>
          Pow2(m.header.reqLenLog) <= |call.body| + 88 < Pow2(m.header.reqLenLog + 1))
  }

  lemma RequestFields(client: Connection, calls: seq<Call>, id: u32, tick: nat, i: nat)
    requires i < |calls|
    ensures Carries(Requests(client, calls, id, tick)[i], client, calls[i], id + i, client.timeAt(tick + i), 0)
  {
    hide LengthLog, EncodeMark, EncodeHeader, Pow2;
    LengthLogIs(Requests(client, calls, id, tick)[i], client.undefined);
  }

  lemma NextId(id: nat, i: nat)
    ensures ((id + i) % 0x1_0000_0000 + 1) % 0x1_0000_0000 == (id + i + 1) % 0x1_0000_0000
  {
  }

  method SendRequests(client: Connection, ids: RpcIds, calls: seq<Call>)
    requires client.complete
    modifies client`outgoing, client`ticks, ids
    ensures client.outgoing == old(client.outgoing) +
                               EncodeAll(Requests(client, calls, old(ids.next), old(client.ticks)))
    ensures ids.next == (old(ids.next) + |calls|) % 0x1_0000_0000 && client.ticks == old(client.ticks) + |calls|
  {
    hide Encode, EncodeAll, LengthLog, CopyName;
    ghost var id, tick := ids.next, client.ticks;
    ghost var ms := Requests(client, calls, id, tick);
    NothingEncoded();
    assert client.outgoing + [] == client.outgoing;
    for i := 0 to |calls|
      invariant client.outgoing == old(client.outgoing) + EncodeAll(ms[..i])
      invariant ids.next == (id + i) % 0x1_0000_0000 && client.ticks == tick + i
    {
      var ok := client.SendReq(ids, calls[i].body, calls[i].parent, calls[i].name, calls[i].stack);
      assert ms[..i + 1] == ms[..i] + [ms[i]];
      EncodeSnoc(ms[..i], ms[i]);
      NextId(id, i);
    }
    assert ms[..|calls|] == ms;
  }

  lemma NextOfAll(ms: seq<Message>, i: nat, later: seq<byte>)
    requires i < |ms| && Framed(ms[i])
    ensures Receive(EncodeAll(ms[i..]) + later) == Got(ms[i], EncodeAll(ms[i + 1..]) + later)
  {
    hide Encode, Receive;
    assert ms[i..][0] == ms[i] && ms[i..][1..] == ms[i + 1..];
    var rest := EncodeAll(ms[i + 1..]) + later;
    assert EncodeAll(ms[i..]) + later == Encode(ms[i]) + rest;
    ReceiveEncoded(ms[i], rest);
  }

  /** Up to `k` requests, as the messages they were but for T2; all of them unless a read fails. */
  method RecvRequests(server: Connection, k: nat, ghost ms: seq<Message>, ghost later: seq<byte>)
    returns (rs: seq<Message>)
    requires k == |ms| && server.incoming == EncodeAll(ms) + later
    requires forall i :: 0 <= i < |ms| ==> Framed(ms[i])
    modifies server`incoming, server`ticks
    ensures |rs| <= k
    ensures forall i: nat :: i < |rs| ==> rs[i] == Stamped(ms[i], server.timeAt(old(server.ticks) + i))
    ensures server.reliable ==> |rs| == k
    ensures |rs| == k ==> server.incoming == later
  {
    hide Encode, EncodeAll, Receive, Framed;
    rs := [];
    ghost var tick := server.ticks;
    assert ms[0..] == ms;
    while |rs| < k
      invariant |rs| <= k && server.incoming == EncodeAll(ms[|rs|..]) + later && server.ticks == tick + |rs|
      invariant forall i: nat :: i < |rs| ==> rs[i] == Stamped(ms[i], server.timeAt(tick + i))
      decreases k - |rs|
    {
      NextOfAll(ms, |rs|, later);
      var r := server.RecvReq();
      if r.None? {
        return;
      }
      rs := rs + [r.value];
    }
    assert ms[k..] == [];
    NothingEncoded();
    assert [] + later == later;
  }

  /** Requests sent one after the other and read in any pieces arrive as they were sent but for T2, under
      consecutive ids; what follows them stays unread. */
  method RequestsRoundTrip(client: Connection, server: Connection, ids: RpcIds, calls: seq<Call>, later: seq<byte>)
    returns (rs: seq<Message>)
    requires client != server && client.outgoing == [] && client.complete && server.reliable
    requires forall i :: 0 <= i < |calls| ==> |calls[i].body| < 0x1_0000_0000
    modifies client, server, ids
    ensures |rs| == |calls| && server.incoming == later
    ensures forall i: nat :: i < |rs| ==>
              Carries(rs[i], client, calls[i], old(ids.next) + i, client.timeAt(old(client.ticks) + i),
                      server.timeAt(old(server.ticks) + i))
    ensures forall i: nat :: i < |rs| ==>
              rs[i].(header := rs[i].header.(reqRecvTime := 0)) ==
                 Requests(client, calls, old(ids.next), old(client.ticks))[i]
  {
    hide Encode, EncodeAll, LengthLog, CopyName, Pow2;
    ghost var ms := Requests(client, calls, ids.next, client.ticks);
    forall i: nat | i < |calls|
      ensures Carries(ms[i], client, calls[i], ids.next + i, client.timeAt(client.ticks + i), 0) {
      RequestFields(client, calls, ids.next, client.ticks, i);
    }
    SendRequests(client, ids, calls);
    server.incoming := client.outgoing + later;
    rs := RecvRequests(server, |calls|, ms, later);
  }
}
