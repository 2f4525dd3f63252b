/**
 Netlink attributes and the NFQUEUE packet message, written by `PushNla`/`BuildNetlinkMsg` and read by
 `ParseNetfilterMessage`. Header fields are in the host's byte order, which is a parameter here.
 */
module Netlink {
  import opened Wire

  datatype Order = Little | Big
  datatype Attr = Attr(ntype: U16, data: Bytes)
  datatype QueuedPacket = QueuedPacket(
    packetId: U32, indev: Option<U32>, outdev: Option<U32>, payload: Option<Bytes>, capLen: Option<U32>)
  datatype Message = PacketMessage(packet: QueuedPacket) | Other

  const MAX_DATA := 65531
  const PACKET_HDR: U16 := 1
  const IFINDEX_INDEV: U16 := 5
  const IFINDEX_OUTDEV: U16 := 6
  const PAYLOAD: U16 := 10
  const CAP_LEN: U16 := 13
  const SUBSYS_QUEUE := 3
  const MSG_PACKET: Byte := 0
  const NLM_F_REQUEST := 1
  const NO_PACKET := QueuedPacket(0, None, None, None, None)

  // ---- Host-order numbers ----

  function Ne16(e: Order, n: U16): (b: Bytes)
    ensures |b| == 2 && FromNe16(e, b[0], b[1]) == n
  {
    var b := Be16(n);
    if e.Big? then b else [b[1], b[0]]
  }

  function FromNe16(e: Order, a: Byte, b: Byte): U16
  {
    if e.Big? then FromBe16(a, b) else FromBe16(b, a)
  }

  function Ne32(e: Order, n: U32): (b: Bytes)
    ensures |b| == 4 && FromNe32(e, b[0], b[1], b[2], b[3]) == n
  {
    var b := Be32(n);
    if e.Big? then b else [b[3], b[2], b[1], b[0]]
  }

  function FromNe32(e: Order, a: Byte, b: Byte, c: Byte, d: Byte): U32
  {
    if e.Big? then FromBe32(a, b, c, d) else FromBe32(d, c, b, a)
  }

  function Align4(n: nat): (r: nat)
    ensures n <= r < n + 4 && r % 4 == 0
  {
    (n + 3) / 4 * 4
  }

  // ---- Attributes ----

  function Zeros(n: nat): (z: Bytes)
    ensures |z| == n
  {
    seq(n, _ => 0)
  }

  /** One attribute: length cast to 16 bits, type, data, and padding to a multiple of four. */
  function PutAttr(e: Order, a: Attr): (b: Bytes)
    ensures |b| == Align4(4 + |a.data|)
  {
    Ne16(e, Low16(4 + |a.data|)) + Ne16(e, a.ntype) + a.data + Zeros(Align4(4 + |a.data|) - 4 - |a.data|)
  }

  function PutAttrs(e: Order, attrs: seq<Attr>): (b: Bytes)
    ensures |b| % 4 == 0
  {
    if |attrs| == 0 then [] else PutAttr(e, attrs[0]) + PutAttrs(e, attrs[1..])
  }

  /** The attributes the parser visits, in order, on arbitrary bytes. */
  function Visited(e: Order, bs: Bytes): (attrs: seq<Attr>)
    ensures forall a <- attrs :: |a.data| <= MAX_DATA
    decreases |bs|
  {
    if |bs| < 4 then []
    else
      var len := FromNe16(e, bs[0], bs[1]);
      if len < 4 || len > |bs| then []
      else
        var next := Align4(len);
        [Attr(FromNe16(e, bs[2], bs[3]), bs[4..len])] + Visited(e, if next <= |bs| then bs[next..] else [])
  }

  method PushNla(e: Order, buf: Bytes, ntype: U16, data: Bytes) returns (out: Bytes)
    ensures |buf| % 4 == 0 ==> out == buf + PutAttr(e, Attr(ntype, data))
    ensures |out| % 4 == 0 && buf <= out
  {
    hide Ne16, Low16, Align4, Zeros;
    var len := Low16(|data| + 4);
    out := buf + Ne16(e, len);
    out := out + Ne16(e, ntype);
    out := out + data;
    ghost var base := out;
    ghost var n := 0;
    assert base + Zeros(0) == base;
    while |out| % 4 != 0
      invariant out == base + Zeros(n) && |out| <= Align4(|base|)
      decreases Align4(|base|) - |out|
    {
      OneMoreZero(n);
      assert base + Zeros(n + 1) == out + [0];
      out := out + [0];
      n := n + 1;
    }
    assert |base| == |buf| + 4 + |data| && |out| == Align4(|base|);
    if |buf| % 4 == 0 {
      AlignAfter(|buf|, 4 + |data|);
      assert out == buf + (Ne16(e, len) + Ne16(e, ntype) + data + Zeros(n));
    }
  }

  lemma OneMoreZero(n: nat)
    ensures Zeros(n + 1) == Zeros(n) + [0]
  {
  }

  lemma AlignAfter(m: nat, n: nat)
    requires m % 4 == 0
    ensures Align4(m + n) == m + Align4(n)
  {
  }

  lemma AttrReads(e: Order, a: Attr, rest: Bytes)
    requires |a.data| <= MAX_DATA
    ensures Visited(e, PutAttr(e, a) + rest) == [a] + Visited(e, rest)
  {
    hide Ne16, FromNe16, Align4, Zeros, Low16;
    var bs := PutAttr(e, a) + rest;
    var len := 4 + |a.data|;
    assert bs[0..2] == Ne16(e, len) && bs[2..4] == Ne16(e, a.ntype) && bs[4..len] == a.data;
    assert bs[0] == Ne16(e, len)[0] && bs[1] == Ne16(e, len)[1];
    assert bs[2] == Ne16(e, a.ntype)[0] && bs[3] == Ne16(e, a.ntype)[1];
    assert bs[Align4(len)..] == rest;
  }

  /** Written attributes are visited exactly, in order, as long as each fits its 16-bit length; otherwise not. */
  lemma {:induction false} AttrsRoundTrip(e: Order, attrs: seq<Attr>)
    ensures Visited(e, PutAttrs(e, attrs)) == attrs <==> forall a <- attrs :: |a.data| <= MAX_DATA
  {
    hide PutAttr;
    if (forall a <- attrs :: |a.data| <= MAX_DATA) && |attrs| > 0 {
      assert attrs[0] in attrs;
      AttrReads(e, attrs[0], PutAttrs(e, attrs[1..]));
      AttrsRoundTrip(e, attrs[1..]);
    }
  }

  // ---- The packet message ----

  /** What one attribute contributes to the packet. */
  function Take(e: Order, p: QueuedPacket, a: Attr): QueuedPacket
  {
    var d := a.data;
    if a.ntype == PAYLOAD then p.(payload := Some(d))
    else if |d| < 4 then p
    else if a.ntype == PACKET_HDR then p.(packetId := FromBe32(d[0], d[1], d[2], d[3]))
    else if a.ntype == IFINDEX_INDEV then p.(indev := Some(FromNe32(e, d[0], d[1], d[2], d[3])))
    else if a.ntype == IFINDEX_OUTDEV then p.(outdev := Some(FromNe32(e, d[0], d[1], d[2], d[3])))
    else if a.ntype == CAP_LEN then p.(capLen := Some(FromNe32(e, d[0], d[1], d[2], d[3])))
    else p
  }

  function TakeAll(e: Order, p: QueuedPacket, attrs: seq<Attr>): QueuedPacket
    decreases attrs
  {
    if |attrs| == 0 then p else TakeAll(e, Take(e, p, attrs[0]), attrs[1..])
  }

  /** The data of the last attribute of a type that is long enough to be used. */
  function LastData(attrs: seq<Attr>, ntype: U16, least: nat): (d: Option<Bytes>)
    ensures d.Some? ==> |d.value| >= least
  {
    if |attrs| == 0 then None
    else
      var a := attrs[|attrs| - 1];
      if a.ntype == ntype && |a.data| >= least then Some(a.data) else LastData(attrs[..|attrs| - 1], ntype, least)
  }

  function NeField(e: Order, d: Option<Bytes>): Option<U32>
    requires d.Some? ==> |d.value| >= 4
  {
    if d.None? then None else Some(FromNe32(e, d.value[0], d.value[1], d.value[2], d.value[3]))
  }

  /** The packet that a list of attributes describes: in every field the last usable attribute counts. */
  function PacketOf(e: Order, attrs: seq<Attr>): QueuedPacket
  {
    var id := LastData(attrs, PACKET_HDR, 4);
    QueuedPacket(
      if id.None? then 0 else FromBe32(id.value[0], id.value[1], id.value[2], id.value[3]),
      NeField(e, LastData(attrs, IFINDEX_INDEV, 4)), NeField(e, LastData(attrs, IFINDEX_OUTDEV, 4)),
      LastData(attrs, PAYLOAD, 0), NeField(e, LastData(attrs, CAP_LEN, 4)))
  }

  lemma {:induction false} TakeAllSnoc(e: Order, p: QueuedPacket, attrs: seq<Attr>, a: Attr)
    ensures TakeAll(e, p, attrs + [a]) == Take(e, TakeAll(e, p, attrs), a)
    decreases attrs
  {
    hide Take;
    if |attrs| == 0 {
      assert attrs + [a] == [a];
      assert [a][1..] == [];
    } else {
      TakeAllSnoc(e, Take(e, p, attrs[0]), attrs[1..], a);
      assert (attrs + [a])[1..] == attrs[1..] + [a];
    }
  }

  lemma {:induction false} LastWins(e: Order, attrs: seq<Attr>)
    ensures TakeAll(e, NO_PACKET, attrs) == PacketOf(e, attrs)
  {
    if |attrs| > 0 {
      var n := |attrs| - 1;
      LastWins(e, attrs[..n]);
      TakeAllSnoc(e, NO_PACKET, attrs[..n], attrs[n]);
      assert attrs == attrs[..n] + [attrs[n]];
    }
  }

  function BodyOf(attrs: Bytes, queue: U16): Bytes
  {
    [0, 0] + Be16(queue) + attrs
  }

  function NetlinkHead(e: Order, total: U32, mtype: Byte): (h: Bytes)
    ensures |h| == 16
  {
    Ne32(e, total) + Ne16(e, 256 * SUBSYS_QUEUE + mtype) + Ne16(e, NLM_F_REQUEST) + Ne32(e, 0) + Ne32(e, 0)
  }

  method BuildNetlinkMsg(e: Order, mtype: Byte, attrs: Bytes, queue: U16) returns (msg: Bytes)
    ensures msg == NetlinkHead(e, Low32(20 + |attrs|), mtype) + BodyOf(attrs, queue)
  {
    hide Ne16, Ne32, Be16, Low32;
    var payload: Bytes := [0];
    payload := payload + [0];
    payload := payload + Be16(queue);
    payload := payload + attrs;
    assert payload == BodyOf(attrs, queue);
    var innerType := 256 * SUBSYS_QUEUE + mtype;
    var total := Low32(16 + |payload|);
    msg := Ne32(e, total);
    msg := msg + Ne16(e, innerType);
    msg := msg + Ne16(e, NLM_F_REQUEST);
    msg := msg + Ne32(e, 0);
    msg := msg + Ne32(e, 0);
    msg := msg + payload;
  }

  function ParseMessage(e: Order, buf: Bytes): Message
  {
    if |buf| < 16 then Other
    else
      var length := FromNe32(e, buf[0], buf[1], buf[2], buf[3]);
      if length < 16 || length > |buf| || length < 20 || FromNe16(e, buf[4], buf[5]) % 256 != MSG_PACKET then Other
      else PacketMessage(TakeAll(e, NO_PACKET, Visited(e, buf[20..length])))
  }

  method ParseNetfilterMessage(e: Order, buf: Bytes) returns (m: Message)
    ensures m == ParseMessage(e, buf)
  {
    hide FromNe16, FromNe32, TakeAll, Visited;
    if |buf| < 16 {
      return Other;
    }
    var length := FromNe32(e, buf[0], buf[1], buf[2], buf[3]);
    var mtype := FromNe16(e, buf[4], buf[5]);
    if length < 16 || length > |buf| {
      return Other;
    }
    var body := buf[16..length];
    if |body| < 4 {
      return Other;
    }
    if mtype % 256 != MSG_PACKET {
      return Other;
    }
    var attrs := body[4..];
    assert attrs == buf[20..length];
    var packet := ScanAttrs(e, attrs);
    m := PacketMessage(packet);
  }

  /** The attribute loop of the parser. */
  method ScanAttrs(e: Order, attrs: Bytes) returns (packet: QueuedPacket)
    ensures packet == TakeAll(e, NO_PACKET, Visited(e, attrs))
  {
    hide FromNe16, FromNe32, Take, TakeAll, Visited, Align4;
    packet := NO_PACKET;
    var pos: nat := 0;
    assert attrs[0..] == attrs;
    while pos + 4 <= |attrs|
      invariant TakeAll(e, packet, Visited(e, if pos <= |attrs| then attrs[pos..] else []))
             == TakeAll(e, NO_PACKET, Visited(e, attrs))
    {
      var len := FromNe16(e, attrs[pos], attrs[pos + 1]);
      var ntype := FromNe16(e, attrs[pos + 2], attrs[pos + 3]);
      if len < 4 || pos + len > |attrs| {
        VisitStop(e, attrs, pos, packet);
        return;
      }
      var data := attrs[pos + 4..pos + len];
      VisitStep(e, attrs, pos, packet);
      packet := Take(e, packet, Attr(ntype, data));
      pos := pos + Align4(len);
    }
    VisitStop(e, attrs, pos, packet);
  }

  lemma VisitStop(e: Order, attrs: Bytes, pos: nat, packet: QueuedPacket)
    requires pos + 4 <= |attrs| ==>
      var len := FromNe16(e, attrs[pos], attrs[pos + 1]); len < 4 || pos + len > |attrs|
    ensures TakeAll(e, packet, Visited(e, if pos <= |attrs| then attrs[pos..] else [])) == packet
  {
    hide FromNe16, Align4, Take;
  }

  lemma VisitStep(e: Order, attrs: Bytes, pos: nat, packet: QueuedPacket)
    requires pos + 4 <= |attrs|
    requires var len := FromNe16(e, attrs[pos], attrs[pos + 1]); 4 <= len && pos + len <= |attrs|
    ensures
      var len := FromNe16(e, attrs[pos], attrs[pos + 1]);
      var next := pos + Align4(len);
      var rest := Visited(e, if next <= |attrs| then attrs[next..] else []);
      var a := Attr(FromNe16(e, attrs[pos + 2], attrs[pos + 3]), attrs[pos + 4..pos + len]);
      TakeAll(e, packet, Visited(e, attrs[pos..])) == TakeAll(e, Take(e, packet, a), rest)
  {
    hide FromNe16, Align4, Take, TakeAll;
    var bs := attrs[pos..];
    assert bs[0] == attrs[pos] && bs[1] == attrs[pos + 1] && bs[2] == attrs[pos + 2] && bs[3] == attrs[pos + 3];
    var len := FromNe16(e, bs[0], bs[1]);
    assert bs[4..len] == attrs[pos + 4..pos + len];
    var next := pos + Align4(len);
    if next <= |attrs| {
      assert bs[Align4(len)..] == attrs[next..];
    }
    TakeFirst(e, packet, Attr(FromNe16(e, bs[2], bs[3]), bs[4..len]),
              Visited(e, if next <= |attrs| then attrs[next..] else []));
  }

  lemma TakeFirst(e: Order, packet: QueuedPacket, a: Attr, rest: seq<Attr>)
    ensures TakeAll(e, packet, [a] + rest) == TakeAll(e, Take(e, packet, a), rest)
  {
    hide Take;
    assert ([a] + rest)[1..] == rest;
  }

  /** A packet message built from attributes is parsed back to the packet those attributes describe. */
  lemma PacketRoundTrip(e: Order, attrs: seq<Attr>, queue: U16)
    requires (forall a <- attrs :: |a.data| <= MAX_DATA) && 20 + |PutAttrs(e, attrs)| < TWO_32
    ensures
      var body := PutAttrs(e, attrs);
      ParseMessage(e, NetlinkHead(e, Low32(20 + |body|), MSG_PACKET) + BodyOf(body, queue))
      == PacketMessage(PacketOf(e, attrs))
  {
    hide PutAttrs, Visited, TakeAll, PacketOf, Low32, FromNe32, FromNe16, NetlinkHead;
    var body := PutAttrs(e, attrs);
    var total := 20 + |body|;
    var head := NetlinkHead(e, total, MSG_PACKET);
    var msg := head + BodyOf(body, queue);
    HeadReads(e, total, MSG_PACKET);
    assert msg[20..total] == body;
    assert forall i | 0 <= i < 16 :: msg[i] == head[i];
    AttrsRoundTrip(e, attrs);
    LastWins(e, attrs);
  }

  lemma HeadReads(e: Order, total: U32, mtype: Byte)
    ensures
      var h := NetlinkHead(e, total, mtype);
      && FromNe32(e, h[0], h[1], h[2], h[3]) == total && FromNe16(e, h[4], h[5]) == 256 * SUBSYS_QUEUE + mtype
  {
    hide Ne32, Ne16, FromNe32, FromNe16;
  }
}
