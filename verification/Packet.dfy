/**
 IPv4/TCP packets as the bypass engine sees them: parsing, and the two in-place option rewrites.
 The options are read as a list, so that `StripOption` and `SetMss` can be stated as a filter and an
 update of that list while the rest of the packet stays as it was.
 */
module Packet {
  import opened Wire

  // ---- Layout ----

  datatype Layout = Layout(ipLen: nat, totalLen: U16, tcpLen: nat)

  function Parse(raw: Bytes): (r: Option<Layout>)
    ensures r.Some? ==> 20 <= r.value.ipLen <= 60 && 20 <= r.value.tcpLen <= 60
    ensures r.Some? ==> r.value.ipLen + r.value.tcpLen <= |raw| && r.value.tcpLen % 4 == 0
    ensures r.Some? ==> r.value.ipLen <= r.value.totalLen <= |raw|
  {
    if |raw| < 20 || raw[0] / 16 != 4 then None
    else
      var ipLen := raw[0] % 16 * 4;
      if ipLen < 20 || |raw| < ipLen || raw[9] != 6 then None
      else
        var totalLen := FromBe16(raw[2], raw[3]);
        if totalLen < ipLen || |raw| < totalLen || |raw| < ipLen + 20 then None
        else
          var tcpLen := raw[ipLen + 12] / 16 * 4;
          if tcpLen < 20 || |raw| < ipLen + tcpLen then None
          else Some(Layout(ipLen, totalLen, tcpLen))
  }

  predicate IsTcp(raw: Bytes)
  {
    Parse(raw).Some?
  }

  function SrcIp(raw: Bytes): Bytes
    requires |raw| >= 20
  {
    raw[12..16]
  }

  function DstIp(raw: Bytes): Bytes
    requires |raw| >= 20
  {
    raw[16..20]
  }

  function SrcPort(raw: Bytes): U16
    requires IsTcp(raw)
  {
    var o := Parse(raw).value.ipLen;
    FromBe16(raw[o], raw[o + 1])
  }

  function DstPort(raw: Bytes): U16
    requires IsTcp(raw)
  {
    var o := Parse(raw).value.ipLen;
    FromBe16(raw[o + 2], raw[o + 3])
  }

  function TcpSeq(raw: Bytes): U32
    requires IsTcp(raw)
  {
    var o := Parse(raw).value.ipLen;
    FromBe32(raw[o + 4], raw[o + 5], raw[o + 6], raw[o + 7])
  }

  function TcpFlags(raw: Bytes): Byte
    requires IsTcp(raw)
  {
    raw[Parse(raw).value.ipLen + 13]
  }

  function TcpPayload(raw: Bytes): Bytes
    requires IsTcp(raw)
  {
    raw[Parse(raw).value.ipLen + Parse(raw).value.tcpLen..]
  }

  function OptionArea(raw: Bytes): (area: Bytes)
    requires IsTcp(raw)
    ensures |area| <= 40 && |area| % 4 == 0
  {
    raw[Parse(raw).value.ipLen + 20..Parse(raw).value.ipLen + Parse(raw).value.tcpLen]
  }

  // ---- What a receiver takes from the bytes ----

  /** No bytes follow the IPv4 packet in the buffer. */
  predicate Exact(raw: Bytes)
    requires IsTcp(raw)
  {
    Parse(raw).value.totalLen == |raw|
  }

  /** The TCP header lies within the IPv4 total length. */
  predicate Whole(raw: Bytes)
    requires IsTcp(raw)
  {
    Parse(raw).value.ipLen + Parse(raw).value.tcpLen <= Parse(raw).value.totalLen
  }

  /** The payload as a receiver sees it: it ends at the IPv4 total length, not at the end of the buffer. */
  function WirePayload(raw: Bytes): Bytes
    requires IsTcp(raw) && Whole(raw)
  {
    raw[Parse(raw).value.ipLen + Parse(raw).value.tcpLen..Parse(raw).value.totalLen]
  }

  /** A receiver takes the same payload from both. */
  predicate SameWire(a: Bytes, b: Bytes)
    requires IsTcp(a) && IsTcp(b)
  {
    Whole(a) && Whole(b) && WirePayload(a) == WirePayload(b)
  }

  /** The engine's accessors agree, its payload being everything after the TCP header. */
  predicate SameSegment(a: Bytes, b: Bytes)
    requires IsTcp(a) && IsTcp(b)
  {
    && SrcIp(a) == SrcIp(b) && DstIp(a) == DstIp(b) && SrcPort(a) == SrcPort(b) && DstPort(a) == DstPort(b)
    && TcpSeq(a) == TcpSeq(b) && TcpFlags(a) == TcpFlags(b) && TcpPayload(a) == TcpPayload(b)
  }

  // ---- TCP options as a list ----

  datatype TcpOption = Nop | Opt(kind: Byte, data: Bytes)
  datatype Options = Options(list: seq<TcpOption>, rest: Bytes)

  predicate ValidOption(o: TcpOption)
  {
    o.Opt? ==> o.kind >= 2 && |o.data| <= 253
  }

  predicate ValidOptions(os: seq<TcpOption>)
  {
    forall o <- os :: ValidOption(o)
  }

  function PutOption(o: TcpOption): (b: Bytes)
    requires ValidOption(o)
    ensures |b| > 0
  {
    if o.Nop? then [1] else [o.kind, 2 + |o.data|] + o.data
  }

  function PutOptions(os: seq<TcpOption>): Bytes
    requires ValidOptions(os)
  {
    if |os| == 0 then [] else PutOption(os[0]) + PutOptions(os[1..])
  }

  /** The option at the head of the area, if the area does not end or break there. */
  function HeadOption(bs: Bytes): (o: Option<TcpOption>)
    ensures o.Some? ==> ValidOption(o.value) && |PutOption(o.value)| <= |bs|
    ensures o.Some? ==> bs[..|PutOption(o.value)|] == PutOption(o.value)
  {
    if |bs| == 0 || bs[0] == 0 then None
    else if bs[0] == 1 then assert bs[..1] == [1]; Some(Nop)
    else if |bs| < 2 || bs[1] < 2 || bs[1] > |bs| then None
    else
      var o := Opt(bs[0], bs[2..bs[1]]);
      assert bs[..bs[1]] == PutOption(o);
      Some(o)
  }

  /** All options up to the end marker, the end of the area, or the first malformed one. */
  function ReadOptions(bs: Bytes): (r: Options)
    ensures ValidOptions(r.list)
    decreases |bs|
  {
    match HeadOption(bs)
    case None => Options([], bs)
    case Some(o) =>
      var tail := ReadOptions(bs[|PutOption(o)|..]);
      Options([o] + tail.list, tail.rest)
  }

  predicate Ended(rest: Bytes)
  {
    |rest| == 0 || rest[0] == 0
  }

  /** A lone option kind as the last byte of the header: its length would be read past the header. */
  predicate Dangling(rest: Bytes)
  {
    |rest| == 1 && rest[0] >= 2
  }

  lemma HeadOfPut(o: TcpOption, tail: Bytes)
    requires ValidOption(o)
    ensures HeadOption(PutOption(o) + tail) == Some(o)
  {
    var bs := PutOption(o) + tail;
    if o.Opt? {
      assert bs[2..2 + |o.data|] == o.data;
    }
  }

  lemma ReadPutOne(o: TcpOption, more: Bytes)
    requires ValidOption(o)
    ensures ReadOptions(PutOption(o) + more) == Options([o] + ReadOptions(more).list, ReadOptions(more).rest)
  {
    hide HeadOption, PutOption;
    HeadOfPut(o, more);
    assert (PutOption(o) + more)[|PutOption(o)|..] == more;
  }

  lemma {:induction false} ReadAfterPut(os: seq<TcpOption>, tail: Bytes)
    requires ValidOptions(os)
    ensures
      var r := ReadOptions(tail);
      ReadOptions(PutOptions(os) + tail) == Options(os + r.list, r.rest)
  {
    hide PutOption, PutOptions, ReadOptions;
    var list := ReadOptions(tail).list;
    if |os| == 0 {
      PutNone();
      assert [] + tail == tail && os + list == list;
    } else {
      var o, rest := os[0], os[1..];
      ReadAfterPut(rest, tail);
      assert os == [o] + rest && o in os;
      PutCons(o, rest);
      ReadPutOne(o, PutOptions(rest) + tail);
      assert PutOption(o) + PutOptions(rest) + tail == PutOption(o) + (PutOptions(rest) + tail);
      assert [o] + (rest + list) == os + list;
    }
  }

  lemma PutNone()
    ensures PutOptions([]) == []
  {
  }

  lemma PutCons(o: TcpOption, os: seq<TcpOption>)
    requires ValidOption(o) && ValidOptions(os)
    ensures PutOptions([o] + os) == PutOption(o) + PutOptions(os)
  {
    hide PutOption;
    assert ([o] + os)[1..] == os;
  }

  lemma ReadStep(bs: Bytes)
    ensures
      match HeadOption(bs)
      case None => ReadOptions(bs) == Options([], bs) && PutOptions(ReadOptions(bs).list) + bs == bs
      case Some(o) =>
        var tail := ReadOptions(bs[|PutOption(o)|..]);
        ReadOptions(bs) == Options([o] + tail.list, tail.rest)
  {
    hide HeadOption, PutOption;
  }

  lemma {:induction false} PutAfterRead(bs: Bytes)
    ensures PutOptions(ReadOptions(bs).list) + ReadOptions(bs).rest == bs
    decreases |bs|
  {
    hide PutOption, HeadOption, PutOptions, ReadOptions;
    ReadStep(bs);
    match HeadOption(bs)
    case None =>
    case Some(o) =>
      var n := |PutOption(o)|;
      PutAfterRead(bs[n..]);
      var tail := ReadOptions(bs[n..]);
      PutCons(o, tail.list);
      assert bs == bs[..n] + bs[n..];
      assert PutOption(o) + PutOptions(tail.list) + tail.rest == PutOption(o) + (PutOptions(tail.list) + tail.rest);
  }

  lemma {:induction false} PutConcat(a: seq<TcpOption>, b: seq<TcpOption>)
    requires ValidOptions(a) && ValidOptions(b)
    ensures ValidOptions(a + b) && PutOptions(a + b) == PutOptions(a) + PutOptions(b)
  {
    hide PutOption;
    if |a| == 0 {
      assert a + b == b;
    } else {
      PutConcat(a[1..], b);
      assert (a + b)[1..] == a[1..] + b;
    }
  }

  function Nops(n: nat): (r: seq<TcpOption>)
    ensures |r| == n && ValidOptions(r) && forall o <- r :: o == Nop
  {
    seq(n, _ => Nop)
  }

  function Ones(n: nat): (r: Bytes)
    ensures |r| == n && forall i | 0 <= i < n :: r[i] == 1
  {
    seq(n, _ => 1)
  }

  lemma {:induction false} PutNops(n: nat)
    ensures PutOptions(Nops(n)) == Ones(n)
  {
    if n > 0 {
      PutNops(n - 1);
      assert Nops(n)[1..] == Nops(n - 1);
      assert Ones(n) == [1] + Ones(n - 1);
    }
  }

  // ---- Stripping an option kind ----

  predicate OfKind(o: TcpOption, kind: Byte)
  {
    o.Opt? && o.kind == kind
  }

  function Without(os: seq<TcpOption>, kind: Byte): (r: seq<TcpOption>)
    ensures ValidOptions(os) ==> ValidOptions(r)
  {
    if |os| == 0 then []
    else if OfKind(os[0], kind) then Without(os[1..], kind)
    else [os[0]] + Without(os[1..], kind)
  }

  /** The filter keeps exactly the options of other kinds. */
  lemma {:induction false} WithoutMembers(os: seq<TcpOption>, kind: Byte)
    ensures forall o :: o in Without(os, kind) <==> o in os && !OfKind(o, kind)
  {
    if |os| > 0 {
      WithoutMembers(os[1..], kind);
      assert os == [os[0]] + os[1..];
    }
  }

  /** Removing an option shortens the encoding by at least its two-byte head. */
  lemma {:induction false} WithoutShrinks(os: seq<TcpOption>, kind: Byte)
    requires ValidOptions(os)
    ensures |PutOptions(Without(os, kind))| + (if HasKind(os, kind) then 2 else 0) <= |PutOptions(os)|
  {
    if |os| > 0 {
      WithoutShrinks(os[1..], kind);
      if OfKind(os[0], kind) {
      } else {
        PutCons(os[0], Without(os[1..], kind));
      }
    }
  }

  lemma {:induction false} WithoutConcat(a: seq<TcpOption>, b: seq<TcpOption>, kind: Byte)
    ensures Without(a + b, kind) == Without(a, kind) + Without(b, kind)
  {
    hide OfKind, ValidOptions;
    if |a| == 0 {
      assert a + b == b;
    } else {
      WithoutConcat(a[1..], b, kind);
      var ab := a + b;
      assert ab[0] == a[0] && ab[1..] == a[1..] + b;
      assert [a[0]] + (Without(a[1..], kind) + Without(b, kind)) == [a[0]] + Without(a[1..], kind) + Without(b, kind);
    }
  }

  predicate HasKind(os: seq<TcpOption>, kind: Byte)
  {
    exists o <- os :: OfKind(o, kind)
  }

  /** Bytes of NOP needed to reach the next multiple of four. */
  function Padding(n: nat): (p: nat)
    ensures p < 4 && (n + p) % 4 == 0
  {
    (4 - n % 4) % 4
  }

  function KeptArea(area: Bytes, kind: Byte): (r: Bytes)
    ensures |r| % 4 == 0
  {
    var os := ReadOptions(area);
    var kept := PutOptions(Without(os.list, kind)) + os.rest;
    kept + Ones(Padding(|kept|))
  }

  /** The packet with a new option area: data offset and total length follow its size. */
  function Rebuilt(raw: Bytes, area: Bytes): (out: Bytes)
    requires IsTcp(raw) && |area| <= 40
    ensures |out| == |raw| - |OptionArea(raw)| + |area|
  {
    var o := Parse(raw).value.ipLen;
    var out := raw[..o + 20] + area + TcpPayload(raw);
    var sized := out[o + 12 := (20 + |area|) / 4 * 16 + raw[o + 12] % 16];
    var len := Be16(Low16(|sized|));
    sized[2 := len[0]][3 := len[1]]
  }

  /** What is kept fits into the old area once something was removed. */
  lemma KeptFits(area: Bytes, kind: Byte)
    requires |area| % 4 == 0 && HasKind(ReadOptions(area).list, kind)
    ensures |KeptArea(area, kind)| <= |area|
  {
    hide ReadOptions, PutOptions, Without;
    PutAfterRead(area);
    WithoutShrinks(ReadOptions(area).list, kind);
  }

  function Stripped(raw: Bytes, kind: Byte): Bytes
    requires IsTcp(raw)
  {
    var area := OptionArea(raw);
    if HasKind(ReadOptions(area).list, kind) then KeptFits(area, kind); Rebuilt(raw, KeptArea(area, kind)) else raw
  }

  /** Every header byte but the total length and the data offset is the old one. */
  predicate SameHeaders(raw: Bytes, out: Bytes)
    requires IsTcp(raw)
  {
    var o := Parse(raw).value.ipLen;
    && |out| >= o + 20
    && (forall i | 0 <= i < o + 20 && i != 2 && i != 3 && i != o + 12 :: out[i] == raw[i])
    && out[o + 12] % 16 == raw[o + 12] % 16
  }

  lemma RebuiltBytes(raw: Bytes, area: Bytes)
    requires IsTcp(raw) && |area| <= 40 && |area| % 4 == 0
    ensures
      var o, out := Parse(raw).value.ipLen, Rebuilt(raw, area);
      && SameHeaders(raw, out) && out[o + 12] / 16 * 4 == 20 + |area|
      && out[o + 20..o + 20 + |area|] == area && out[o + 20 + |area|..] == TcpPayload(raw)
      && FromBe16(out[2], out[3]) == Low16(|out|)
  {
    hide Be16, FromBe16, Parse, Low16;
    NibbleOfOffset(20 + |area|, raw[Parse(raw).value.ipLen + 12]);
  }

  lemma NibbleOfOffset(n: nat, b: Byte)
    requires 20 <= n <= 60 && n % 4 == 0
    ensures var v := n / 4 * 16 + b % 16; v < 256 && v % 16 == b % 16 && v / 16 * 4 == n
  {
  }

  /** The rebuilt packet parses unless the 16-bit total length wrapped below the IP header. */
  lemma RebuiltReparses(raw: Bytes, area: Bytes)
    requires IsTcp(raw) && |area| <= 40 && |area| % 4 == 0
    ensures
      var o, out := Parse(raw).value.ipLen, Rebuilt(raw, area);
      Parse(out) == if Low16(|out|) < o then None else Some(Layout(o, Low16(|out|), 20 + |area|))
  {
    hide Rebuilt, FromBe16, Low16;
    RebuiltBytes(raw, area);
    var out := Rebuilt(raw, area);
    assert out[0] == raw[0] && out[9] == raw[9];
    LowIsAtMost(|out|);
  }

  lemma SmallReparses(raw: Bytes, area: Bytes)
    requires IsTcp(raw) && |area| <= 40 && |area| % 4 == 0 && |Rebuilt(raw, area)| < TWO_16
    ensures Parse(Rebuilt(raw, area)) == Some(Layout(Parse(raw).value.ipLen, |Rebuilt(raw, area)|, 20 + |area|))
  {
    hide Parse, Rebuilt;
    RebuiltReparses(raw, area);
  }

  lemma LowIsAtMost(n: nat)
    ensures Low16(n) <= n
  {
  }

  lemma RebuiltIsSameSegment(raw: Bytes, area: Bytes)
    requires IsTcp(raw) && |area| <= 40 && |area| % 4 == 0 && Low16(|Rebuilt(raw, area)|) >= Parse(raw).value.ipLen
    ensures
      var out := Rebuilt(raw, area);
      IsTcp(out) && OptionArea(out) == area && SameSegment(raw, out) && SameHeaders(raw, out)
  {
    hide Rebuilt, FromBe16, FromBe32, Low16, Parse;
    RebuiltReparses(raw, area);
    RebuiltBytes(raw, area);
  }

  /**
   A rebuilt packet has no trailing bytes: its total length covers the whole buffer. What trailed the old
   packet becomes payload, so a receiver takes the same payload exactly if nothing did.
   */
  lemma RebuiltWire(raw: Bytes, area: Bytes)
    requires IsTcp(raw) && |area| <= 40 && |area| % 4 == 0 && |Rebuilt(raw, area)| < TWO_16
    ensures
      var out := Rebuilt(raw, area);
      && IsTcp(out) && Exact(out) && Whole(out) && WirePayload(out) == TcpPayload(raw)
      && (SameWire(raw, out) <==> Exact(raw))
  {
    hide Rebuilt, Parse, FromBe16, FromBe32, Low16;
    SmallReparses(raw, area);
    RebuiltBytes(raw, area);
    var out := Rebuilt(raw, area);
    assert WirePayload(out) == out[Parse(raw).value.ipLen + 20 + |area|..];
  }

  /** `after` is `before` without the kind, then fewer than four NOPs, which follow an end marker if there is one. */
  ghost predicate FilteredThenPadded(before: Options, kind: Byte, after: Options)
  {
    exists p | 0 <= p < 4 :: after == PaddedOptions(before, kind, p)
  }

  function PaddedOptions(before: Options, kind: Byte, p: nat): Options
  {
    var filtered := Without(before.list, kind);
    if before.rest == [] then Options(filtered + Nops(p), []) else Options(filtered, before.rest + Ones(p))
  }

  /** NOPs needed after the kept bytes. */
  function PadOf(os: Options, kind: Byte): (p: nat)
    requires ValidOptions(os.list)
    ensures p < 4
  {
    Padding(|PutOptions(Without(os.list, kind)) + os.rest|)
  }

  /** The kept bytes read back as the filtered list, then whatever the padded remainder reads as. */
  lemma KeptReads(area: Bytes, kind: Byte)
    ensures
      var os := ReadOptions(area);
      var tail := ReadOptions(os.rest + Ones(PadOf(os, kind)));
      ReadOptions(KeptArea(area, kind)) == Options(Without(os.list, kind) + tail.list, tail.rest)
  {
    hide PutOptions, Without, Padding, ReadOptions;
    var os := ReadOptions(area);
    var filtered := Without(os.list, kind);
    var pad := Ones(PadOf(os, kind));
    assert PutOptions(filtered) + os.rest + pad == PutOptions(filtered) + (os.rest + pad);
    ReadAfterPut(filtered, os.rest + pad);
  }

  /** Padding can turn a broken last option into a whole one. */
  predicate Completes(rest: Bytes, p: nat)
  {
    |rest| >= 2 && rest[0] >= 2 && 2 <= rest[1] <= |rest| + p
  }

  lemma {:induction false} RestIsStuck(bs: Bytes)
    ensures HeadOption(ReadOptions(bs).rest) == None
    decreases |bs|
  {
    hide HeadOption, PutOption;
    match HeadOption(bs)
    case None =>
    case Some(o) => RestIsStuck(bs[|PutOption(o)|..]);
  }

  lemma PaddedRest(rest: Bytes, p: nat)
    requires HeadOption(rest) == None
    ensures
      var r := ReadOptions(rest + Ones(p));
      if rest == [] then r == Options(Nops(p), [])
      else if Completes(rest, p) then
        && r.rest == [] && |r.list| > 0 && OfKind(r.list[0], rest[0])
        && r.list[1..] == Nops(|rest| + p - rest[1])
      else r == Options([], rest + Ones(p))
  {
    hide PutOptions, ReadOptions, HeadOption, PutOption;
    var bs := rest + Ones(p);
    ReadStep(bs);
    if rest == [] {
      assert bs == Ones(p);
      NopsRead(p);
    } else {
      PaddedHead(rest, p);
      if Completes(rest, p) {
        var n := |rest| + p - rest[1];
        NopsRead(n);
        assert bs[rest[1]..] == Ones(n);
        var o := HeadOption(bs).value;
        assert ([o] + Nops(n))[1..] == Nops(n);
      }
    }
  }

  lemma PaddedHead(rest: Bytes, p: nat)
    requires HeadOption(rest) == None && |rest| > 0
    ensures
      var head := HeadOption(rest + Ones(p));
      if Completes(rest, p) then
        rest[1] > |rest| && head.Some? && OfKind(head.value, rest[0]) && |PutOption(head.value)| == rest[1]
      else head == None
  {
  }

  lemma NopsRead(p: nat)
    ensures ReadOptions(Ones(p)) == Options(Nops(p), [])
  {
    hide ReadOptions;
    PutNops(p);
    EndedReads([]);
    ReadAfterPut(Nops(p), []);
    assert Ones(p) + [] == Ones(p) && Nops(p) + [] == Nops(p);
  }

  lemma KeptIsPadded(area: Bytes, kind: Byte)
    ensures
      var os := ReadOptions(area);
      Ended(os.rest) ==> FilteredThenPadded(os, kind, ReadOptions(KeptArea(area, kind)))
  {
    hide KeptArea, ReadOptions, Without, Padding;
    var os := ReadOptions(area);
    KeptReads(area, kind);
    RestIsStuck(area);
    PaddedRest(os.rest, PadOf(os, kind));
    if Ended(os.rest) {
      assert Without(os.list, kind) + [] == Without(os.list, kind);
      assert ReadOptions(KeptArea(area, kind)) == PaddedOptions(os, kind, PadOf(os, kind));
    }
  }

  /**
   On any option bytes at all, the stripped kind is gone unless the header ended in a broken option of
   that very kind which the padding happens to complete.
   */
  lemma StripRemovesKind(area: Bytes, kind: Byte)
    ensures
      var os := ReadOptions(area);
      HasKind(ReadOptions(KeptArea(area, kind)).list, kind) <==>
        Completes(os.rest, PadOf(os, kind)) && os.rest[0] == kind
  {
    hide KeptArea, ReadOptions, Without, Padding, Nops;
    var os := ReadOptions(area);
    var tail := ReadOptions(os.rest + Ones(PadOf(os, kind)));
    KeptReads(area, kind);
    RestIsStuck(area);
    PaddedRest(os.rest, PadOf(os, kind));
    WithoutMembers(os.list, kind);
    if Completes(os.rest, PadOf(os, kind)) {
      assert tail.list == [tail.list[0]] + tail.list[1..];
      assert tail.list[0] in ReadOptions(KeptArea(area, kind)).list;
    }
  }

  /** Stripping SACK-permitted from these four bytes leaves an option of the same kind behind. */
  lemma StripMayComplete()
    ensures
      var area: Bytes := [4, 2, 4, 3];
      HasKind(ReadOptions(area).list, 4) && HasKind(ReadOptions(KeptArea(area, 4)).list, 4)
  {
    hide KeptArea;
    var area: Bytes := [4, 2, 4, 3];
    assert area[2..] == [4, 3];
    assert HeadOption(area) == Some(Opt(4, [])) && HeadOption([4, 3]) == None;
    assert ReadOptions(area) == Options([Opt(4, [])], [4, 3]);
    assert Without([Opt(4, [])], 4) == [];
    StripRemovesKind(area, 4);
  }

  /** Padding never leaves a lone option kind at the end of the header. */
  lemma StripLeavesNoDangling(area: Bytes, kind: Byte)
    requires !Dangling(ReadOptions(area).rest)
    ensures !Dangling(ReadOptions(KeptArea(area, kind)).rest)
  {
    hide KeptArea, ReadOptions, Without, Padding, Nops;
    KeptReads(area, kind);
    RestIsStuck(area);
    PaddedRest(ReadOptions(area).rest, PadOf(ReadOptions(area), kind));
  }

  lemma EndedReads(bs: Bytes)
    requires Ended(bs)
    ensures ReadOptions(bs) == Options([], bs)
  {
  }

  /**
   A reported strip is a filter of the option list: on a packet whose options end properly, the result
   parses, holds the other options in order and then only padding, in a header that is a whole number
   of words and no longer than before, and it is otherwise the same segment. A receiver takes the same
   payload exactly if no bytes trailed the packet.
   */
  lemma StripRefinesFilter(raw: Bytes, kind: Byte)
    requires IsTcp(raw) && |raw| < TWO_16
    requires HasKind(ReadOptions(OptionArea(raw)).list, kind) && Ended(ReadOptions(OptionArea(raw)).rest)
    ensures
      var out := Stripped(raw, kind);
      && IsTcp(out) && SameSegment(raw, out) && SameHeaders(raw, out)
      && Exact(out) && (SameWire(raw, out) <==> Exact(raw)) && Parse(out).value.tcpLen % 4 == 0
      && Parse(out).value.tcpLen <= Parse(raw).value.tcpLen
      && FilteredThenPadded(ReadOptions(OptionArea(raw)), kind, ReadOptions(OptionArea(out)))
  {
    hide Parse, Rebuilt, KeptArea, ReadOptions, Low16, SameSegment, SameHeaders, SameWire;
    var area := OptionArea(raw);
    var kept := KeptArea(area, kind);
    KeptFits(area, kind);
    KeptIsPadded(area, kind);
    RebuiltWire(raw, kept);
    RebuiltReparses(raw, kept);
    RebuiltIsSameSegment(raw, kept);
  }

  // ---- Setting the MSS ----

  predicate IsMss(o: TcpOption)
  {
    o.Opt? && o.kind == 2 && |o.data| >= 2
  }

  /** The first MSS option gets the new value; everything else stays. */
  function WithMss(os: seq<TcpOption>, mss: U16): (r: seq<TcpOption>)
    ensures ValidOptions(os) ==> ValidOptions(r)
  {
    if |os| == 0 then []
    else if IsMss(os[0]) then assert os[0] in os; [Opt(2, Be16(mss) + os[0].data[2..])] + os[1..]
    else [os[0]] + WithMss(os[1..], mss)
  }

  predicate HasMss(os: seq<TcpOption>)
  {
    exists o <- os :: IsMss(o)
  }

  lemma {:induction false} WithMssSize(os: seq<TcpOption>, mss: U16)
    requires ValidOptions(os)
    ensures |PutOptions(WithMss(os, mss))| == |PutOptions(os)|
    ensures !HasMss(os) ==> WithMss(os, mss) == os
  {
    hide Be16;
    if |os| > 0 {
      assert os == [os[0]] + os[1..] && os[0] in os;
      if IsMss(os[0]) {
        PutCons(Opt(2, Be16(mss) + os[0].data[2..]), os[1..]);
      } else {
        WithMssSize(os[1..], mss);
        PutCons(os[0], WithMss(os[1..], mss));
      }
    }
  }

  function MssArea(area: Bytes, mss: U16): (r: Bytes)
    ensures |r| == |area|
  {
    var os := ReadOptions(area);
    WithMssSize(os.list, mss); PutAfterRead(area);
    PutOptions(WithMss(os.list, mss)) + os.rest
  }

  /** The packet with its option area replaced by one of the same size. */
  function MssSet(raw: Bytes, mss: U16): (out: Bytes)
    requires IsTcp(raw)
    ensures |out| == |raw|
  {
    raw[..Parse(raw).value.ipLen + 20] + MssArea(OptionArea(raw), mss) + TcpPayload(raw)
  }

  lemma MssBytes(raw: Bytes, mss: U16)
    requires IsTcp(raw)
    ensures
      var o, out := Parse(raw).value.ipLen, MssSet(raw, mss);
      && (forall i | 0 <= i < o + 20 :: out[i] == raw[i])
      && out[o + 20..o + 20 + |OptionArea(raw)|] == MssArea(OptionArea(raw), mss)
      && out[o + 20 + |OptionArea(raw)|..] == TcpPayload(raw)
  {
    hide MssArea, Parse;
  }

  lemma MssParses(raw: Bytes, mss: U16)
    requires IsTcp(raw)
    ensures Parse(MssSet(raw, mss)) == Parse(raw)
  {
    hide MssSet, FromBe16;
    MssBytes(raw, mss);
    var o, out := Parse(raw).value.ipLen, MssSet(raw, mss);
    assert out[0] == raw[0] && out[9] == raw[9] && out[2] == raw[2] && out[3] == raw[3] && out[o + 12] == raw[o + 12];
  }

  lemma MssIsSameSegment(raw: Bytes, mss: U16)
    requires IsTcp(raw)
    ensures
      var out, os := MssSet(raw, mss), ReadOptions(OptionArea(raw));
      && Parse(out) == Parse(raw) && SameSegment(raw, out) && SameHeaders(raw, out)
      && ReadOptions(OptionArea(out)) == Options(WithMss(os.list, mss), os.rest)
  {
    hide MssSet, MssArea, FromBe16, FromBe32, Parse, ReadOptions, WithMss;
    MssBytes(raw, mss);
    MssParses(raw, mss);
    MssAreaReads(OptionArea(raw), mss);
  }

  lemma MssAreaReads(area: Bytes, mss: U16)
    ensures
      var os := ReadOptions(area);
      ReadOptions(MssArea(area, mss)) == Options(WithMss(os.list, mss), os.rest)
  {
    hide ReadOptions, WithMss, PutOptions, HeadOption;
    var os := ReadOptions(area);
    RestIsStuck(area);
    ReadStep(os.rest);
    ReadAfterPut(WithMss(os.list, mss), os.rest);
    assert WithMss(os.list, mss) + [] == WithMss(os.list, mss);
  }

  // ---- The packet object and its in-place rewrites ----

  /** How far a scan has come: `done` are the options before offset `i` of the area. */
  ghost predicate Scanned(area: Bytes, i: nat, done: seq<TcpOption>)
  {
    && i <= |area| && ValidOptions(done) && PutOptions(done) == area[..i]
    && ReadOptions(area) == Options(done + ReadOptions(area[i..]).list, ReadOptions(area[i..]).rest)
  }

  lemma ScanStep(area: Bytes, i: nat, done: seq<TcpOption>)
    requires Scanned(area, i, done)
    ensures
      match HeadOption(area[i..])
      case None => ReadOptions(area) == Options(done, area[i..])
      case Some(o) => Scanned(area, i + |PutOption(o)|, done + [o])
  {
    hide HeadOption, PutOption, PutOptions, ReadOptions;
    ReadStep(area[i..]);
    match HeadOption(area[i..])
    case None => assert done + [] == done;
    case Some(o) =>
      var n := i + |PutOption(o)|;
      PutOne(o);
      PutConcat(done, [o]);
      assert area[..n] == area[..i] + area[i..][..|PutOption(o)|];
      assert area[i..][|PutOption(o)|..] == area[n..];
      assert (done + [o]) + ReadOptions(area[n..]).list == done + ([o] + ReadOptions(area[n..]).list);
  }

  lemma PutOne(o: TcpOption)
    requires ValidOption(o)
    ensures ValidOptions([o]) && PutOptions([o]) == PutOption(o)
  {
    hide PutOption;
    assert PutOptions([o]) == PutOption(o) + PutOptions([]);
  }

  class TcpPacket {
    var raw: Bytes
    const ipHeaderLen: nat
    const ipTotalLen: nat
    var tcpHeaderLen: nat

    /** The recorded offsets are those of the bytes; the recorded total length may go stale. */
    ghost predicate Valid()
      reads this
    {
      IsTcp(raw) && Parse(raw).value.ipLen == ipHeaderLen && Parse(raw).value.tcpLen == tcpHeaderLen
    }

    constructor (raw: Bytes)
      requires IsTcp(raw)
      ensures Valid() && this.raw == raw && ipTotalLen == Parse(raw).value.totalLen
    {
      var layout := Parse(raw).value;
      this.raw := raw;
      ipHeaderLen, ipTotalLen, tcpHeaderLen := layout.ipLen, layout.totalLen, layout.tcpLen;
    }

    method SetMss(mss: U16) returns (changed: bool)
      requires Valid()
      modifies this`raw
      ensures Valid() && raw == MssSet(old(raw), mss)
      ensures changed == HasMss(ReadOptions(OptionArea(old(raw))).list)
    {
      hide MssArea, Parse, ReadOptions, Be16;
      MssParses(raw, mss);
      var at := FindMss(raw, ipHeaderLen + 20, ipHeaderLen + tcpHeaderLen, mss);
      match at
      case None =>
        assert raw == raw[..ipHeaderLen + 20] + OptionArea(raw) + TcpPayload(raw);
        return false;
      case Some(i) =>
        MssSpliced(raw, i, mss);
        var value := Be16(mss);
        raw := raw[i + 2 := value[0]][i + 3 := value[1]];
        return true;
    }

    /**
     The engine reads the length byte of a lone last option kind from the payload. `inBounds` is false when
     there is no payload, so that the read fails; the packet is then as it was. The recorded total length is
     never updated: it stays true of a packet without trailing bytes exactly if padding restores the size.
     */
    method StripOption(kind: Byte) returns (inBounds: bool, changed: bool)
      requires Valid()
      modifies this
      ensures inBounds <==> Strippable(old(raw))
      ensures !inBounds ==> raw == old(raw) && tcpHeaderLen == old(tcpHeaderLen)
      ensures inBounds ==> raw == Stripped(old(raw), kind)
      ensures inBounds ==> changed == HasKind(ReadOptions(OptionArea(old(raw))).list, kind)
      ensures inBounds && changed ==> tcpHeaderLen == 20 + |KeptArea(OptionArea(old(raw)), kind)|
      ensures inBounds && !changed ==> tcpHeaderLen == old(tcpHeaderLen)
      ensures |old(raw)| < TWO_16 ==> Valid()
      ensures inBounds && changed && |old(raw)| < TWO_16 ==>
        (Parse(raw).value.totalLen == ipTotalLen <==>
          ipTotalLen == |old(raw)| - |OptionArea(old(raw))| + |KeptArea(OptionArea(old(raw)), kind)|)
      ensures inBounds && changed && |old(raw)| < TWO_16 && ipTotalLen == |old(raw)| ==>
        (Parse(raw).value.totalLen == ipTotalLen <==> RemovedBytes(ReadOptions(OptionArea(old(raw))).list, kind) < 4)
    {
      hide Parse, ReadOptions, KeptArea, Rebuilt, HasKind, RemovedBytes, PutOptions, Without, Padding, Ones;
      ghost var area := OptionArea(raw);
      var kept;
      inBounds, kept, changed := ScanKept(raw, ipHeaderLen + 20, ipHeaderLen + tcpHeaderLen, kind);
      if !inBounds || !changed {
        return;
      }
      KeptSize(area, kind);
      kept := PadToWord(kept);
      KeptIs(area, kind, kept);
      KeptFits(area, kind);
      var newHeaderLen := (20 + |kept| + 3) / 4 * 4;
      raw := Rebuild(raw, ipHeaderLen, tcpHeaderLen, kept);
      tcpHeaderLen := newHeaderLen;
      if |old(raw)| < TWO_16 {
        SmallReparses(old(raw), kept);
      }
    }
  }

  /** A bare SYN whose 24-byte TCP header ends in a lone option kind. */
  function DanglingSyn(): (r: Bytes)
    ensures |r| == 44 && r[0] == 0x45 && r[2] == 0 && r[3] == 44 && r[9] == 6 && r[32] == 0x60 && r[33] == 2
    ensures r[40..44] == [1, 1, 1, 4]
  {
    seq(44, i => if i == 0 then 0x45 else if i == 3 then 44 else if i == 9 then 6 else if i == 32 then 0x60
                 else if i == 33 then 2 else if 40 <= i < 43 then 1 else if i == 43 then 4 else 0)
  }

  lemma DanglingSynParses()
    ensures Parse(DanglingSyn()) == Some(Layout(20, 44, 24)) && !Strippable(DanglingSyn())
  {
    hide DanglingSyn;
    var raw := DanglingSyn();
    assert Parse(raw) == Some(Layout(20, 44, 24));
    assert OptionArea(raw) == [1, 1, 1, 4] && TcpPayload(raw) == [];
    assert [1, 1, 1, 4] == PutOptions([Nop, Nop, Nop]) + [4] by {
      assert PutOptions([Nop]) == [1] && PutOptions([Nop, Nop]) == [1, 1];
    }
    ReadAfterPut([Nop, Nop, Nop], [4]);
    assert ReadOptions([4]).rest == [4];
  }

  /** Stripping anything from it fails. */
  method StripDanglingSyn(kind: Byte) returns (inBounds: bool)
    ensures !inBounds
  {
    hide DanglingSyn, Strippable;
    DanglingSynParses();
    var pkt := new TcpPacket(DanglingSyn());
    var changed;
    inBounds, changed := pkt.StripOption(kind);
  }

  /** Stripping reads no byte past the end of the packet. */
  predicate Strippable(raw: Bytes)
    requires IsTcp(raw)
  {
    !(Dangling(ReadOptions(OptionArea(raw)).rest) && TcpPayload(raw) == [])
  }

  /** How many option bytes the filter takes out. */
  function RemovedBytes(os: seq<TcpOption>, kind: Byte): int
    requires ValidOptions(os)
  {
    |PutOptions(os)| - |PutOptions(Without(os, kind))|
  }

  /** Padding makes up for fewer than four removed bytes, and for no more. */
  lemma KeptSize(area: Bytes, kind: Byte)
    requires |area| % 4 == 0
    ensures |KeptArea(area, kind)| == |area| <==> RemovedBytes(ReadOptions(area).list, kind) < 4
  {
    hide ReadOptions, PutOptions, Without, Padding;
    var os := ReadOptions(area);
    PutAfterRead(area);
    WithoutShrinks(os.list, kind);
    PaddedTo(|PutOptions(Without(os.list, kind)) + os.rest|, |area|);
  }

  lemma PaddedTo(n: nat, m: nat)
    requires n <= m && m % 4 == 0
    ensures n + Padding(n) == m <==> m - n < 4
  {
  }

  lemma KeptIs(area: Bytes, kind: Byte, kept: Bytes)
    requires
      var os := ReadOptions(area);
      var k := PutOptions(Without(os.list, kind)) + os.rest;
      kept == k + Ones(Padding(|k|))
    ensures kept == KeptArea(area, kind)
  {
  }

  /**
   The surviving option bytes between `start` and `end`, and whether any option was left out. `inBounds` is
   false when the length byte of a lone last kind would be read past the end of the packet.
   */
  method ScanKept(raw: Bytes, start: nat, end: nat, kind: Byte) returns (inBounds: bool, kept: Bytes, changed: bool)
    requires start <= end <= |raw|
    ensures
      var os := ReadOptions(raw[start..end]);
      && (inBounds <==> !(Dangling(os.rest) && end == |raw|))
      && (inBounds ==> kept == PutOptions(Without(os.list, kind)) + os.rest && changed == HasKind(os.list, kind))
  {
    hide PutOptions, ReadOptions, Scanned, Without, KeptSoFar, HasKind, Broken, Dangling;
    ghost var area := raw[start..end];
    ghost var done: seq<TcpOption> := [];
    inBounds, kept, changed := true, [], false;
    var i := start;
    ScanStart(area);
    KeptStart(kind);
    while i < end
      invariant start <= i <= end
      invariant Scanned(area, i - start, done)
      invariant KeptSoFar(done, kind, kept) && changed == HasKind(done, kind)
    {
      var k := raw[i];
      ghost var done' := KeptStep(raw, start, end, i, done, kind, kept);
      if k == 0 {
        BrokenAt(raw, i, end);
        DanglesAt(raw, start, end, i, done);
        kept := kept + raw[i..end];
        return;
      }
      if k == 1 {
        BrokenAt(raw, i, end);
        assert raw[i..i + 1] == [1];
        kept := kept + [1];
        done := done';
        i := i + 1;
        continue;
      }
      if i + 1 == |raw| {
        BrokenAt(raw, i, end);
        DanglesAt(raw, start, end, i, done);
        return false, [], false;
      }
      var len: int := raw[i + 1];
      BrokenAt(raw, i, end);
      if len < 2 || i + len > end {
        DanglesAt(raw, start, end, i, done);
        kept := kept + raw[i..end];
        return;
      }
      done := done';
      if k == kind {
        changed := true;
      } else {
        kept := kept + raw[i..i + len];
      }
      i := i + len;
    }
    BrokenAt(raw, i, end);
    DanglesAt(raw, start, end, i, done);
    ghost var last := KeptStep(raw, start, end, i, done, kind, kept);
    assert kept + raw[i..end] == kept;
  }

  /** No option starts at this offset: the area ends there, or the option does not fit it. */
  predicate Broken(raw: Bytes, i: nat, end: nat)
    requires i <= end <= |raw|
  {
    i == end || raw[i] == 0 || (raw[i] > 1 && (i + 1 == end || raw[i + 1] < 2 || i + raw[i + 1] > end))
  }

  lemma BrokenAt(raw: Bytes, i: nat, end: nat)
    requires i <= end <= |raw|
    ensures i == end || raw[i] == 0 ==> Broken(raw, i, end)
    ensures i < end && raw[i] == 1 ==> !Broken(raw, i, end)
    ensures i < end && raw[i] > 1 && i + 1 < |raw| ==>
      (Broken(raw, i, end) <==> raw[i + 1] < 2 || i + raw[i + 1] > end)
    ensures i < end && raw[i] > 1 && i + 1 == |raw| ==> Broken(raw, i, end)
  {
  }

  /** Where the scan stops, the rest dangles exactly if it is a lone last kind. */
  lemma DanglesAt(raw: Bytes, start: nat, end: nat, i: nat, done: seq<TcpOption>)
    requires start <= i <= end <= |raw| && Scanned(raw[start..end], i - start, done) && Broken(raw, i, end)
    ensures Dangling(ReadOptions(raw[start..end]).rest) <==> i + 1 == end && raw[i] > 1
  {
    hide ReadOptions, HeadOption, Scanned, PutOption;
    ScanStep(raw[start..end], i - start, done);
    HeadInRaw(raw, start, end, i);
  }

  /** One step of the scan: the option at the offset is kept or left out, or the rest is kept as it is. */
  lemma KeptStep(raw: Bytes, start: nat, end: nat, i: nat, done: seq<TcpOption>, kind: Byte, kept: Bytes)
    returns (done': seq<TcpOption>)
    requires start <= i <= end <= |raw| && Scanned(raw[start..end], i - start, done) && KeptSoFar(done, kind, kept)
    ensures
      var os := ReadOptions(raw[start..end]);
      Broken(raw, i, end) ==>
        && PutOptions(Without(os.list, kind)) + os.rest == kept + raw[i..end]
        && HasKind(os.list, kind) == HasKind(done, kind)
    ensures !Broken(raw, i, end) ==>
      var len, drop := if raw[i] == 1 then 1 else raw[i + 1] as int, raw[i] != 1 && raw[i] == kind;
      && Scanned(raw[start..end], i - start + len, done')
      && KeptSoFar(done', kind, if drop then kept else kept + raw[i..i + len])
      && HasKind(done', kind) == (HasKind(done, kind) || drop)
  {
    hide PutOptions, ReadOptions, Scanned, PutOption, HeadOption, Without, ValidOptions, HasKind;
    var area := raw[start..end];
    ScanStep(area, i - start, done);
    HeadInRaw(raw, start, end, i);
    if Broken(raw, i, end) {
      done' := done;
    } else {
      var o := HeadOption(area[i - start..]).value;
      KeptGrows(done, o, kind, kept);
      done' := done + [o];
      assert |PutOption(o)| == if raw[i] == 1 then 1 else raw[i + 1] as int;
      assert OfKind(o, kind) <==> raw[i] != 1 && raw[i] == kind;
    }
  }

  /** The option at an offset of the area, read from the packet. */
  lemma HeadInRaw(raw: Bytes, start: nat, end: nat, i: nat)
    requires start <= i <= end <= |raw|
    ensures
      var rest := raw[start..end][i - start..];
      && rest == raw[i..end] && (Broken(raw, i, end) <==> HeadOption(rest) == None)
      && (!Broken(raw, i, end) ==>
            var o, len := HeadOption(rest).value, if raw[i] == 1 then 1 else raw[i + 1] as int;
            && i + len <= end && PutOption(o) == raw[i..i + len]
            && (forall kind: Byte :: OfKind(o, kind) <==> raw[i] != 1 && raw[i] == kind))
  {
    hide HeadOption, PutOption;
    var area := raw[start..end];
    HeadKind(area, i - start);
    assert area[i - start..] == raw[i..end];
    if !Broken(raw, i, end) {
      var o := HeadOption(area[i - start..]).value;
      assert raw[i..end][..|PutOption(o)|] == raw[i..i + |PutOption(o)|];
    }
  }

  ghost predicate KeptSoFar(done: seq<TcpOption>, kind: Byte, kept: Bytes)
  {
    ValidOptions(done) && kept == PutOptions(Without(done, kind))
  }

  lemma KeptStart(kind: Byte)
    ensures KeptSoFar([], kind, []) && !HasKind([], kind)
  {
  }

  lemma KeptGrows(done: seq<TcpOption>, o: TcpOption, kind: Byte, kept: Bytes)
    requires KeptSoFar(done, kind, kept) && ValidOption(o)
    ensures KeptSoFar(done + [o], kind, if OfKind(o, kind) then kept else kept + PutOption(o))
    ensures HasKind(done + [o], kind) == (HasKind(done, kind) || OfKind(o, kind))
  {
    hide PutOptions, PutOption;
    WithoutConcat(done, [o], kind);
    assert Without([o], kind) == if OfKind(o, kind) then [] else [o];
    PutOne(o);
    if OfKind(o, kind) {
      assert Without(done, kind) + [] == Without(done, kind);
    } else {
      PutConcat(Without(done, kind), [o]);
    }
    assert forall x :: x in done + [o] <==> x in done || x == o;
  }

  /** What the byte at an offset of the area says about the option that starts there. */
  lemma HeadKind(area: Bytes, i: nat)
    requires i <= |area|
    ensures
      var head := HeadOption(area[i..]);
      && (i == |area| ==> head == None)
      && (i < |area| ==>
            && (area[i] == 0 ==> head == None)
            && (area[i] == 1 ==> head == Some(Nop) && PutOption(Nop) == [1])
            && (area[i] > 1 && i + 1 == |area| ==> head == None && Dangling(area[i..]))
            && (area[i] > 1 && i + 1 < |area| ==>
                  if area[i + 1] < 2 || i + area[i + 1] > |area| then head == None
                  else
                    && head.Some? && head.value.Opt? && head.value.kind == area[i]
                    && |PutOption(head.value)| == area[i + 1]))
  {
  }

  method PadToWord(kept: Bytes) returns (r: Bytes)
    ensures r == kept + Ones(Padding(|kept|))
  {
    hide Ones;
    ghost var n := 0;
    r := kept;
    assert kept + Ones(0) == kept;
    while |r| % 4 != 0
      invariant n <= Padding(|kept|) && r == kept + Ones(n)
      decreases Padding(|kept|) - n
    {
      OneMore(n);
      assert kept + Ones(n + 1) == r + [1];
      n := n + 1;
      r := r + [1];
    }
  }

  lemma OneMore(n: nat)
    ensures Ones(n + 1) == Ones(n) + [1]
  {
  }

  method Rebuild(raw: Bytes, tcpStart: nat, tcpHeaderLen: nat, kept: Bytes) returns (out: Bytes)
    requires IsTcp(raw) && tcpStart == Parse(raw).value.ipLen && tcpHeaderLen == Parse(raw).value.tcpLen
    requires |kept| <= 40 && |kept| % 4 == 0
    ensures out == Rebuilt(raw, kept)
  {
    hide Parse, Low16, Be16;
    var payload := raw[tcpStart + tcpHeaderLen..];
    out := raw[..tcpStart];
    out := out + raw[tcpStart..tcpStart + 20];
    out := out + kept;
    out := out + payload;
    assert out == raw[..tcpStart + 20] + kept + TcpPayload(raw);
    var newHeaderLen := (20 + |kept| + 3) / 4 * 4;
    var dof := newHeaderLen / 4;
    out := out[tcpStart + 12 := dof * 16 + out[tcpStart + 12] % 16];
    var total := Be16(Low16(|out|));
    out := out[2 := total[0]][3 := total[1]];
  }

  /** Offset of the first MSS option between `start` and `end`. */
  method FindMss(raw: Bytes, start: nat, end: nat, ghost mss: U16) returns (at: Option<nat>)
    requires start <= end <= |raw|
    ensures
      var area := raw[start..end];
      match at
      case None => !HasMss(ReadOptions(area).list) && MssArea(area, mss) == area
      case Some(i) =>
        && start <= i && i + 4 <= end && HasMss(ReadOptions(area).list)
        && MssArea(area, mss) == area[i + 2 - start := Be16(mss)[0]][i + 3 - start := Be16(mss)[1]]
  {
    hide PutOptions, ReadOptions, MssArea, Scanned, PutOption, HeadOption, Be16;
    ghost var area := raw[start..end];
    ghost var done: seq<TcpOption> := [];
    var i := start;
    ScanStart(area);
    while i + 1 < end
      invariant start <= i <= end
      invariant Scanned(area, i - start, done) && !HasMss(done)
    {
      var kind := raw[i];
      ScanStep(area, i - start, done);
      HeadAt(area, i - start);
      if kind == 0 {
        break;
      }
      if kind == 1 {
        done := done + [Nop];
        i := i + 1;
        continue;
      }
      var len: int := raw[i + 1];
      if len < 2 || i + len > end {
        break;
      }
      if kind == 2 && len >= 4 {
        MssFound(area, i - start, done, mss);
        return Some(i);
      }
      done := done + [HeadOption(area[i - start..]).value];
      i := i + len;
    }
    MssNotFound(area, i - start, done, mss);
    return None;
  }

  /** What the bytes at an offset of the area say about the option that starts there. */
  lemma HeadAt(area: Bytes, i: nat)
    requires i + 1 < |area|
    ensures
      var head, kind, len := HeadOption(area[i..]), area[i], area[i + 1] as int;
      && (head == None <==> kind == 0 || (kind != 1 && (len < 2 || i + len > |area|)))
      && (kind == 1 ==> head == Some(Nop) && |PutOption(Nop)| == 1)
      && (kind > 1 && head.Some? ==>
            head.value.Opt? && |PutOption(head.value)| == len && (IsMss(head.value) <==> kind == 2 && len >= 4)
            && head.value.kind == kind)
  {
  }

  /** Two bytes written at an offset of the option area change the area and nothing else. */
  lemma MssSpliced(raw: Bytes, i: nat, mss: U16)
    requires IsTcp(raw) && Parse(raw).value.ipLen + 20 <= i && i + 4 <= Parse(raw).value.ipLen + Parse(raw).value.tcpLen
    requires
      var start := Parse(raw).value.ipLen + 20;
      MssArea(OptionArea(raw), mss) == OptionArea(raw)[i + 2 - start := Be16(mss)[0]][i + 3 - start := Be16(mss)[1]]
    ensures raw[i + 2 := Be16(mss)[0]][i + 3 := Be16(mss)[1]] == MssSet(raw, mss)
  {
    hide MssArea, Parse, Be16;
    var start := Parse(raw).value.ipLen + 20;
    assert raw == raw[..start] + OptionArea(raw) + TcpPayload(raw);
  }

  lemma ScanStart(area: Bytes)
    ensures Scanned(area, 0, [])
  {
    hide HeadOption;
    assert area[0..] == area;
    assert [] + ReadOptions(area).list == ReadOptions(area).list;
  }

  /** Writing the two value bytes of the first MSS option is the list update. */
  lemma MssFound(area: Bytes, i: nat, done: seq<TcpOption>, mss: U16)
    requires Scanned(area, i, done) && !HasMss(done)
    requires HeadOption(area[i..]).Some? && IsMss(HeadOption(area[i..]).value)
    ensures i + 4 <= |area| && HasMss(ReadOptions(area).list)
    ensures MssArea(area, mss) == area[i + 2 := Be16(mss)[0]][i + 3 := Be16(mss)[1]]
  {
    hide PutOptions, ReadOptions, Be16, HeadOption, PutOption, MssArea;
    var here := area[i..];
    var o := HeadOption(here).value;
    var n := |PutOption(o)|;
    MssReplaced(area, i, done, mss);
    MssOption(o, mss);
    Splice(area[..i], PutOption(o), here[n..], Be16(mss)[0], Be16(mss)[1]);
    assert here == PutOption(o) + here[n..];
    assert area == area[..i] + PutOption(o) + here[n..];
  }

  lemma MssReplaced(area: Bytes, i: nat, done: seq<TcpOption>, mss: U16)
    requires Scanned(area, i, done) && !HasMss(done)
    requires HeadOption(area[i..]).Some? && IsMss(HeadOption(area[i..]).value)
    ensures i <= |area| && HasMss(ReadOptions(area).list)
    ensures
      var o := HeadOption(area[i..]).value;
      MssArea(area, mss) == area[..i] + PutOption(Opt(2, Be16(mss) + o.data[2..])) + area[i..][|PutOption(o)|..]
  {
    hide PutOptions, ReadOptions, Be16, HeadOption, WithMss, PutOption;
    var here := area[i..];
    var o := HeadOption(here).value;
    var o' := Opt(2, Be16(mss) + o.data[2..]);
    var n := |PutOption(o)|;
    ReadStep(here);
    var tail := ReadOptions(here[n..]);
    var list := ReadOptions(area).list;
    assert list == done + ([o] + tail.list);
    assert list[|done|] == o;
    WithMssAfter(done, [o] + tail.list, mss);
    WithMssHead(o, tail.list, mss);
    PutConcat(done, [o'] + tail.list);
    PutCons(o', tail.list);
    PutAfterRead(here[n..]);
    assert PutOptions(done + ([o'] + tail.list)) + tail.rest
        == PutOptions(done) + PutOption(o') + (PutOptions(tail.list) + tail.rest);
  }

  lemma Splice(a: Bytes, b: Bytes, c: Bytes, x: Byte, y: Byte)
    requires |b| >= 4
    ensures a + b[2 := x][3 := y] + c == (a + b + c)[|a| + 2 := x][|a| + 3 := y]
  {
  }

  lemma WithMssHead(o: TcpOption, os: seq<TcpOption>, mss: U16)
    requires IsMss(o)
    ensures WithMss([o] + os, mss) == [Opt(2, Be16(mss) + o.data[2..])] + os
  {
    assert ([o] + os)[1..] == os;
  }

  lemma MssOption(o: TcpOption, mss: U16)
    requires ValidOption(o) && IsMss(o)
    ensures
      var o' := Opt(2, Be16(mss) + o.data[2..]);
      && |PutOption(o)| >= 4 && ValidOption(o')
      && PutOption(o') == PutOption(o)[2 := Be16(mss)[0]][3 := Be16(mss)[1]]
  {
    hide Be16;
  }

  lemma {:induction false} WithMssAfter(done: seq<TcpOption>, more: seq<TcpOption>, mss: U16)
    requires !HasMss(done)
    ensures WithMss(done + more, mss) == done + WithMss(more, mss)
  {
    hide Be16, IsMss, ValidOptions;
    if |done| == 0 {
      assert done + more == more;
      assert done + WithMss(more, mss) == WithMss(more, mss);
    } else {
      WithMssAfter(done[1..], more, mss);
      assert done[0] in done;
      assert (done + more)[1..] == done[1..] + more;
      assert [done[0]] + (done[1..] + WithMss(more, mss)) == done + WithMss(more, mss);
    }
  }

  lemma MssNotFound(area: Bytes, i: nat, done: seq<TcpOption>, mss: U16)
    requires Scanned(area, i, done) && !HasMss(done)
    requires i + 1 >= |area| || HeadOption(area[i..]) == None
    ensures !HasMss(ReadOptions(area).list) && MssArea(area, mss) == area
  {
    hide PutOptions, ReadOptions, WithMss;
    ReadStep(area[i..]);
    if HeadOption(area[i..]).Some? {
      assert HeadOption(area[i..]).value == Nop;
      ReadStep(area[i..][1..]);
    }
    var os := ReadOptions(area);
    WithMssSize(os.list, mss);
    PutAfterRead(area);
  }
}
