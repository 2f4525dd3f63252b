/**
 Internet checksums (section 1 of RFC 1071) and the three fixers that write them. A receiver accepts a
 packet when the folded sum of its 16-bit words, checksum included, is 0xffff; the contracts say when
 that holds afterwards. Sums are kept in a 32-bit variable and never overflow it.
 */
module Checksum {
  import opened Wire
  import opened Packet

  const ONES := 0xffff

  /** Sum of the big-endian 16-bit words, an odd last byte padded with zero. */
  function WordSum(bs: Bytes): nat
  {
    if |bs| == 0 then 0
    else if |bs| == 1 then 256 * bs[0]
    else FromBe16(bs[0], bs[1]) + WordSum(bs[2..])
  }

  /** End-around carry until the sum fits 16 bits. */
  function Fold(n: nat): (r: U16)
  {
    if n < TWO_16 then n else Fold(n % TWO_16 + n / TWO_16)
  }

  lemma {:induction false} FoldTakesOnes(n: nat) returns (k: nat)
    ensures Fold(n) + ONES * k == n && (n > 0 ==> Fold(n) > 0)
  {
    if n < TWO_16 {
      k := 0;
    } else {
      var q := n / TWO_16;
      assert n % TWO_16 + q == n - ONES * q;
      k := FoldTakesOnes(n % TWO_16 + q);
      k := k + q;
    }
  }

  /** The complement of a folded sum, added back, verifies. */
  lemma ComplementVerifies(sum: nat)
    ensures Fold(sum + (ONES - Fold(sum))) == ONES
  {
    hide Fold;
    var k := FoldTakesOnes(sum);
    var k' := FoldTakesOnes(sum + (ONES - Fold(sum)));
  }

  /** If more was summed than is checked, the complement verifies only if the surplus is a multiple of ones. */
  lemma StaleComplement(rest: nat, surplus: nat)
    requires rest > 0
    ensures Fold(rest + (ONES - Fold(rest + surplus))) == ONES <==> surplus % ONES == 0
  {
    hide Fold;
    var k := FoldTakesOnes(rest + surplus);
    var k' := FoldTakesOnes(rest + (ONES - Fold(rest + surplus)));
  }

  lemma {:induction false} WordSumSplit(a: Bytes, b: Bytes)
    requires |a| % 2 == 0
    ensures WordSum(a + b) == WordSum(a) + WordSum(b)
  {
    if |a| == 0 {
      assert a + b == b;
    } else {
      WordSumSplit(a[2..], b);
      assert (a + b)[2..] == a[2..] + b;
    }
  }

  lemma {:induction false} WordSumBound(bs: Bytes)
    ensures 2 * WordSum(bs) <= ONES * (|bs| + 1)
  {
    if |bs| > 1 {
      WordSumBound(bs[2..]);
    }
  }

  /** One word of the data accounts for exactly its own value in the sum. */
  lemma WordSumSet(bs: Bytes, k: nat, hi: Byte, lo: Byte)
    requires k % 2 == 0 && k + 1 < |bs|
    ensures WordSum(bs[k := hi][k + 1 := lo]) + FromBe16(bs[k], bs[k + 1]) == WordSum(bs) + FromBe16(hi, lo)
  {
    hide FromBe16;
    var a, b := bs[..k], bs[k + 2..];
    WordSumSplit(a, [hi, lo] + b);
    WordSumSplit(a, [bs[k], bs[k + 1]] + b);
    assert ([hi, lo] + b)[2..] == b && ([bs[k], bs[k + 1]] + b)[2..] == b;
    assert bs == a + ([bs[k], bs[k + 1]] + b);
    assert bs[k := hi][k + 1 := lo] == a + ([hi, lo] + b);
  }

  method FoldSum(total: U32) returns (r: U16)
    ensures r == Fold(total)
  {
    var sum: U32 := total;
    while sum / TWO_16 != 0
      invariant Fold(sum) == Fold(total)
      decreases sum
    {
      sum := sum % TWO_16 + sum / TWO_16;
    }
    r := sum;
  }

  // ---- IPv4 header ----

  predicate Ipv4Verifies(raw: Bytes, ipLen: nat)
    requires ipLen <= |raw|
  {
    Fold(WordSum(raw[..ipLen])) == ONES
  }

  /** A byte's share of its word: the high half at even positions. */
  function Weighted(i: nat, b: int): int
  {
    if i % 2 == 0 then 256 * b else b
  }

  /** What is left to add from byte `i` on. */
  function Pending(bs: Bytes, i: nat): nat
    requires i <= |bs|
  {
    if i % 2 == 0 then WordSum(bs[i..])
    else if i == |bs| then 0
    else bs[i] + WordSum(bs[i + 1..])
  }

  lemma PendingStep(bs: Bytes, i: nat)
    requires i < |bs|
    ensures Pending(bs, i) == Pending(bs, i + 1) + Weighted(i, bs[i])
  {
    if i % 2 == 0 {
      assert i + 1 < |bs| ==> bs[i..][2..] == bs[i + 2..];
    }
  }

  method Ipv4Sum(raw: Bytes, ipLen: nat) returns (sum: U32)
    requires 12 <= ipLen <= 60 && ipLen <= |raw|
    ensures sum == WordSum(raw[..ipLen][10 := 0][11 := 0])
  {
    hide WordSum, Pending;
    ghost var h := raw[..ipLen][10 := 0][11 := 0];
    sum := 0;
    assert h[0..] == h;
    PendingEnds(h);
    WordSumBound(h);
    for i := 0 to ipLen
      invariant sum + Pending(h, i) == WordSum(h)
    {
      PendingStep(h, i);
      if i == 10 || i == 11 {
        continue;
      }
      var b := raw[i];
      sum := sum + Weighted(i, b);
    }
  }

  lemma PendingEnds(bs: Bytes)
    ensures Pending(bs, 0) == WordSum(bs) && Pending(bs, |bs|) == 0
  {
    assert bs[0..] == bs;
  }

  method FixIpv4Checksum(pkt: TcpPacket)
    requires pkt.Valid()
    modifies pkt`raw
    ensures pkt.Valid() && Ipv4Verifies(pkt.raw, pkt.ipHeaderLen) && Parse(pkt.raw) == Parse(old(pkt.raw))
    ensures |pkt.raw| == |old(pkt.raw)|
    ensures forall i | 0 <= i < |pkt.raw| && i != 10 && i != 11 :: pkt.raw[i] == old(pkt.raw)[i]
  {
    hide WordSum, Fold, Be16, Parse;
    var sum := Ipv4Sum(pkt.raw, pkt.ipHeaderLen);
    var folded := FoldSum(sum);
    var csum := Be16(ONES - folded);
    pkt.raw := pkt.raw[10 := csum[0]][11 := csum[1]];
    Ipv4FieldKeepsLayout(old(pkt.raw), csum[0], csum[1]);
    Ipv4FieldSum(old(pkt.raw), pkt.ipHeaderLen, csum[0], csum[1]);
    ComplementVerifies(sum);
  }

  lemma Ipv4FieldKeepsLayout(raw: Bytes, hi: Byte, lo: Byte)
    requires IsTcp(raw)
    ensures Parse(raw[10 := hi][11 := lo]) == Parse(raw)
  {
    hide FromBe16;
  }

  lemma Ipv4FieldSum(raw: Bytes, ipLen: nat, hi: Byte, lo: Byte)
    requires 12 <= ipLen <= |raw|
    ensures WordSum(raw[10 := hi][11 := lo][..ipLen]) == WordSum(raw[..ipLen][10 := 0][11 := 0]) + FromBe16(hi, lo)
  {
    hide WordSum;
    var h := raw[..ipLen][10 := 0][11 := 0];
    WordSumSet(h, 10, hi, lo);
    assert raw[10 := hi][11 := lo][..ipLen] == h[10 := hi][11 := lo];
  }

  // ---- Segments with a pseudo-header ----

  /** Addresses, protocol and length as they enter the transport checksum. */
  function PseudoSum(src: Bytes, dst: Bytes, protocol: Byte, len: nat): nat
  {
    WordSum(src) + WordSum(dst) + protocol + len
  }

  method AddressSum(a: Bytes) returns (sum: U32)
    requires |a| == 4
    ensures sum == WordSum(a) <= 2 * ONES
  {
    sum := 0;
    var i := 0;
    while i < 4
      invariant i % 2 == 0 && 0 <= i <= 4 && sum + WordSum(a[i..]) == WordSum(a)
    {
      sum := sum + FromBe16(a[i], a[i + 1]);
      assert a[i..][2..] == a[i + 2..];
      i := i + 2;
    }
    WordSumBound(a);
  }

  /** Adds a segment's words to a sum that is already there. */
  method SegmentSum(seg: Bytes, base: U32) returns (sum: U32)
    requires |seg| < TWO_16 && base <= 6 * ONES
    ensures sum == base + WordSum(seg)
  {
    hide WordSum;
    sum := base;
    WordSumBound(seg);
    PendingEnds(seg);
    var i := 0;
    while i < |seg|
      invariant 0 <= i <= |seg| + 1 && i % 2 == 0
      invariant sum + (if i <= |seg| then Pending(seg, i) else 0) == base + WordSum(seg)
    {
      var hi := seg[i];
      var lo := if i + 1 < |seg| then seg[i + 1] else 0;
      PendingStep(seg, i);
      if i + 1 < |seg| {
        PendingStep(seg, i + 1);
      }
      sum := sum + (256 * hi as int + lo as int);
      i := i + 2;
    }
  }

  predicate UdpVerifies(pkt: Bytes, src: Bytes, dst: Bytes, offset: nat, len: nat)
    requires offset + len <= |pkt|
  {
    Fold(PseudoSum(src, dst, 17, len) + WordSum(pkt[offset..offset + len])) == ONES
  }

  method FixUdpChecksum(pkt: array<Byte>, src: Bytes, dst: Bytes, offset: nat, len: nat)
    requires |src| == 4 && |dst| == 4 && len < TWO_16
    requires offset + 8 <= pkt.Length && offset + len <= pkt.Length
    modifies pkt
    ensures len >= 8 ==> UdpVerifies(pkt[..], src, dst, offset, len)
    ensures forall i | 0 <= i < pkt.Length && i != offset + 6 && i != offset + 7 :: pkt[i] == old(pkt[i])
  {
    hide WordSum, Fold, Be16;
    pkt[offset + 6], pkt[offset + 7] := 0, 0;
    var fromSum := AddressSum(src);
    var toSum := AddressSum(dst);
    var base: U32 := fromSum + toSum + 17 + len;
    ghost var zeroed: Bytes := pkt[..];
    var sum := SegmentSum(pkt[offset..offset + len], base);
    var folded := FoldSum(sum);
    var csum := Be16(ONES - folded);
    pkt[offset + 6], pkt[offset + 7] := csum[0], csum[1];
    if len >= 8 {
      ghost var seg: Bytes := zeroed[offset..offset + len];
      WordSumSet(seg, 6, csum[0], csum[1]);
      assert pkt[..][offset..offset + len] == seg[6 := csum[0]][7 := csum[1]];
      ComplementVerifies(sum);
    }
  }

  /** The sum a receiver checks: pseudo-header and segment both end at the IPv4 total length. */
  function TcpSum(raw: Bytes): nat
    requires IsTcp(raw)
  {
    var o, end := Parse(raw).value.ipLen, Parse(raw).value.totalLen;
    PseudoSum(SrcIp(raw), DstIp(raw), 6, end - o) + WordSum(raw[o..end])
  }

  predicate TcpVerifies(raw: Bytes)
    requires IsTcp(raw)
  {
    Whole(raw) && Fold(TcpSum(raw)) == ONES
  }

  /** What bytes add to a sum when an even or an odd number of bytes went before them. */
  function Share(bs: Bytes, odd: bool): nat
  {
    if !odd then WordSum(bs) else if |bs| == 0 then 0 else bs[0] + WordSum(bs[1..])
  }

  /** What the bytes after the IPv4 packet add to a sum over the whole buffer, their number included. */
  function TrailingShare(raw: Bytes): nat
    requires IsTcp(raw)
  {
    var o, end := Parse(raw).value.ipLen, Parse(raw).value.totalLen;
    |raw| - end + Share(raw[end..], (end - o) % 2 == 1)
  }

  lemma {:induction false} WordSumShare(a: Bytes, b: Bytes)
    ensures WordSum(a + b) == WordSum(a) + Share(b, |a| % 2 == 1)
  {
    if |a| == 0 {
      assert a + b == b;
    } else if |a| == 1 {
      if |b| == 0 {
        assert a + b == a;
      } else {
        assert (a + b)[2..] == b[1..];
      }
    } else {
      WordSumShare(a[2..], b);
      assert (a + b)[2..] == a[2..] + b;
    }
  }

  /** The sum over the buffer is the receiver's sum and the trailing bytes' share. */
  lemma BufferSum(raw: Bytes)
    requires IsTcp(raw)
    ensures
      var o := Parse(raw).value.ipLen;
      PseudoSum(SrcIp(raw), DstIp(raw), 6, |raw| - o) + WordSum(raw[o..]) == TcpSum(raw) + TrailingShare(raw)
  {
    hide WordSum, Parse, Share;
    var o, end := Parse(raw).value.ipLen, Parse(raw).value.totalLen;
    WordSumShare(raw[o..end], raw[end..]);
    assert raw[o..] == raw[o..end] + raw[end..];
  }

  lemma NothingTrails(raw: Bytes)
    requires IsTcp(raw) && Exact(raw)
    ensures Whole(raw) && TrailingShare(raw) == 0
  {
    hide Parse;
  }

  function TcpChecksumField(raw: Bytes): U16
    requires IsTcp(raw)
  {
    var o := Parse(raw).value.ipLen;
    FromBe16(raw[o + 16], raw[o + 17])
  }

  /**
   The sum covers the old field and whatever trails the packet in the buffer, so the result verifies only if
   these add up to a multiple of 0xffff: without trailing bytes, if the field was all zeros or all ones.
   */
  method FixTcpChecksum(pkt: TcpPacket)
    requires pkt.Valid() && |pkt.raw| < TWO_16
    modifies pkt`raw
    ensures pkt.Valid() && Ipv4Verifies(pkt.raw, pkt.ipHeaderLen) && Parse(pkt.raw) == Parse(old(pkt.raw))
    ensures TcpVerifies(pkt.raw) <==> Whole(old(pkt.raw)) && FieldCancels(old(pkt.raw))
    ensures Exact(old(pkt.raw)) ==>
      (TcpVerifies(pkt.raw) <==> TcpChecksumField(old(pkt.raw)) == 0 || TcpChecksumField(old(pkt.raw)) == ONES)
    ensures |pkt.raw| == |old(pkt.raw)|
    ensures
      var o := pkt.ipHeaderLen;
      forall i | 0 <= i < |pkt.raw| && i !in {10, 11, o + 16, o + 17} :: pkt.raw[i] == old(pkt.raw)[i]
  {
    hide WordSum, Fold, Be16, Parse, FromBe16, TcpSum, TrailingShare;
    BufferSum(pkt.raw);
    var fromSum := AddressSum(pkt.raw[12..16]);
    var toSum := AddressSum(pkt.raw[16..20]);
    var tcpLen := |pkt.raw| - pkt.ipHeaderLen;
    var base: U32 := fromSum + toSum + 6 + tcpLen;
    var sum := SegmentSum(pkt.raw[pkt.ipHeaderLen..], base);
    var folded := FoldSum(sum);
    var csum := Be16(ONES - folded);
    var at := pkt.ipHeaderLen + 16;
    pkt.raw := pkt.raw[at := csum[0]][at + 1 := csum[1]];
    FieldKeepsLayout(old(pkt.raw), csum[0], csum[1]);
    ghost var written := pkt.raw;
    FixIpv4Checksum(pkt);
    ghost var raw0 := old(pkt.raw);
    if Whole(raw0) {
      TcpSumAfter(raw0, written, pkt.raw, csum[0], csum[1]);
      StaleComplement(TcpSum(raw0) - TcpChecksumField(raw0), TcpChecksumField(raw0) + TrailingShare(raw0));
    }
    if Exact(raw0) {
      NothingTrails(raw0);
    }
  }

  /** Field and trailing bytes together vanish from a folded sum. */
  predicate FieldCancels(raw: Bytes)
    requires IsTcp(raw)
  {
    (TcpChecksumField(raw) + TrailingShare(raw)) % ONES == 0
  }

  /** A bare segment with a checksum field of `field`, and bytes that trail it. */
  function BareSegment(field: Byte, trailing: Bytes): (r: Bytes)
    ensures |r| == 40 + |trailing| && r[0] == 0x45 && r[2] == 0 && r[3] == 40 && r[9] == 6
    ensures r[32] == 0x50 && r[36] == 0 && r[37] == field && r[40..] == trailing
  {
    seq(40, i => if i == 0 then 0x45 else if i == 3 then 40 else if i == 9 then 6
                 else if i == 32 then 0x50 else if i == 37 then field else 0) + trailing
  }

  /** A stale field of 1 leaves a wrong checksum. */
  method FixStaleSegment() returns (out: Bytes)
    ensures IsTcp(out) && !TcpVerifies(out)
  {
    out := FixBareSegment(1, []);
    assert (1 + Share([], false)) % ONES != 0;
  }

  /** So do two trailing bytes, although the field was zero. */
  method FixTrailingSegment() returns (out: Bytes)
    ensures IsTcp(out) && !TcpVerifies(out)
  {
    assert WordSum([0, 1]) == 1 + WordSum([]);
    assert (2 + Share([0, 1], false)) % ONES != 0;
    out := FixBareSegment(0, [0, 1]);
  }

  method FixBareSegment(field: Byte, trailing: Bytes) returns (out: Bytes)
    requires |trailing| <= 2
    ensures IsTcp(out) && (TcpVerifies(out) <==> (field + |trailing| + Share(trailing, false)) % ONES == 0)
  {
    hide WordSum, Fold, TcpVerifies, BareSegment;
    var raw := BareSegment(field, trailing);
    assert Parse(raw) == Some(Layout(20, 40, 20));
    assert TcpChecksumField(raw) == field;
    var pkt := new TcpPacket(raw);
    FixTcpChecksum(pkt);
    out := pkt.raw;
  }

  lemma FieldKeepsLayout(raw: Bytes, hi: Byte, lo: Byte)
    requires IsTcp(raw)
    ensures
      var at := Parse(raw).value.ipLen + 16;
      Parse(raw[at := hi][at + 1 := lo]) == Parse(raw)
  {
    hide FromBe16;
  }

  /** The checked sum after both fields were written: the old sum with the TCP field exchanged. */
  lemma TcpSumAfter(raw: Bytes, written: Bytes, out: Bytes, hi: Byte, lo: Byte)
    requires IsTcp(raw) && IsTcp(out) && Parse(out) == Parse(raw) && |out| == |written| && Whole(raw)
    requires var at := Parse(raw).value.ipLen + 16; written == raw[at := hi][at + 1 := lo]
    requires forall i | 0 <= i < |out| && i != 10 && i != 11 :: out[i] == written[i]
    ensures TcpSum(out) + TcpChecksumField(raw) == TcpSum(raw) + FromBe16(hi, lo)
    ensures TcpChecksumField(raw) + 6 <= TcpSum(raw)
  {
    hide WordSum, Parse;
    var o, end := Parse(raw).value.ipLen, Parse(raw).value.totalLen;
    var seg: Bytes := raw[o..end];
    WordSumSet(seg, 16, hi, lo);
    WordSumSet(seg, 16, 0, 0);
    assert out[o..end] == seg[16 := hi][17 := lo];
    assert SrcIp(out) == SrcIp(raw) && DstIp(out) == DstIp(raw);
  }
}
