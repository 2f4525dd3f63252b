/**
 The bypass strategies and the profiles that select them. Whatever is applied, in whatever order, the
 packet stays the same segment of the same flow; only options, TTL, lengths and checksums move.
 */
module Strategies {
  import opened Wire
  import opened Packet
  import opened Checksum

  const SACK_PERMITTED: Byte := 4

  datatype Strategy = Mss(mss: U16) | StripSack | Ttl(ttl: Byte) | Noop

  predicate Sized(raw: Bytes)
  {
    IsTcp(raw) && |raw| < TWO_16
  }

  /** Options can be stripped without reading past the end of the packet. */
  predicate Steady(raw: Bytes)
  {
    Sized(raw) && Strippable(raw)
  }

  /** The strategies can run to the end on this packet: only stripping may fail, on a packet that is not steady. */
  predicate Runs(ss: seq<Strategy>, raw: Bytes)
  {
    Sized(raw) && (StripSack in ss ==> Steady(raw))
  }

  function Applied(s: Strategy, raw: Bytes): Bytes
    requires IsTcp(raw)
  {
    match s
    case Mss(mss) => MssSet(raw, mss)
    case StripSack => Stripped(raw, SACK_PERMITTED)
    case Ttl(ttl) => raw[8 := ttl]
    case Noop => raw
  }

  predicate Changes(s: Strategy, raw: Bytes)
    requires IsTcp(raw)
  {
    match s
    case Mss(_) => HasMss(ReadOptions(OptionArea(raw)).list)
    case StripSack => HasSack(raw)
    case Ttl(ttl) => raw[8] != ttl
    case Noop => false
  }

  predicate HasSack(raw: Bytes)
    requires IsTcp(raw)
  {
    HasKind(ReadOptions(OptionArea(raw)).list, SACK_PERMITTED)
  }

  /** Some option is stripped, so that the packet is rebuilt. */
  predicate Strips(ss: seq<Strategy>, raw: Bytes)
    requires IsTcp(raw)
  {
    StripSack in ss && HasSack(raw)
  }

  // ---- What reaches a receiver ----

  /**
   A rebuilt packet ends with its buffer, trailing bytes having become payload; otherwise a receiver takes
   the same payload as before, and the same bytes trail the packet.
   */
  predicate WireKept(raw: Bytes, out: Bytes, stripped: bool)
    requires IsTcp(raw) && IsTcp(out)
  {
    if stripped then Exact(out) && Whole(out) && WirePayload(out) == TcpPayload(raw)
    else
      && Whole(out) == Whole(raw) && Exact(out) == Exact(raw)
      && (Whole(raw) ==> WirePayload(out) == WirePayload(raw) && TrailingShare(out) == TrailingShare(raw))
  }

  lemma WireKeptTwice(raw: Bytes, mid: Bytes, out: Bytes, first: bool, second: bool)
    requires IsTcp(raw) && IsTcp(mid) && IsTcp(out) && TcpPayload(mid) == TcpPayload(raw)
    requires WireKept(raw, mid, first) && WireKept(mid, out, second)
    ensures WireKept(raw, out, first || second)
  {
    hide Parse, TrailingShare, TcpPayload;
  }

  /** A receiver takes the same payload exactly if nothing trailed a packet that was rebuilt. */
  lemma SameWireExactly(raw: Bytes, out: Bytes, stripped: bool)
    requires IsTcp(raw) && IsTcp(out) && WireKept(raw, out, stripped)
    ensures SameWire(raw, out) <==> Whole(raw) && (stripped ==> Exact(raw))
  {
    hide Parse, TrailingShare;
    if stripped && Whole(raw) && WirePayload(raw) == TcpPayload(raw) {
      assert |WirePayload(raw)| == |TcpPayload(raw)|;
    }
  }

  lemma TtlKeepsSegment(raw: Bytes, ttl: Byte)
    requires IsTcp(raw)
    ensures
      var out := raw[8 := ttl];
      && Parse(out) == Parse(raw) && SameSegment(raw, out) && OptionArea(out) == OptionArea(raw)
      && TcpChecksumField(out) == TcpChecksumField(raw) && WireKept(raw, out, false)
  {
    hide FromBe16, FromBe32, WordSum;
    var out := raw[8 := ttl];
    assert Parse(out) == Parse(raw);
    assert TcpPayload(out) == TcpPayload(raw) && OptionArea(out) == OptionArea(raw);
    assert Whole(raw) ==> WirePayload(out) == WirePayload(raw);
    assert out[Parse(raw).value.totalLen..] == raw[Parse(raw).value.totalLen..];
  }

  lemma MssKeepsWire(raw: Bytes, mss: U16)
    requires IsTcp(raw)
    ensures
      var out := MssSet(raw, mss);
      IsTcp(out) && WireKept(raw, out, false) && HasSack(out) == HasSack(raw)
  {
    hide Parse, MssSet, FromBe16, FromBe32, WordSum, ReadOptions, WithMss;
    MssIsSameSegment(raw, mss);
    var out, end := MssSet(raw, mss), Parse(raw).value.totalLen;
    if Whole(raw) {
      var skip := end - (Parse(raw).value.ipLen + Parse(raw).value.tcpLen);
      assert WirePayload(out) == TcpPayload(out)[..skip] && WirePayload(raw) == TcpPayload(raw)[..skip];
      assert out[end..] == TcpPayload(out)[skip..] && raw[end..] == TcpPayload(raw)[skip..];
    }
    WithMssKeepsKind(ReadOptions(OptionArea(raw)).list, mss, SACK_PERMITTED);
  }

  lemma {:induction false} WithMssKeepsKind(os: seq<TcpOption>, mss: U16, kind: Byte)
    ensures HasKind(WithMss(os, mss), kind) == HasKind(os, kind)
  {
    hide Be16, ValidOptions;
    if |os| > 0 {
      assert os == [os[0]] + os[1..];
      var out := WithMss(os, mss);
      assert out == [out[0]] + out[1..] && OfKind(out[0], kind) == OfKind(os[0], kind);
      if IsMss(os[0]) {
        assert out[1..] == os[1..];
      } else {
        WithMssKeepsKind(os[1..], mss, kind);
        assert out[1..] == WithMss(os[1..], mss);
      }
    }
  }

  lemma StripKeepsSegment(raw: Bytes, kind: Byte)
    requires Steady(raw)
    ensures
      var out := Stripped(raw, kind);
      && Steady(out) && SameSegment(raw, out) && TcpChecksumField(out) == TcpChecksumField(raw)
      && WireKept(raw, out, HasKind(ReadOptions(OptionArea(raw)).list, kind))
  {
    hide Parse, Rebuilt, KeptArea, ReadOptions, Low16, FromBe16, HasKind, TrailingShare, SameWire;
    var area := OptionArea(raw);
    if HasKind(ReadOptions(area).list, kind) {
      KeptFits(area, kind);
      var kept := KeptArea(area, kind);
      RebuiltIsSameSegment(raw, kept);
      RebuiltReparses(raw, kept);
      RebuiltWire(raw, kept);
      if !Dangling(ReadOptions(area).rest) {
        StripLeavesNoDangling(area, kind);
      }
    }
  }

  lemma StepKeepsSegment(s: Strategy, raw: Bytes)
    requires Runs([s], raw)
    ensures
      var out := Applied(s, raw);
      && Sized(out) && SameSegment(raw, out) && TcpChecksumField(out) == TcpChecksumField(raw)
      && WireKept(raw, out, Strips([s], raw)) && (!Strips([s], raw) ==> HasSack(out) == HasSack(raw))
      && (Steady(raw) ==> Steady(out)) && (s != StripSack ==> Steady(raw) == Steady(out))
  {
    hide Parse, ReadOptions, MssSet, Stripped, FromBe16, FromBe32, HasKind, TrailingShare;
    match s
    case Mss(mss) =>
      MssIsSameSegment(raw, mss);
      MssKeepsWire(raw, mss);
    case StripSack =>
      StripKeepsSegment(raw, SACK_PERMITTED);
      StripsNothing(raw);
    case Ttl(ttl) => TtlKeepsSegment(raw, ttl);
    case Noop =>
  }

  lemma StripsNothing(raw: Bytes)
    requires IsTcp(raw)
    ensures !HasSack(raw) ==> Stripped(raw, SACK_PERMITTED) == raw
  {
  }

  lemma RunsOn(ss: seq<Strategy>, raw: Bytes)
    requires Runs(ss, raw) && |ss| > 0
    ensures Runs([ss[0]], raw) && Runs(ss[1..], Applied(ss[0], raw))
  {
    hide Applied, Sized, Steady, WireKept, HasSack;
    assert ss[0] in ss;
    StepKeepsSegment(ss[0], raw);
  }

  /** Strategies in order. */
  function AppliedAll(ss: seq<Strategy>, raw: Bytes): Bytes
    requires Runs(ss, raw)
    decreases ss
  {
    if |ss| == 0 then raw
    else
      RunsOn(ss, raw);
      AppliedAll(ss[1..], Applied(ss[0], raw))
  }

  predicate AnyChanges(ss: seq<Strategy>, raw: Bytes)
    requires Runs(ss, raw)
    decreases ss
  {
    if |ss| == 0 then false
    else
      RunsOn(ss, raw);
      Changes(ss[0], raw) || AnyChanges(ss[1..], Applied(ss[0], raw))
  }

  /**
   Every sequence of strategies that runs to its end yields a packet that parses as the same segment. A
   receiver takes the same payload from it exactly if no option was stripped or nothing trailed the packet.
   */
  lemma {:induction false} StrategiesKeepSegment(ss: seq<Strategy>, raw: Bytes)
    requires Runs(ss, raw)
    ensures
      var out := AppliedAll(ss, raw);
      && Sized(out) && SameSegment(raw, out) && TcpChecksumField(out) == TcpChecksumField(raw)
      && WireKept(raw, out, Strips(ss, raw))
      && (SameWire(raw, out) <==> Whole(raw) && (Strips(ss, raw) ==> Exact(raw)))
    decreases ss
  {
    hide Applied, Parse, TcpChecksumField, ReadOptions, FromBe16, FromBe32, WireKept, HasSack, SameWire;
    if |ss| == 0 {
      NothingMoves(raw);
    } else {
      var mid := Applied(ss[0], raw);
      RunsOn(ss, raw);
      StepKeepsSegment(ss[0], raw);
      StrategiesKeepSegment(ss[1..], mid);
      WireKeptTwice(raw, mid, AppliedAll(ss, raw), Strips([ss[0]], raw), Strips(ss[1..], mid));
      assert StripSack in ss <==> StripSack in [ss[0]] || StripSack in ss[1..];
    }
    SameWireExactly(raw, AppliedAll(ss, raw), Strips(ss, raw));
  }

  lemma NothingMoves(raw: Bytes)
    requires IsTcp(raw)
    ensures WireKept(raw, raw, false)
  {
  }

  /** `inBounds` is false when the strategy reads past the end of the packet; the packet is then as it was. */
  method Apply(s: Strategy, pkt: TcpPacket) returns (inBounds: bool, changed: bool)
    requires pkt.Valid() && |pkt.raw| < TWO_16
    modifies pkt
    ensures inBounds <==> Runs([s], old(pkt.raw))
    ensures pkt.Valid() && (!inBounds ==> pkt.raw == old(pkt.raw))
    ensures inBounds ==> pkt.raw == Applied(s, old(pkt.raw)) && changed == Changes(s, old(pkt.raw))
  {
    hide Parse, ReadOptions, MssSet, Stripped, Strippable, KeptArea, RemovedBytes, WireKept;
    inBounds := true;
    match s
    case Mss(mss) => changed := pkt.SetMss(mss);
    case StripSack => inBounds, changed := pkt.StripOption(SACK_PERMITTED);
    case Ttl(ttl) =>
      TtlKeepsSegment(pkt.raw, ttl);
      if pkt.raw[8] != ttl {
        pkt.raw := pkt.raw[8 := ttl];
        changed := true;
      } else {
        assert pkt.raw[8 := ttl] == pkt.raw;
        changed := false;
      }
    case Noop => changed := false;
  }

  /**
   What may leave the engine in place of `raw`: the same segment with a valid IPv4 checksum. It says exactly
   when a receiver takes the same payload, and when it accepts the TCP checksum.
   */
  predicate GoodReplacement(raw: Bytes, out: Bytes, stripped: bool)
    requires IsTcp(raw)
  {
    && IsTcp(out) && SameSegment(raw, out) && Ipv4Verifies(out, Parse(out).value.ipLen)
    && (SameWire(raw, out) <==> Whole(raw) && (stripped ==> Exact(raw)))
    && (TcpVerifies(out) <==> if stripped then FieldIsNeutral(raw) else Whole(raw) && FieldCancels(raw))
  }

  predicate FieldIsNeutral(raw: Bytes)
    requires IsTcp(raw)
  {
    TcpChecksumField(raw) == 0 || TcpChecksumField(raw) == ONES
  }

  /** For a packet without trailing bytes it does not matter whether options were stripped. */
  lemma ExactReplacement(raw: Bytes, out: Bytes, stripped: bool)
    requires IsTcp(raw) && Exact(raw) && GoodReplacement(raw, out, stripped)
    ensures SameWire(raw, out) && (TcpVerifies(out) <==> FieldIsNeutral(raw))
  {
    hide Parse, TrailingShare, TcpVerifies, SameWire, Ipv4Verifies, TcpChecksumField, SameSegment;
    NothingTrails(raw);
  }

  /** The two packets agree outside the checksum fields. */
  predicate OnlyChecksums(raw: Bytes, out: Bytes)
    requires IsTcp(raw)
  {
    var o := Parse(raw).value.ipLen;
    |out| == |raw| && forall i | 0 <= i < |raw| && i !in {10, 11, o + 16, o + 17} :: out[i] == raw[i]
  }

  /** Recomputing both checksums moves nothing else. */
  method FixChecksums(pkt: TcpPacket)
    requires pkt.Valid() && |pkt.raw| < TWO_16
    modifies pkt`raw
    ensures pkt.Valid() && GoodReplacement(old(pkt.raw), pkt.raw, false) && OnlyChecksums(old(pkt.raw), pkt.raw)
  {
    hide Parse, FromBe16, FromBe32, Ipv4Verifies, TcpVerifies, TrailingShare;
    ghost var raw0 := pkt.raw;
    FixIpv4Checksum(pkt);
    SameTrailing(raw0, pkt.raw);
    FixTcpChecksum(pkt);
    assert SrcIp(pkt.raw) == SrcIp(raw0) && DstIp(pkt.raw) == DstIp(raw0);
    assert TcpPayload(pkt.raw) == TcpPayload(raw0);
    assert Whole(raw0) ==> WirePayload(pkt.raw) == WirePayload(raw0);
  }

  lemma SameTrailing(raw: Bytes, out: Bytes)
    requires IsTcp(raw) && IsTcp(out) && Parse(out) == Parse(raw) && |out| == |raw|
    requires forall i | 0 <= i < |raw| && i != 10 && i != 11 :: out[i] == raw[i]
    ensures TrailingShare(out) == TrailingShare(raw) && TcpChecksumField(out) == TcpChecksumField(raw)
  {
    hide Parse, FromBe16, WordSum;
    var end := Parse(raw).value.totalLen;
    assert out[end..] == raw[end..];
  }

  /** The strategies' effect on the wire and the fixers' effect on checksums, taken together. */
  lemma GoodThrough(raw: Bytes, applied: Bytes, out: Bytes, stripped: bool)
    requires IsTcp(raw) && IsTcp(applied) && SameSegment(raw, applied) && WireKept(raw, applied, stripped)
    requires TcpChecksumField(applied) == TcpChecksumField(raw) && GoodReplacement(applied, out, false)
    ensures GoodReplacement(raw, out, stripped)
  {
    hide Parse, FromBe16, FromBe32, TcpChecksumField, Ipv4Verifies, TcpVerifies, TrailingShare;
    SameWireExactly(raw, applied, stripped);
    if stripped {
      NothingTrails(applied);
    }
  }

  /** One strategy on a copy, with checksums: the copy's bytes if anything changed. */
  method Mutate(s: Strategy, pkt: TcpPacket) returns (inBounds: bool, out: Option<Bytes>)
    requires pkt.Valid() && |pkt.raw| < TWO_16
    ensures inBounds <==> Runs([s], pkt.raw)
    ensures inBounds ==> out.Some? == Changes(s, pkt.raw)
    ensures inBounds && out.Some? ==> GoodReplacement(pkt.raw, out.value, Strips([s], pkt.raw))
    ensures inBounds && out.Some? ==> IsTcp(Applied(s, pkt.raw)) && OnlyChecksums(Applied(s, pkt.raw), out.value)
  {
    hide Applied, OnlyChecksums, Parse, ReadOptions, FromBe16, FromBe32, TcpChecksumField, GoodReplacement, WireKept,
      HasSack;
    var copy := new TcpPacket(pkt.raw);
    var changed;
    inBounds, changed := Apply(s, copy);
    if !inBounds || !changed {
      return inBounds, None;
    }
    StepKeepsSegment(s, pkt.raw);
    ghost var applied := copy.raw;
    FixChecksums(copy);
    GoodThrough(pkt.raw, applied, copy.raw, Strips([s], pkt.raw));
    out := Some(copy.raw);
  }

  // ---- Profiles ----

  datatype Profile = Profile(domains: seq<Bytes>, strategies: seq<Strategy>)

  predicate Under(host: Bytes, domain: Bytes)
  {
    host == domain || (|domain| < |host| && host[|host| - |domain| - 1..] == [DOT] + domain)
  }

  predicate MatchesHost(p: Profile, host: Bytes)
  {
    exists d <- p.domains :: Under(Lower(TrimDots(host)), Lower(TrimDots(d)))
  }

  predicate Specific(p: Profile, host: Bytes)
  {
    p.domains != [] && MatchesHost(p, host)
  }

  function FirstSpecific(ps: seq<Profile>, host: Bytes): Option<Profile>
  {
    if |ps| == 0 then None else if Specific(ps[0], host) then Some(ps[0]) else FirstSpecific(ps[1..], host)
  }

  function FirstCatchAll(ps: seq<Profile>): Option<Profile>
  {
    if |ps| == 0 then None else if ps[0].domains == [] then Some(ps[0]) else FirstCatchAll(ps[1..])
  }

  function ProfileFor(ps: seq<Profile>, host: Bytes): Option<Profile>
  {
    var specific := FirstSpecific(ps, host);
    if specific.Some? then specific else FirstCatchAll(ps)
  }

  /** A catch-all profile placed anywhere never shadows a specific one. */
  lemma CatchAllNeverShadows(before: seq<Profile>, p: Profile, after: seq<Profile>, host: Bytes)
    requires p.domains == [] && exists q <- before + after :: Specific(q, host)
    ensures ProfileFor(before + [p] + after, host) == ProfileFor(before + after, host)
    ensures ProfileFor(before + after, host).Some? && Specific(ProfileFor(before + after, host).value, host)
  {
    hide MatchesHost;
    SpecificFound(before + after, host);
    SpecificSkips(before, p, after, host);
  }

  lemma {:induction false} SpecificFound(ps: seq<Profile>, host: Bytes)
    requires exists q <- ps :: Specific(q, host)
    ensures FirstSpecific(ps, host).Some? && Specific(FirstSpecific(ps, host).value, host)
  {
    hide MatchesHost;
    assert ps == [ps[0]] + ps[1..];
    if !Specific(ps[0], host) {
      SpecificFound(ps[1..], host);
    }
  }

  lemma {:induction false} SpecificSkips(before: seq<Profile>, p: Profile, after: seq<Profile>, host: Bytes)
    requires p.domains == []
    ensures FirstSpecific(before + [p] + after, host) == FirstSpecific(before + after, host)
  {
    hide MatchesHost;
    if |before| == 0 {
      assert (before + [p] + after)[1..] == after && before + after == after;
    } else {
      SpecificSkips(before[1..], p, after, host);
      assert (before + [p] + after)[1..] == before[1..] + [p] + after;
      assert (before + after)[1..] == before[1..] + after;
    }
  }
}
