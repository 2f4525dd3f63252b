/**
 The interception loop. Queue messages, the clock, send results and what the strategy sets answer are
 inputs; a failed index is a panic that ends the loop. Every packet before that gets exactly one verdict
 under its own id, and the counters balance.
 */
module Engine {
  import opened Wire
  import opened Packet
  import opened TlsSni
  import ClientHello
  import opened Strategies
  import opened Reassembly

  const MAX_PAYLOAD := 65531

  /** What the strategy sets of the moment would answer for the identified host. */
  datatype SetAnswer = Untouched | Mutated(bytes: Bytes) | Dropped

  /** `sent` is whether the verdict will reach the kernel, `fakes` whether some set wants UDP faking. */
  datatype Event =
    | ReceiveError
    | NotAPacket
    | Received(id: U32, payload: Option<Bytes>, now: int, setMatch: Option<SetAnswer>, fakes: bool, sent: bool)

  datatype Verdict = Verdict(id: U32, accept: bool, replacement: Option<Bytes>)
  datatype Stats = Stats(seen: nat, tls: nat, mutated: nat, dropped: nat, accepted: nat, errors: nat)
  datatype Config = Config(profiles: seq<Profile>, ports: seq<U16>, udpPorts: seq<U16>, limits: Limits)

  predicate Deliverable(e: Event)
  {
    e.Received? && e.payload.Some? ==> |e.payload.value| <= MAX_PAYLOAD
  }

  // ---- What happens to a packet ----

  /** The protocol byte; a nine-byte IPv4 packet is indexed past its end. */
  function Protocol(p: Bytes): Option<Byte>
  {
    if |p| >= 9 && p[0] / 16 == 4 then (if |p| == 9 then None else Some(p[9]))
    else if |p| >= 8 && p[0] / 16 == 6 then Some(p[7])
    else Some(0)
  }

  /** Destination port of a well-formed IPv4/UDP packet. */
  function UdpPort(raw: Bytes): Option<U16>
  {
    if |raw| < 20 || raw[0] / 16 != 4 then None
    else
      var o := raw[0] % 16 * 4;
      if o < 20 || |raw| < o || raw[9] != 17 then None
      else
        var total := FromBe16(raw[2], raw[3]);
        if total < o || |raw| < total || |raw| < o + 8 then None
        else
          var len := FromBe16(raw[o + 4], raw[o + 5]);
          if len < 8 || |raw| < o + len then None else Some(FromBe16(raw[o + 2], raw[o + 3]))
  }

  /** The engine's "FIN or RST" mask, 0x11. */
  predicate Terminal(flags: Byte)
  {
    flags % 2 == 1 || flags / 16 % 2 == 1
  }

  function FlowOf(raw: Bytes): FlowKey
    requires IsTcp(raw)
  {
    FlowKey(FromBe32(raw[12], raw[13], raw[14], raw[15]), FromBe32(raw[16], raw[17], raw[18], raw[19]),
            SrcPort(raw), DstPort(raw))
  }

  function SegmentOf(raw: Bytes, now: int): Segment
    requires IsTcp(raw)
  {
    Segment(FlowOf(raw), TcpSeq(raw), TcpPayload(raw), Terminal(TcpFlags(raw)), now)
  }

  /** The reassembler's answer, or else what this packet alone names. */
  function HostOf(lim: Limits, st: State, raw: Bytes, now: int): Option<Bytes>
    requires IsTcp(raw) && |raw| <= MAX_PAYLOAD
  {
    var answer := Feed(lim, st, SegmentOf(raw, now)).1;
    if answer.Some? then answer else ExtractSni(TcpPayload(raw))
  }

  function FirstActiveCatchAll(ps: seq<Profile>): Option<Profile>
  {
    if |ps| == 0 then None
    else if ps[0].domains == [] && ps[0].strategies != [] then Some(ps[0])
    else FirstActiveCatchAll(ps[1..])
  }

  /** By host; a SYN without a match falls back to a catch-all that has strategies. */
  function Choose(ps: seq<Profile>, host: Option<Bytes>, flags: Byte): Option<Profile>
  {
    var byHost := if host.Some? then ProfileFor(ps, host.value) else None;
    if byHost.Some? then byHost
    else if flags / 2 % 2 == 1 then FirstActiveCatchAll(ps)
    else None
  }

  /** `stripped` is whether the rewriting took an option out. */
  datatype Action = AsIs | Replace(bytes: Bytes) | Discard | Rewrite(bytes: Bytes, stripped: bool) | Panic

  function Judge(cfg: Config, host: Option<Bytes>, raw: Bytes, setMatch: Option<SetAnswer>): Action
    requires IsTcp(raw)
  {
    if host.Some? && setMatch.Some? then
      match setMatch.value
      case Untouched => AsIs
      case Mutated(bytes) => Replace(bytes)
      case Dropped => Discard
    else match Choose(cfg.profiles, host, TcpFlags(raw))
      case None => AsIs
      case Some(p) =>
        if !Runs(p.strategies, raw) then Panic
        else if AnyChanges(p.strategies, raw) then Rewrite(AppliedAll(p.strategies, raw), Strips(p.strategies, raw))
        else AsIs
  }

  /** A TCP packet to an intercepted port: the only packets that reach the reassembler. */
  predicate Inspected(cfg: Config, p: Bytes)
  {
    Protocol(p).Some? && Protocol(p) != Some(17) && IsTcp(p) && DstPort(p) in cfg.ports
  }

  function ActionFor(cfg: Config, st: State, e: Event): Action
    requires e.Received? && Deliverable(e)
  {
    if e.payload.None? then AsIs
    else if Protocol(e.payload.value).None? then Panic
    else if !Inspected(cfg, e.payload.value) then AsIs
    else Judge(cfg, HostOf(cfg.limits, st, e.payload.value, e.now), e.payload.value, e.setMatch)
  }

  function TableAfter(cfg: Config, st: State, e: Event): State
    requires Deliverable(e)
  {
    if e.Received? && e.payload.Some? && Inspected(cfg, e.payload.value)
    then Feed(cfg.limits, st, SegmentOf(e.payload.value, e.now)).0
    else st
  }

  /** A UDP packet that is counted as decided for faking although it is passed on as it is. */
  predicate DecidedForFaking(cfg: Config, e: Event)
  {
    && e.Received? && e.payload.Some? && e.fakes
    && Protocol(e.payload.value) == Some(17)
    && UdpPort(e.payload.value).Some? && UdpPort(e.payload.value).value in cfg.udpPorts
  }

  /** The verdict an action calls for; a rewritten packet is a good replacement up to its checksum fields. */
  ghost predicate Carries(v: Verdict, e: Event, a: Action)
    requires e.Received?
  {
    v.id == e.id &&
    match a
    case AsIs => v.accept && v.replacement == None
    case Replace(bytes) => v.accept && v.replacement == Some(bytes)
    case Discard => !v.accept && v.replacement == None
    case Rewrite(bytes, stripped) =>
      && v.accept && v.replacement.Some? && e.payload.Some? && IsTcp(e.payload.value) && IsTcp(bytes)
      && GoodReplacement(e.payload.value, v.replacement.value, stripped) && OnlyChecksums(bytes, v.replacement.value)
    case Panic => false
  }

  /** How an action moves the counters; `lost` is whether a failed send is counted. */
  function Counted(s: Stats, a: Action, faked: bool, lost: bool): Stats
  {
    var t := if lost && !a.Discard? && !a.Panic? then s.(errors := s.errors + 1) else s;
    match a
    case AsIs => t.(accepted := s.accepted + 1, mutated := s.mutated + if faked then 1 else 0)
    case Replace(_) => t.(mutated := s.mutated + 1)
    case Rewrite(_, _) => t.(mutated := s.mutated + 1)
    case Discard => t.(dropped := s.dropped + 1)
    case Panic => t
  }

  predicate IsUdp(e: Event)
  {
    e.Received? && e.payload.Some? && Protocol(e.payload.value) == Some(17)
  }

  /** Whether the event is a packet whose host gets identified. */
  predicate Identified(cfg: Config, st: State, e: Event)
    requires Deliverable(e)
  {
    && e.Received? && e.payload.Some? && Inspected(cfg, e.payload.value)
    && HostOf(cfg.limits, st, e.payload.value, e.now).Some?
  }

  /** All counters after one event. A failed send of a UDP verdict is not counted. */
  function StatsAfter(cfg: Config, st: State, s: Stats, e: Event): Stats
    requires Deliverable(e)
  {
    if !e.Received? then s.(errors := s.errors + 1)
    else
      var t := s.(seen := s.seen + 1, tls := s.tls + if Identified(cfg, st, e) then 1 else 0);
      Counted(t, ActionFor(cfg, st, e), DecidedForFaking(cfg, e), !e.sent && !IsUdp(e))
  }

  class Engine {
    const config: Config
    const reassembler: TcpReassembler
    var stats: Stats
    var log: seq<Verdict>

    ghost predicate Valid()
    {
      reassembler.limits == config.limits
    }

    constructor (config: Config)
      ensures Valid() && fresh(reassembler) && reassembler.Table() == State(map[], 0)
      ensures this.config == config && stats == Stats(0, 0, 0, 0, 0, 0) && log == []
    {
      this.config := config;
      var r := new TcpReassembler(config.limits);
      reassembler := r;
      stats := Stats(0, 0, 0, 0, 0, 0);
      log := [];
    }

    /** Send a verdict; most paths count a failed send as an error. */
    method Send(v: Verdict, sent: bool, countErrors: bool)
      modifies this`stats, this`log
      ensures log == old(log) + [v]
      ensures stats == old(stats).(errors := old(stats).errors + if !sent && countErrors then 1 else 0)
    {
      log := log + [v];
      if !sent && countErrors {
        stats := stats.(errors := stats.errors + 1);
      }
    }

    method Accept(e: Event, countErrors: bool)
      requires e.Received?
      modifies this`stats, this`log
      ensures log == old(log) + [Verdict(e.id, true, None)]
      ensures stats == Counted(old(stats), AsIs, false, !e.sent && countErrors)
    {
      stats := stats.(accepted := stats.accepted + 1);
      Send(Verdict(e.id, true, None), e.sent, countErrors);
    }

    /** One packet. `ok` is false when processing it fails on an index and the loop dies. */
    method Process(e: Event) returns (ok: bool)
      requires Valid() && e.Received? && Deliverable(e)
      modifies this`stats, this`log, reassembler
      ensures
        var a := ActionFor(config, old(reassembler.Table()), e);
        && ok == !a.Panic?
        && (ok ==> exists v :: log == old(log) + [v] && Carries(v, e, a))
        && (!ok ==> log == old(log))
        && stats == StatsAfter(config, old(reassembler.Table()), old(stats), e)
        && reassembler.Table() == TableAfter(config, old(reassembler.Table()), e)
    {
      hide Feed, HostOf, Judge, UdpPort, Parse, SegmentOf;
      stats := stats.(seen := stats.seen + 1);
      if e.payload.None? {
        Accept(e, true);
        assert Carries(Verdict(e.id, true, None), e, AsIs);
        return true;
      }
      var payload := e.payload.value;
      var proto := Protocol(payload);
      if proto.None? {
        return false;
      }
      if proto.value == 17 {
        HandleUdp(e);
        assert Carries(Verdict(e.id, true, None), e, AsIs);
        return true;
      }
      if !IsTcp(payload) || DstPort(payload) !in config.ports {
        Accept(e, true);
        assert Carries(Verdict(e.id, true, None), e, AsIs);
        return true;
      }
      ok := Inspect(e, payload);
    }

    /** Identify the host from the stream so far, then decide. */
    method Inspect(e: Event, payload: Bytes) returns (ok: bool)
      requires Valid() && e.Received? && e.payload == Some(payload) && IsTcp(payload) && |payload| <= MAX_PAYLOAD
      modifies this`stats, this`log, reassembler
      ensures
        var host := HostOf(config.limits, old(reassembler.Table()), payload, e.now);
        var a := Judge(config, host, payload, e.setMatch);
        && ok == !a.Panic?
        && (ok ==> exists v :: log == old(log) + [v] && Carries(v, e, a))
        && (!ok ==> log == old(log))
        && stats == Counted(old(stats).(tls := old(stats).tls + if host.Some? then 1 else 0), a, false, !e.sent)
        && reassembler.Table() == Feed(config.limits, old(reassembler.Table()), SegmentOf(payload, e.now)).0
    {
      hide Feed, ExtractSni, Judge, Parse, Carries;
      var host := reassembler.FeedSegment(SegmentOf(payload, e.now));
      if host.None? {
        host := ExtractTlsSni(TcpPayload(payload));
      }
      if host.Some? {
        stats := stats.(tls := stats.tls + 1);
      }
      ok := Decide(e, payload, host);
    }

    method HandleUdp(e: Event)
      requires e.Received? && e.payload.Some? && Protocol(e.payload.value) == Some(17)
      modifies this`stats, this`log
      ensures log == old(log) + [Verdict(e.id, true, None)]
      ensures stats == Counted(old(stats), AsIs, DecidedForFaking(config, e), false)
    {
      hide UdpPort;
      var port := UdpPort(e.payload.value);
      if port.Some? && port.value in config.udpPorts && e.fakes {
        stats := stats.(mutated := stats.mutated + 1);
      }
      Accept(e, false);
    }

    /** The sets first, then the profile chosen for the host or, on a SYN, the catch-all. */
    method Decide(e: Event, payload: Bytes, host: Option<Bytes>) returns (ok: bool)
      requires e.Received? && e.payload == Some(payload) && IsTcp(payload) && |payload| <= MAX_PAYLOAD
      modifies this`stats, this`log
      ensures
        var a := Judge(config, host, payload, e.setMatch);
        && ok == !a.Panic?
        && (ok ==> exists v :: log == old(log) + [v] && Carries(v, e, a))
        && (!ok ==> log == old(log))
        && stats == Counted(old(stats), a, false, !e.sent)
    {
      hide Parse, ProfileFor, AnyChanges, AppliedAll, GoodReplacement, OnlyChecksums;
      if host.Some? && e.setMatch.Some? {
        ok := true;
        match e.setMatch.value
        case Mutated(bytes) =>
          stats := stats.(mutated := stats.mutated + 1);
          Send(Verdict(e.id, true, Some(bytes)), e.sent, true);
          assert Carries(Verdict(e.id, true, Some(bytes)), e, Replace(bytes));
        case Dropped =>
          stats := stats.(dropped := stats.dropped + 1);
          Send(Verdict(e.id, false, None), e.sent, false);
          assert Carries(Verdict(e.id, false, None), e, Discard);
        case Untouched =>
          Accept(e, true);
          assert Carries(Verdict(e.id, true, None), e, AsIs);
      } else {
        ok := DecideByProfile(e, payload, host);
      }
    }

    method DecideByProfile(e: Event, payload: Bytes, host: Option<Bytes>) returns (ok: bool)
      requires e.Received? && e.payload == Some(payload) && IsTcp(payload) && |payload| <= MAX_PAYLOAD
      requires host.None? || e.setMatch.None?
      modifies this`stats, this`log
      ensures
        var a := Judge(config, host, payload, e.setMatch);
        && ok == !a.Panic?
        && (ok ==> exists v :: log == old(log) + [v] && Carries(v, e, a))
        && (!ok ==> log == old(log))
        && stats == Counted(old(stats), a, false, !e.sent)
    {
      hide Parse, ProfileFor, AnyChanges, AppliedAll, GoodReplacement, OnlyChecksums, Strips, Steady;
      var profile := Choose(config.profiles, host, TcpFlags(payload));
      if profile.None? {
        Accept(e, true);
        assert Carries(Verdict(e.id, true, None), e, AsIs);
        return true;
      }
      var strategies := profile.value.strategies;
      var out;
      ok, out := ApplyProfile(strategies, payload);
      if !ok {
        return;
      }
      match out
      case None =>
        Accept(e, true);
        assert Carries(Verdict(e.id, true, None), e, AsIs);
      case Some(bytes) =>
        stats := stats.(mutated := stats.mutated + 1);
        var v := Verdict(e.id, true, Some(bytes));
        Send(v, e.sent, true);
        StrategiesKeepSegment(strategies, payload);
        assert Carries(v, e, Rewrite(AppliedAll(strategies, payload), Strips(strategies, payload)));
    }
  }

  /**
   The profile's strategies in order on a copy; the new bytes if any of them changed something. `inBounds` is
   false when one of them read past the end of the packet.
   */
  method ApplyProfile(strategies: seq<Strategy>, payload: Bytes) returns (inBounds: bool, out: Option<Bytes>)
    requires Sized(payload)
    ensures inBounds <==> Runs(strategies, payload)
    ensures inBounds ==> out.Some? == AnyChanges(strategies, payload)
    ensures inBounds && out.Some? ==>
      var applied := AppliedAll(strategies, payload);
      && IsTcp(applied) && OnlyChecksums(applied, out.value)
      && GoodReplacement(payload, out.value, Strips(strategies, payload))
  {
    hide Applied, Changes, Parse, Steady, GoodReplacement, OnlyChecksums, WireKept, HasSack;
    var copy := new TcpPacket(payload);
    var changed := false;
    var i := 0;
    assert strategies[0..] == strategies;
    while i < |strategies|
      invariant 0 <= i <= |strategies| && copy.Valid() && fresh(copy) && Sized(copy.raw)
      invariant SteadySoFar(strategies, i, payload, copy.raw)
      invariant Runs(strategies, payload) ==>
        && Runs(strategies[i..], copy.raw)
        && AppliedAll(strategies[i..], copy.raw) == AppliedAll(strategies, payload)
        && (changed || AnyChanges(strategies[i..], copy.raw)) == AnyChanges(strategies, payload)
    {
      ghost var was := copy.raw;
      if Runs(strategies, payload) {
        RunsOn(strategies[i..], was);
      }
      assert strategies[i..][1..] == strategies[i + 1..];
      var one;
      inBounds, one := Apply(strategies[i], copy);
      if !inBounds {
        assert strategies[i] in strategies;
        return false, None;
      }
      StepKeepsSegment(strategies[i], was);
      if one {
        changed := true;
      }
      i := i + 1;
    }
    assert strategies[..i] == strategies;
    inBounds := true;
    if !changed {
      return true, None;
    }
    StrategiesKeepSegment(strategies, payload);
    ghost var applied := copy.raw;
    FixChecksums(copy);
    out := Some(copy.raw);
    GoodThrough(payload, applied, copy.raw, Strips(strategies, payload));
  }

  /** A steady packet stays steady, and stripping got this far only on one. */
  predicate SteadySoFar(strategies: seq<Strategy>, i: nat, payload: Bytes, raw: Bytes)
    requires i <= |strategies|
  {
    && (Steady(payload) ==> Steady(raw))
    && (if StripSack in strategies[..i] then Steady(payload) else Steady(raw) == Steady(payload))
  }

  // ---- The loop ----

  /** The packets among the events, in order. */
  function Packets(es: seq<Event>): (r: seq<Event>)
    ensures forall e <- r :: e.Received? && e in es
  {
    if |es| == 0 then []
    else
      var n := |es| - 1;
      assert es == es[..n] + [es[n]];
      if es[n].Received? then Packets(es[..n]) + [es[n]] else Packets(es[..n])
  }

  /** The flow table after all events. */
  function TableOver(cfg: Config, es: seq<Event>): State
    requires forall e <- es :: Deliverable(e)
  {
    if |es| == 0 then State(map[], 0)
    else
      assert es[|es| - 1] in es;
      TableAfter(cfg, TableOver(cfg, es[..|es| - 1]), es[|es| - 1])
  }

  function StatsOver(cfg: Config, es: seq<Event>): Stats
    requires forall e <- es :: Deliverable(e)
  {
    if |es| == 0 then Stats(0, 0, 0, 0, 0, 0)
    else
      var n := |es| - 1;
      assert es[n] in es;
      StatsAfter(cfg, TableOver(cfg, es[..n]), StatsOver(cfg, es[..n]), es[n])
  }

  /** What must happen to each packet, in order, given everything received before it. */
  function Actions(cfg: Config, es: seq<Event>): (r: seq<Action>)
    requires forall e <- es :: Deliverable(e)
    ensures |r| == |Packets(es)|
  {
    if |es| == 0 then []
    else
      var n := |es| - 1;
      assert es[n] in es;
      var before := Actions(cfg, es[..n]);
      if es[n].Received? then before + [ActionFor(cfg, TableOver(cfg, es[..n]), es[n])] else before
  }

  /** One verdict per packet, in order, each the one its action calls for. */
  ghost predicate Answered(log: seq<Verdict>, packets: seq<Event>, actions: seq<Action>)
    requires |actions| == |packets| && forall e <- packets :: e.Received?
  {
    |log| == |packets| && forall i | 0 <= i < |log| :: Carries(log[i], packets[i], actions[i])
  }

  /**
   Runs until the events are used up or a packet fails on an index; `done` events were processed before
   that. Each packet among them has exactly one verdict, in order, under its own id.
   */
  method InterceptionLoop(config: Config, events: seq<Event>) returns (engine: Engine, done: nat, panicked: bool)
    requires forall e <- events :: Deliverable(e)
    ensures fresh(engine) && done <= |events|
    ensures panicked <==> done < |events|
    ensures Answered(engine.log, Packets(events[..done]), Actions(config, events[..done]))
    ensures engine.stats == StatsOver(config, events[..if panicked then done + 1 else done])
    ensures panicked ==>
      events[done].Received? && ActionFor(config, TableOver(config, events[..done]), events[done]).Panic?
  {
    hide ActionFor, TableAfter, StatsAfter, Carries;
    engine := new Engine(config);
    done, panicked := 0, false;
    while done < |events|
      invariant done <= |events| && fresh(engine) && fresh(engine.reassembler)
      invariant engine.Valid() && engine.config == config
      invariant engine.reassembler.Table() == TableOver(config, events[..done])
      invariant Answered(engine.log, Packets(events[..done]), Actions(config, events[..done]))
      invariant engine.stats == StatsOver(config, events[..done])
    {
      var e := events[done];
      assert events[..done + 1][..done] == events[..done];
      assert e in events;
      if !e.Received? {
        NoPacket(config, engine.reassembler.Table(), engine.stats, e);
        engine.stats := engine.stats.(errors := engine.stats.errors + 1);
      } else {
        var ok := engine.Process(e);
        if !ok {
          panicked := true;
          return;
        }
      }
      done := done + 1;
    }
  }

  lemma NoPacket(cfg: Config, st: State, s: Stats, e: Event)
    requires !e.Received?
    ensures Deliverable(e) && TableAfter(cfg, st, e) == st && StatsAfter(cfg, st, s, e) == s.(errors := s.errors + 1)
  {
  }

  // ---- What a run guarantees ----

  function Faked(cfg: Config, es: seq<Event>): nat
  {
    if |es| == 0 then 0
    else Faked(cfg, es[..|es| - 1]) + if DecidedForFaking(cfg, es[|es| - 1]) then 1 else 0
  }

  function Discards(actions: seq<Action>): nat
  {
    if |actions| == 0 then 0
    else Discards(actions[..|actions| - 1]) + if actions[|actions| - 1].Discard? then 1 else 0
  }

  /** Every packet is counted once as accepted, mutated or dropped, except that a faked one counts twice. */
  lemma {:induction false} CountersBalance(cfg: Config, es: seq<Event>)
    requires forall e <- es :: Deliverable(e)
    requires forall a <- Actions(cfg, es) :: !a.Panic?
    ensures
      var s := StatsOver(cfg, es);
      && s.seen == |Packets(es)|
      && s.accepted + s.mutated + s.dropped == s.seen + Faked(cfg, es)
      && s.dropped == Discards(Actions(cfg, es))
      && s.tls <= s.seen
      && |es| - s.seen <= s.errors <= |es|
  {
    hide ActionFor, TableAfter, StatsAfter, DecidedForFaking;
    if |es| > 0 {
      var n := |es| - 1;
      var before, after := Actions(cfg, es[..n]), Actions(cfg, es);
      assert es[n] in es;
      if es[n].Received? {
        assert after[..|before|] == before;
        assert after[|before|] in after;
        assert forall a <- before :: a in after;
      }
      CountersBalance(cfg, es[..n]);
      StepBalances(cfg, TableOver(cfg, es[..n]), StatsOver(cfg, es[..n]), es[n]);
    }
  }

  lemma StepBalances(cfg: Config, st: State, s: Stats, e: Event)
    requires Deliverable(e) && (e.Received? ==> !ActionFor(cfg, st, e).Panic?)
    ensures
      var t, packet := StatsAfter(cfg, st, s, e), if e.Received? then 1 else 0;
      && t.seen == s.seen + packet
      && t.accepted + t.mutated + t.dropped ==
         s.accepted + s.mutated + s.dropped + packet + (if DecidedForFaking(cfg, e) then 1 else 0)
      && t.dropped == s.dropped + (if e.Received? && ActionFor(cfg, st, e).Discard? then 1 else 0)
      && s.tls <= t.tls <= s.tls + packet
      && s.errors + 1 - packet <= t.errors <= s.errors + 1
  {
    hide ActionFor, DecidedForFaking;
    if DecidedForFaking(cfg, e) {
      FakedPassesOn(cfg, st, e);
    } else if !e.Received? {
      NoPacket(cfg, st, s, e);
    }
  }

  lemma FakedPassesOn(cfg: Config, st: State, e: Event)
    requires Deliverable(e) && DecidedForFaking(cfg, e)
    ensures e.Received? && ActionFor(cfg, st, e) == AsIs
  {
  }

  /** A verdict that is safe for its packet whatever was received before. */
  ghost predicate SafeVerdict(cfg: Config, v: Verdict, e: Event)
    requires e.Received?
  {
    && v.id == e.id
    && (!v.accept ==> e.setMatch == Some(Dropped) && v.replacement == None)
    && (v.replacement.Some? ==>
          || e.setMatch == Some(Mutated(v.replacement.value))
          || (e.payload.Some? && IsTcp(e.payload.value) && MadeByProfile(cfg, e.payload.value, v.replacement.value)))
  }

  /** Some configured profile's strategies turn the packet into a good replacement. */
  ghost predicate MadeByProfile(cfg: Config, raw: Bytes, out: Bytes)
    requires IsTcp(raw)
  {
    exists p <- cfg.profiles :: GoodReplacement(raw, out, Strips(p.strategies, raw))
  }

  lemma {:induction false} CatchAllIsMember(ps: seq<Profile>)
    ensures FirstActiveCatchAll(ps).Some? ==> FirstActiveCatchAll(ps).value in ps
    ensures FirstCatchAll(ps).Some? ==> FirstCatchAll(ps).value in ps
  {
    if |ps| > 0 {
      CatchAllIsMember(ps[1..]);
    }
  }

  lemma {:induction false} SpecificIsMember(ps: seq<Profile>, host: Bytes)
    ensures FirstSpecific(ps, host).Some? ==> FirstSpecific(ps, host).value in ps
  {
    hide MatchesHost;
    if |ps| > 0 {
      SpecificIsMember(ps[1..], host);
    }
  }

  lemma ChosenIsMember(ps: seq<Profile>, host: Option<Bytes>, flags: Byte)
    ensures Choose(ps, host, flags).Some? ==> Choose(ps, host, flags).value in ps
  {
    hide FirstSpecific, FirstCatchAll, FirstActiveCatchAll;
    CatchAllIsMember(ps);
    if host.Some? {
      SpecificIsMember(ps, host.value);
    }
  }

  /**
   In every run a packet is dropped only when its set says so, and altered only by its set or, by the
   strategies of a configured profile, into a good replacement of itself.
   */
  lemma {:induction false} VerdictsAreSafe(cfg: Config, es: seq<Event>, log: seq<Verdict>)
    requires forall e <- es :: Deliverable(e)
    requires Answered(log, Packets(es), Actions(cfg, es))
    ensures forall i | 0 <= i < |log| :: SafeVerdict(cfg, log[i], Packets(es)[i])
  {
    hide ActionFor, TableOver, SafeVerdict, Carries;
    if |es| > 0 {
      var n := |es| - 1;
      assert es[n] in es;
      if es[n].Received? {
        var m := |log| - 1;
        assert Answered(log[..m], Packets(es[..n]), Actions(cfg, es[..n]));
        VerdictsAreSafe(cfg, es[..n], log[..m]);
        CarriedIsSafe(cfg, TableOver(cfg, es[..n]), es[n], log[m]);
      } else {
        VerdictsAreSafe(cfg, es[..n], log);
      }
    }
  }

  lemma CarriedIsSafe(cfg: Config, st: State, e: Event, v: Verdict)
    requires e.Received? && Deliverable(e) && Carries(v, e, ActionFor(cfg, st, e))
    ensures SafeVerdict(cfg, v, e)
  {
    hide HostOf, Choose, Runs, AnyChanges, AppliedAll, GoodReplacement, Parse, Strips;
    if e.payload.Some? && Inspected(cfg, e.payload.value) {
      var raw := e.payload.value;
      ChosenIsMember(cfg.profiles, HostOf(cfg.limits, st, raw, e.now), TcpFlags(raw));
    }
  }

  /** Nine bytes that claim to be IPv4 end the loop under every configuration. */
  lemma NineBytesPanic(cfg: Config, st: State, e: Event)
    requires e.Received? && e.payload.Some? && |e.payload.value| <= MAX_PAYLOAD
    ensures Protocol(e.payload.value) == None <==> |e.payload.value| == 9 && e.payload.value[0] / 16 == 4
    ensures |e.payload.value| == 9 && e.payload.value[0] / 16 == 4 ==> ActionFor(cfg, st, e) == Panic
  {
  }

  /** A packet without payload is never given a host, whatever flow it belongs to. */
  lemma NoPayloadNoHost(lim: Limits, st: State, raw: Bytes, now: int)
    requires IsTcp(raw) && |raw| <= MAX_PAYLOAD && TcpPayload(raw) == []
    ensures HostOf(lim, st, raw, now) == None
  {
    hide Parse;
  }

  /**
   The loop ends at exactly two kinds of packet, told by packet and configuration alone: nine bytes of IPv4,
   and an intercepted SYN without payload whose header ends in a lone option kind, if the first catch-all
   profile with strategies strips options.
   */
  lemma PanicsExactly(cfg: Config, st: State, e: Event)
    requires e.Received? && e.payload.Some? && Deliverable(e)
    ensures
      var raw := e.payload.value;
      ActionFor(cfg, st, e).Panic? <==>
        || (|raw| == 9 && raw[0] / 16 == 4)
        || (&& Inspected(cfg, raw) && !Strippable(raw) && TcpFlags(raw) / 2 % 2 == 1
            && var p := FirstActiveCatchAll(cfg.profiles);
               p.Some? && StripSack in p.value.strategies)
  {
    hide HostOf, Parse, ReadOptions, FirstActiveCatchAll, ProfileFor, AnyChanges, AppliedAll, Strips;
    var raw := e.payload.value;
    if Inspected(cfg, raw) && TcpPayload(raw) == [] {
      NoPayloadNoHost(cfg.limits, st, raw, e.now);
    }
  }

  /** A bare SYN ends the loop of an engine with one catch-all profile that strips options. */
  lemma DanglingSynPanics(cfg: Config, st: State, e: Event)
    requires e.Received? && e.payload == Some(DanglingSyn()) && e.setMatch == None
    requires cfg.profiles == [Profile([], [StripSack])] && 0 in cfg.ports
    ensures Deliverable(e) && ActionFor(cfg, st, e) == Panic
  {
    hide HostOf, DanglingSyn, Strippable;
    DanglingSynParses();
    var raw := DanglingSyn();
    assert Inspected(cfg, raw);
    PanicsExactly(cfg, st, e);
    var p := Profile([], [StripSack]);
    assert FirstActiveCatchAll([p]) == Some(p);
  }

  // ---- Hellos that are split over packets ----

  /** The segments the reassembler is fed, in order. */
  function Segments(cfg: Config, es: seq<Event>): (segs: seq<Segment>)
    requires forall e <- es :: Deliverable(e)
    ensures forall x <- segs :: |x.payload| < TWO_32
  {
    if |es| == 0 then []
    else
      var n := |es| - 1;
      assert es[n] in es;
      var before := Segments(cfg, es[..n]);
      if Inspects(cfg, es[n]) then
        var x := SegmentOf(es[n].payload.value, es[n].now);
        assert Deliverable(es[n]) && |x.payload| < TWO_32;
        before + [x]
      else before
  }

  predicate Inspects(cfg: Config, e: Event)
  {
    e.Received? && e.payload.Some? && Inspected(cfg, e.payload.value)
  }

  /** The packet brings bytes to flow `k`. */
  predicate Brings(cfg: Config, e: Event, k: FlowKey)
  {
    Inspects(cfg, e) && FlowOf(e.payload.value) == k && TcpPayload(e.payload.value) != []
  }

  /** No packet that brings bytes to flow `k` has a flag of the engine's terminal mask. */
  predicate StaysOpen(cfg: Config, es: seq<Event>, k: FlowKey)
  {
    forall e <- es :: Brings(cfg, e, k) ==> !Terminal(TcpFlags(e.payload.value))
  }

  lemma {:induction false} TableIsRun(cfg: Config, es: seq<Event>, k: FlowKey)
    requires forall e <- es :: Deliverable(e)
    ensures TableOver(cfg, es) == Run(cfg.limits, State(map[], 0), Segments(cfg, es))
    ensures StaysOpen(cfg, es, k) == Open(Segments(cfg, es), k)
  {
    hide Feed, Protocol, Parse, FlowOf, Terminal, TcpFlags;
    if |es| > 0 {
      var n := |es| - 1;
      assert es[n] in es && es == es[..n] + [es[n]];
      TableIsRun(cfg, es[..n], k);
      var before := Segments(cfg, es[..n]);
      if Inspects(cfg, es[n]) {
        var x := SegmentOf(es[n].payload.value, es[n].now);
        assert Own(x, k) == Brings(cfg, es[n], k);
        assert (before + [x])[..|before|] == before;
      }
    }
  }

  /** The reassembler's answer to the last packet of a run is the last answer of its segments. */
  lemma AnswerIsLast(cfg: Config, es: seq<Event>)
    requires |es| > 0 && (forall e <- es :: Deliverable(e)) && Inspects(cfg, es[|es| - 1])
    ensures
      var n, segs := |es| - 1, Segments(cfg, es);
      var x := SegmentOf(es[n].payload.value, es[n].now);
      && es[n] in es && |segs| > 0 && segs == Segments(cfg, es[..n]) + [x] && |x.payload| < TWO_32
      && Feed(cfg.limits, TableOver(cfg, es[..n]), x).1 == LastAnswer(cfg.limits, State(map[], 0), segs)
  {
    hide Feed, Protocol, Parse, FlowOf, Terminal, TcpFlags, TableOver, Run;
    var n, segs := |es| - 1, Segments(cfg, es);
    var x, before := SegmentOf(es[n].payload.value, es[n].now), Segments(cfg, es[..n]);
    assert es[n] in es && segs == before + [x];
    TableIsRun(cfg, es[..n], x.key);
    assert segs[..|segs| - 1] == before;
  }

  /** What is identified at the last packet of a run. */
  function LastHost(cfg: Config, es: seq<Event>): Option<Bytes>
    requires |es| > 0 && (forall e <- es :: Deliverable(e)) && Inspects(cfg, es[|es| - 1])
  {
    var n := |es| - 1;
    assert es[n] in es && Deliverable(es[n]);
    HostOf(cfg.limits, TableOver(cfg, es[..n]), es[n].payload.value, es[n].now)
  }

  function OrElse(a: Option<Bytes>, b: Option<Bytes>): Option<Bytes>
  {
    if a.Some? then a else b
  }

  lemma HostIsAnswer(cfg: Config, es: seq<Event>, k: FlowKey)
    requires |es| > 0 && (forall e <- es :: Deliverable(e)) && Brings(cfg, es[|es| - 1], k)
    ensures
      var segs := Segments(cfg, es);
      && |segs| > 0 && Own(segs[|segs| - 1], k)
      && LastHost(cfg, es) == OrElse(LastAnswer(cfg.limits, State(map[], 0), segs),
                                     ExtractSni(TcpPayload(es[|es| - 1].payload.value)))
  {
    hide Feed, Protocol, Parse, FlowOf, Terminal, TcpFlags, TableOver, ExtractSni, LastAnswer, Segments, Run;
    AnswerIsLast(cfg, es);
  }

  /** The packets of flow `k` are parts of the stream, none after too long a pause, and the flow finds room. */
  predicate Undisturbed(cfg: Config, es: seq<Event>, k: FlowKey, s: Stream)
    requires forall e <- es :: Deliverable(e)
  {
    var segs := Segments(cfg, es);
    && AllFit(segs, k, s) && NeverIdle(segs, k, cfg.limits.idleTimeout)
    && FindsRoom(cfg.limits, State(map[], 0), segs, k)
  }

  /** Whatever the order of its packets: a flow is given what its span names, or else what its packet alone does. */
  lemma HostIsHeard(cfg: Config, es: seq<Event>, k: FlowKey, s: Stream)
    requires |es| > 0 && (forall e <- es :: Deliverable(e)) && Brings(cfg, es[|es| - 1], k)
    requires Undisturbed(cfg, es, k, s)
    ensures LastHost(cfg, es) ==
            OrElse(Heard(SpanOver(Segments(cfg, es), k, s, cfg.limits.maxBytes), s),
                   ExtractSni(TcpPayload(es[|es| - 1].payload.value)))
  {
    hide LastHost, Protocol, Parse, FlowOf, ExtractSni, AllFit, NeverIdle, FindsRoom, LastAnswer, Segments, SpanOver,
      Mirrors, Run, Heard, OrElse;
    HostIsAnswer(cfg, es, k);
    ExactAnswers(cfg.limits, State(map[], 0), Segments(cfg, es), k, s);
  }

  /**
   A hello in any number of packets, in order, among any other traffic. The packet that completes it identifies
   its host if no packet of it has a flag of the terminal mask. Otherwise only what came since the first packet
   after the last such flag whose first byte is that of a record is parsed, or else the last packet alone.
   */
  lemma SplitHelloExactly(cfg: Config, es: seq<Event>, k: FlowKey, s: Stream, host: Bytes)
    requires |es| > 0 && (forall e <- es :: Deliverable(e)) && Brings(cfg, es[|es| - 1], k)
    requires ExtractSni(s.bytes) == Some(host) && |s.bytes| <= cfg.limits.maxBytes && Undisturbed(cfg, es, k, s)
    requires InOrder(Segments(cfg, es), k, s) && Reached(Segments(cfg, es), k, s) == |s.bytes|
    ensures LastHost(cfg, es) ==
            OrElse(ParseFrom(s, StartOf(Segments(cfg, es), k, s), |s.bytes|),
                   ExtractSni(TcpPayload(es[|es| - 1].payload.value)))
    ensures StaysOpen(cfg, es, k) ==> LastHost(cfg, es) == Some(host)
  {
    hide LastHost, Protocol, Parse, FlowOf, ExtractSni, AllFit, NeverIdle, FindsRoom, LastAnswer, Segments, InOrder,
      Reached, StartOf, Open, StaysOpen, Run, TableOver;
    var segs := Segments(cfg, es);
    HostIsAnswer(cfg, es, k);
    RestartedAnswers(cfg.limits, State(map[], 0), segs, k, s);
    if StaysOpen(cfg, es, k) {
      TableIsRun(cfg, es, k);
      StartsWithRecord(s.bytes);
      OpenStartsAtZero(segs, k, s);
      assert s.bytes[0..|s.bytes|] == s.bytes;
    }
  }

  /** After a data packet with a flag of the mask the table has forgotten its flow; only that packet was parsed. */
  lemma EndedFlow(cfg: Config, es: seq<Event>, k: FlowKey)
    requires |es| > 0 && (forall e <- es :: Deliverable(e)) && Brings(cfg, es[|es| - 1], k)
    requires Terminal(TcpFlags(es[|es| - 1].payload.value))
    ensures k !in TableOver(cfg, es).flows
    ensures LastHost(cfg, es) == ExtractSni(TcpPayload(es[|es| - 1].payload.value))
  {
    hide Feed, Protocol, Parse, FlowOf, TcpFlags, Terminal, ExtractSni;
    var n := |es| - 1;
    assert es[n] in es;
    EndForgets(cfg.limits, TableOver(cfg, es[..n]), SegmentOf(es[n].payload.value, es[n].now));
  }

  /** A host that is identified with a later packet is named by bytes that begin with one of the later packets. */
  ghost predicate NamedSince(cfg: Config, es: seq<Event>, b: seq<Event>, k: FlowKey, s: Stream)
    requires |b| > 0 && (forall e <- es :: Deliverable(e)) && forall e <- b :: Deliverable(e)
    requires Brings(cfg, b[|b| - 1], k)
  {
    assert (es + b)[|es + b| - 1] == b[|b| - 1];
    exists answer :: NamedFrom(answer, k, s, Segments(cfg, b)) &&
      LastHost(cfg, es + b) == OrElse(answer, ExtractSni(TcpPayload(b[|b| - 1].payload.value)))
  }

  lemma HostSince(cfg: Config, es: seq<Event>, b: seq<Event>, k: FlowKey, s: Stream)
    requires |b| > 0 && (forall e <- es :: Deliverable(e)) && forall e <- b :: Deliverable(e)
    requires Brings(cfg, b[|b| - 1], k) && k !in TableOver(cfg, es).flows && AllFit(Segments(cfg, b), k, s)
    ensures NamedSince(cfg, es, b, k, s)
  {
    hide LastHost, Protocol, Parse, FlowOf, ExtractSni, AllFit, NamedFrom, StemsFrom, LastAnswer, Run, TableOver,
      Segments, OrElse, StaysOpen, Open;
    var all, segs, more := es + b, Segments(cfg, es), Segments(cfg, b);
    assert all[|all| - 1] == b[|b| - 1];
    SegmentsJoin(cfg, es, b);
    HostIsAnswer(cfg, all, k);
    HostIsAnswer(cfg, b, k);
    TableIsRun(cfg, es, k);
    RunTwice(cfg.limits, State(map[], 0), segs, more);
    AnswersStem(cfg.limits, TableOver(cfg, es), more, k, s);
    var answer := LastAnswer(cfg.limits, TableOver(cfg, es), more);
    assert NamedFrom(answer, k, s, more);
  }

  /**
   The mask takes ACK for RST. After a data packet with ACK, in any traffic, nothing that came with it or before
   it is used: a host is named by bytes that begin with a later packet of the flow, or by the last packet alone.
   */
  lemma AckDisablesReassembly(cfg: Config, es: seq<Event>, b: seq<Event>, k: FlowKey, s: Stream)
    requires |es| > 0 && (forall e <- es :: Deliverable(e)) && forall e <- b :: Deliverable(e)
    requires Brings(cfg, es[|es| - 1], k) && TcpFlags(es[|es| - 1].payload.value) / 16 % 2 == 1
    requires AllFit(Segments(cfg, b), k, s)
    ensures LastHost(cfg, es) == ExtractSni(TcpPayload(es[|es| - 1].payload.value))
    ensures |b| > 0 && Brings(cfg, b[|b| - 1], k) ==> NamedSince(cfg, es, b, k, s)
  {
    hide LastHost, Protocol, Parse, FlowOf, TcpFlags, ExtractSni, AllFit, TableOver, NamedSince, Segments;
    EndedFlow(cfg, es, k);
    if |b| > 0 && Brings(cfg, b[|b| - 1], k) {
      HostSince(cfg, es, b, k, s);
    }
  }

  lemma {:induction false} SegmentsJoin(cfg: Config, a: seq<Event>, b: seq<Event>)
    requires (forall e <- a :: Deliverable(e)) && forall e <- b :: Deliverable(e)
    ensures Segments(cfg, a + b) == Segments(cfg, a) + Segments(cfg, b)
  {
    hide Inspects, SegmentOf;
    if |b| == 0 {
      assert a + b == a;
    } else {
      var n := |b| - 1;
      SegmentsJoin(cfg, a, b[..n]);
      assert (a + b)[..|a| + n] == a + b[..n] && (a + b)[|a| + n] == b[n];
    }
  }

  lemma SplitInTwo(cfg: Config, first: Event, second: Event, host: Bytes)
    requires Deliverable(first) && Deliverable(second) && Inspects(cfg, first) && Inspects(cfg, second)
    requires cfg.limits.maxFlows > 0 && second.now - cfg.limits.idleTimeout <= first.now
    requires
      var (p, q) := (first.payload.value, second.payload.value);
      && FlowOf(p) == FlowOf(q) && TcpPayload(p) != [] && TcpPayload(q) != []
      && TcpSeq(q) == WrapAdd(TcpSeq(p), |TcpPayload(p)|)
      && ExtractSni(TcpPayload(p) + TcpPayload(q)) == Some(host) && ExtractSni(TcpPayload(q)) == None
      && |TcpPayload(p) + TcpPayload(q)| <= cfg.limits.maxBytes
    ensures
      var (p, q) := (first.payload.value, second.payload.value);
      LastHost(cfg, [first, second]) == if Terminal(TcpFlags(p)) || Terminal(TcpFlags(q)) then None else Some(host)
  {
    hide LastHost, Protocol, Parse, FlowOf, TcpFlags, TcpSeq, Terminal, ExtractSni, WrapAdd, FindsRoom, AllFit, InOrder,
      NeverIdle, Reached, StartOf;
    var (p, q) := (first.payload.value, second.payload.value);
    var es, k := [first, second], FlowOf(p);
    var s: Stream := RawStream(TcpSeq(p), TcpPayload(p) + TcpPayload(q));
    var x, y := SegmentOf(p, first.now), SegmentOf(q, second.now);
    assert es[..1] == [first] && [first][..0] == [] && first in es && second in es;
    assert Segments(cfg, [first]) == Segments(cfg, []) + [x];
    assert Segments(cfg, es) == [x, y];
    StartsWithRecord(s.bytes);
    TwoPieces(cfg.limits, x, y, k, s);
    SplitHelloExactly(cfg, es, k, s, host);
  }

  lemma TwoPieces(lim: Limits, x: Segment, y: Segment, k: FlowKey, s: Stream)
    requires Own(x, k) && Own(y, k) && s.bytes == x.payload + y.payload && x.seqNo == s.isn && s.bytes[0] == 0x16
    requires y.seqNo == WrapAdd(s.isn, |x.payload|) && y.now - lim.idleTimeout <= x.now && lim.maxFlows > 0
    requires ExtractSni(y.payload) == None
    ensures
      var segs := [x, y];
      && AllFit(segs, k, s) && InOrder(segs, k, s) && Reached(segs, k, s) == |s.bytes|
      && NeverIdle(segs, k, lim.idleTimeout) && FindsRoom(lim, State(map[], 0), segs, k)
      && ParseFrom(s, StartOf(segs, k, s), |s.bytes|) == if x.finRst || y.finRst then None else ExtractSni(s.bytes)
  {
    hide ExtractSni, FindsRoom, AllFit, InOrder, NeverIdle, Reached, LastHeard, WrapAdd, OffsetOf;
    assert [] + [x] == [x] && [x] + [y] == [x, y];
    assert s.bytes[0..|x.payload|] == x.payload && s.bytes[|x.payload|..] == y.payload;
    assert WrapAdd(s.isn, 0) == s.isn by { AddsNothing(s.isn); }
    NothingArrived(k, s, lim.idleTimeout);
    NextPieceArrives([], x, k, s, lim.idleTimeout);
    NextPieceArrives([x], y, k, s, lim.idleTimeout);
    AloneFindsRoom(lim, [x, y], k);
    TwoStarts(x, y, k, s);
    assert s.bytes[0..|s.bytes|] == s.bytes && s.bytes[|x.payload|..|s.bytes|] == y.payload;
  }

  lemma AddsNothing(n: U32)
    ensures WrapAdd(n, 0) == n
  {
  }

  lemma TwoStarts(x: Segment, y: Segment, k: FlowKey, s: Stream)
    requires Own(x, k) && Own(y, k) && |x.payload| < TWO_32 && x.payload[0] == 0x16 && x.seqNo == s.isn
    requires y.seqNo == WrapAdd(s.isn, |x.payload|)
    ensures StartOf([x, y], k, s) ==
            if y.finRst then None
            else if !x.finRst then Some(0)
            else if y.payload[0] == 0x16 then Some(|x.payload|)
            else None
  {
    SameNumber(s, OffsetOf(s, x.seqNo), 0);
    SameNumber(s, OffsetOf(s, y.seqNo), |x.payload|);
    assert [x, y][..1] == [x] && [x][..0] == [];
    assert StartOf([x], k, s) == if x.finRst then None else Some(OffsetOf(s, x.seqNo));
  }

  // ---- The probe, split after its first byte ----

  /** A TCP packet to port 443 with this sequence number, these flags and this payload. */
  function DataPacket(seqNo: U32, flags: Byte, payload: Bytes): (r: Bytes)
    requires 40 + |payload| <= MAX_PAYLOAD
    ensures |r| == 40 + |payload| && r[40..] == payload && r[0] == 0x45 && r[9] == 6 && r[32] == 0x50
    ensures r[2..4] == Be16(40 + |payload|) && r[24..28] == Be32(seqNo) && r[33] == flags
    ensures r[12..20] == [10, 0, 0, 1, 10, 0, 0, 2] && r[20..24] == [1, 0, 1, 187]
  {
    var len, n := Be16(40 + |payload|), Be32(seqNo);
    [0x45, 0] + len + [0, 0, 0, 0, 64, 6, 0, 0] + [10, 0, 0, 1, 10, 0, 0, 2] + [1, 0, 1, 187]
    + n + [0, 0, 0, 0, 0x50, flags, 0, 0, 0, 0, 0, 0] + payload
  }

  lemma DataPacketReads(seqNo: U32, flags: Byte, payload: Bytes)
    requires 40 + |payload| <= MAX_PAYLOAD
    ensures
      var p := DataPacket(seqNo, flags, payload);
      && IsTcp(p) && TcpSeq(p) == seqNo && TcpFlags(p) == flags && TcpPayload(p) == payload && DstPort(p) == 443
      && Protocol(p) == Some(6) && FlowOf(p) == FlowKey(0x0a00_0001, 0x0a00_0002, 256, 443)
  {
    hide DataPacket, Be16, Be32;
    var p := DataPacket(seqNo, flags, payload);
    assert p[2] == p[2..4][0] && p[3] == p[2..4][1];
    assert Parse(p) == Some(Layout(20, 40 + |payload|, 20));
    assert p[24] == p[24..28][0] && p[25] == p[24..28][1] && p[26] == p[24..28][2] && p[27] == p[24..28][3];
    assert forall i | 0 <= i < 8 :: p[12 + i] == p[12..20][i];
    assert forall i | 0 <= i < 4 :: p[20 + i] == p[20..24][i];
  }

  /**
   The daemon's own ClientHello for any host, sent in two packets with the same flags. With the ACK flag that
   TCP puts on every packet after the first SYN it is not recognised; without a terminal flag it is.
   */
  lemma SplitProbe(cfg: Config, host: Bytes, seqNo: U32, flags: Byte, now: int) returns (first: Event, second: Event)
    requires ValidUtf8(host) && 116 + |host| <= MAX_PAYLOAD && 76 + |host| <= cfg.limits.maxBytes
    requires 443 in cfg.ports && cfg.limits.maxFlows > 0
    ensures Deliverable(first) && Deliverable(second) && Inspects(cfg, first) && Inspects(cfg, second)
    ensures TcpFlags(first.payload.value) == flags && TcpFlags(second.payload.value) == flags
    ensures LastHost(cfg, [first, second]) == if Terminal(flags) then None else Some(host)
    ensures TcpPayload(first.payload.value) + TcpPayload(second.payload.value) == ClientHello.ProbeBytes(host)
  {
    hide DataPacket, LastHost, ExtractSni, Parse, TcpSeq, TcpFlags, TcpPayload, DstPort, FlowOf, TableOver, Terminal,
      WrapAdd, ClientHello.ProbeBytes;
    var hello := ClientHello.ProbeBytes(host);
    ClientHello.ProbeRoundTrip(host);
    RestNamesNothing(host);
    assert hello == hello[..1] + hello[1..];
    DataPacketReads(seqNo, flags, hello[..1]);
    DataPacketReads(WrapAdd(seqNo, 1), flags, hello[1..]);
    first := Received(1, Some(DataPacket(seqNo, flags, hello[..1])), now, None, false, true);
    second := Received(2, Some(DataPacket(WrapAdd(seqNo, 1), flags, hello[1..])), now, None, false, true);
    SplitInTwo(cfg, first, second, host);
  }

  lemma RestNamesNothing(host: Bytes)
    ensures ExtractSni(ClientHello.ProbeBytes(host)[1..]) == None
  {
    hide Be16, Be24, ClientHello.ProbeBody;
    assert ClientHello.ProbeBytes(host)[1] == 0x03;
  }
}
