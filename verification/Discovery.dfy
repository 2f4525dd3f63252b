/**
 Bounded strategy discovery: at most one probe per pass, within a per-domain budget, never again before the
 strategy TTL. The clock is a parameter of every call and may jump in either direction; the probe's answer
 is a parameter too.
 */
module Discovery {
  import opened Wire

  const I64_MIN := -0x8000_0000_0000_0000
  const I64_MAX := 0x7fff_ffff_ffff_ffff
  type I64 = n: int | I64_MIN <= n <= I64_MAX

  datatype Config = Config(ttlMs: I64, maxCandidates: nat, windowMs: I64, maxTrials: nat, thresholdPct: real)
  const TTL: I64 := 24 * 3600 * 1000
  const DEFAULT_CONFIG := Config(TTL, 5, 45_000, 4, 20.0)

  datatype Status = Untried | Trying | Measured
  datatype Candidate = Candidate(name: string, status: Status, quality: real, rejected: bool, trialEnds: I64)
  datatype Domain = Domain(
    active: Option<string>, candidates: seq<Candidate>, selectedMs: I64, validatedMs: I64, blocked: bool)

  function SatSub(a: I64, b: I64): (r: I64)
    ensures r > 0 ==> a - b >= r
  {
    if a - b > I64_MAX then I64_MAX else if a - b < I64_MIN then I64_MIN else a - b
  }

  // ---- What one pass decides ----

  function NewDomain(names: seq<string>): Domain
  {
    Domain(None, seq(|names|, i requires 0 <= i < |names| => Candidate(names[i], Untried, 0.0, false, 0)), 0, 0, true)
  }

  function Tried(cs: seq<Candidate>): nat
  {
    if |cs| == 0 then 0 else (if cs[0].status == Measured then 1 else 0) + Tried(cs[1..])
  }

  /** Position of the first candidate that is untried, or measured longer ago than the TTL. */
  function FirstUntried(cs: seq<Candidate>): (i: Option<nat>)
    ensures i.Some? ==> i.value < |cs| && cs[i.value].status == Untried
    ensures i.None? ==> forall c <- cs :: c.status != Untried
  {
    if |cs| == 0 then None
    else if cs[0].status == Untried then Some(0)
    else match FirstUntried(cs[1..]) case None => None case Some(i) => Some(i + 1)
  }

  predicate Lapsed(c: Candidate, ttlMs: I64, now: I64)
  {
    c.status == Measured && SatSub(now, c.trialEnds) > ttlMs
  }

  function FirstLapsed(cs: seq<Candidate>, ttlMs: I64, now: I64): (i: Option<nat>)
    ensures i.Some? ==> i.value < |cs| && Lapsed(cs[i.value], ttlMs, now)
    ensures i.None? ==> forall c <- cs :: !Lapsed(c, ttlMs, now)
  {
    if |cs| == 0 then None
    else if Lapsed(cs[0], ttlMs, now) then Some(0)
    else match FirstLapsed(cs[1..], ttlMs, now) case None => None case Some(i) => Some(i + 1)
  }

  datatype Decision = Answer(strategy: Option<string>) | Probe(index: nat)

  /** `trials` is the number of trials under way. */
  function Decide(cfg: Config, d: Domain, now: I64, trials: nat): (r: Decision)
    ensures r.Probe? ==>
      && r.index < |d.candidates| && Tried(d.candidates) < cfg.maxCandidates && trials < cfg.maxTrials
      && (d.candidates[r.index].status == Untried || Lapsed(d.candidates[r.index], cfg.ttlMs, now))
  {
    if d.active.Some? && SatSub(now, d.validatedMs) < cfg.ttlMs then Answer(d.active)
    else if Tried(d.candidates) >= cfg.maxCandidates then Answer(d.active)
    else
      var untried := FirstUntried(d.candidates);
      var index := if untried.Some? then untried else FirstLapsed(d.candidates, cfg.ttlMs, now);
      if index.None? then Answer(None)
      else if trials >= cfg.maxTrials then Answer(d.active)
      else Probe(index.value)
  }

  /** An active strategy is withheld exactly when it is stale, budget is left and no candidate can be probed. */
  lemma ActiveWithheld(cfg: Config, d: Domain, now: I64, trials: nat)
    requires d.active.Some?
    ensures Decide(cfg, d, now, trials) == Answer(None) <==>
      && SatSub(now, d.validatedMs) >= cfg.ttlMs && Tried(d.candidates) < cfg.maxCandidates
      && forall c <- d.candidates :: c.status != Untried && !Lapsed(c, cfg.ttlMs, now)
  {
    hide Tried, SatSub, Lapsed;
    var untried, lapsed := FirstUntried(d.candidates), FirstLapsed(d.candidates, cfg.ttlMs, now);
    assert untried.Some? ==> d.candidates[untried.value] in d.candidates;
    assert lapsed.Some? ==> d.candidates[lapsed.value] in d.candidates;
  }

  /** The candidates of a domain are told apart by name. */
  predicate DistinctCandidates(d: Domain)
  {
    forall i, j | 0 <= i < j < |d.candidates| :: d.candidates[i].name != d.candidates[j].name
  }

  function QualityOf(cs: seq<Candidate>, name: string): real
  {
    if |cs| == 0 then 0.0 else if cs[0].name == name then cs[0].quality else QualityOf(cs[1..], name)
  }

  /** The domain after candidate `i` was probed with the given outcome. */
  function Probed(cfg: Config, d: Domain, i: nat, now: I64, quality: real): Domain
    requires i < |d.candidates| && now + cfg.windowMs <= I64_MAX && cfg.windowMs >= 0
  {
    var c := d.candidates[i].(status := Measured, quality := quality, trialEnds := now + cfg.windowMs,
                              rejected := d.candidates[i].rejected || quality < 0.5);
    var measured := d.(candidates := d.candidates[i := c]);
    if quality < 0.5 then measured
    else if d.active.None?
         || quality > QualityOf(measured.candidates, d.active.value) * (1.0 + cfg.thresholdPct / 100.0)
    then measured.(active := Some(c.name), selectedMs := now, validatedMs := now, blocked := false)
    else measured
  }

  lemma {:induction false} QualityAt(cs: seq<Candidate>, i: nat)
    requires i < |cs| && forall j | 0 <= j < i :: cs[j].name != cs[i].name
    ensures QualityOf(cs, cs[i].name) == cs[i].quality
  {
    if i > 0 {
      assert forall j | 0 <= j < i - 1 :: cs[1..][j] == cs[j + 1];
      QualityAt(cs[1..], i - 1);
    }
  }

  /**
   A candidate that is probed while active competes with its own new quality. However well it does, it is
   refreshed only under a negative threshold: the daily re-validation never renews an active strategy.
   */
  lemma ReprobeRefreshesExactly(cfg: Config, d: Domain, i: nat, now: I64, q: real)
    requires i < |d.candidates| && Timely(cfg, now) && DistinctCandidates(d) && d.active == Some(d.candidates[i].name)
    ensures
      var out := Probed(cfg, d, i, now, q);
      && out.active == d.active
      && out.validatedMs == (if q >= 0.5 && cfg.thresholdPct < 0.0 then now else d.validatedMs)
  {
    hide QualityOf;
    var cs := Probed(cfg, d, i, now, q).candidates;
    assert cs[i].name == d.candidates[i].name && cs[i].quality == q;
    assert forall j | 0 <= j < |cs| :: cs[j].name == d.candidates[j].name;
    QualityAt(cs, i);
    if q >= 0.5 {
      ThresholdScales(q, cfg.thresholdPct);
    }
  }

  lemma ThresholdScales(q: real, pct: real)
    requires q >= 0.5
    ensures q > q * (1.0 + pct / 100.0) <==> pct < 0.0
  {
    assert q * (1.0 + pct / 100.0) == q + q * (pct / 100.0);
  }

  /** With the usual thresholds, a pass that leaves the same strategy active leaves it as stale as it was. */
  lemma NeverRevalidated(cfg: Config, d: Domain, now: I64, q: real)
    requires Timely(cfg, now) && DistinctCandidates(d) && cfg.thresholdPct >= 0.0 && d.active.Some?
    ensures
      var out := Passed(cfg, d, now, q);
      out.active == d.active ==> out.validatedMs == d.validatedMs
  {
    hide Decide, QualityOf;
    match Decide(cfg, d, now, 0)
    case Answer(_) =>
    case Probe(i) =>
      if d.active == Some(d.candidates[i].name) {
        ReprobeRefreshesExactly(cfg, d, i, now, q);
      }
  }

  predicate Timely(cfg: Config, now: I64)
  {
    cfg.windowMs >= 0 && cfg.ttlMs >= 0 && now + cfg.windowMs <= I64_MAX
  }

  function Passed(cfg: Config, d: Domain, now: I64, quality: real): Domain
    requires Timely(cfg, now)
  {
    match Decide(cfg, d, now, 0)
    case Answer(_) => d
    case Probe(i) => Probed(cfg, d, i, now, quality)
  }

  // ---- The store ----

  class B4Discovery {
    const config: Config
    const names: seq<string>
    var store: map<string, Domain>
    var activeTrials: nat

    constructor (config: Config, names: seq<string>)
      ensures this.config == config && this.names == names && store == map[] && activeTrials == 0
    {
      this.config, this.names, store, activeTrials := config, names, map[], 0;
    }

    method ObserveBlocked(domain: string)
      modifies this`store
      ensures store == Observed(names, old(store), domain)
    {
      if domain !in store {
        store := store[domain := NewDomain(names)];
      }
      var state := store[domain];
      if !state.blocked {
        store := store[domain := state.(blocked := true)];
      }
    }

    /** `quality` is what the probe would answer; `probed` says whether it was asked, and for which candidate. */
    method Discover(domain: string, now: I64, quality: real) returns (answer: Option<string>, probed: Option<nat>)
      requires activeTrials == 0 && Timely(config, now)
      modifies this
      ensures activeTrials == 0
      ensures
        var d := if domain in old(store) then old(store)[domain] else NewDomain(names);
        var decision := Decide(config, d, now, 0);
        && store == old(store)[domain := Passed(config, d, now, quality)]
        && (match decision
            case Answer(a) => answer == a && probed == None
            case Probe(i) => answer == store[domain].active && probed == Some(i))
    {
      hide Tried, SatSub, Probed, NewDomain;
      if domain !in store {
        ObserveBlocked(domain);
        FreshIsBlocked(names);
      }
      var state := store[domain];
      assert store == old(store)[domain := state];
      if state.active.Some? && SatSub(now, state.validatedMs) < config.ttlMs {
        return state.active, None;
      }
      var tried := CountTried(state.candidates);
      if tried >= config.maxCandidates {
        return state.active, None;
      }
      var index := FirstUntried(state.candidates);
      if index.None? {
        index := FirstLapsed(state.candidates, config.ttlMs, now);
      }
      if index.None? {
        return None, None;
      }
      if activeTrials >= config.maxTrials {
        return state.active, None;
      }
      state := Trial(state, index.value, now, quality);
      store := store[domain := state];
      return state.active, index;
    }

    /** One bounded trial of a candidate: mark it, probe, record, and select it if it is clearly better. */
    method Trial(d: Domain, i: nat, now: I64, quality: real) returns (state: Domain)
      requires i < |d.candidates| && Timely(config, now)
      modifies this`activeTrials
      ensures activeTrials == old(activeTrials) && state == Probed(config, d, i, now, quality)
    {
      hide QualityOf;
      activeTrials := activeTrials + 1;
      var candidate := d.candidates[i].(status := Trying, trialEnds := now + config.windowMs);
      state := d.(candidates := d.candidates[i := candidate]);
      activeTrials := activeTrials - 1;
      candidate := candidate.(quality := quality, status := Measured, rejected := candidate.rejected || quality < 0.5);
      state := state.(candidates := state.candidates[i := candidate]);
      assert state.candidates == d.candidates[i := candidate];
      if quality < 0.5 {
        return;
      }
      var select := state.active.None?
        || quality > QualityOf(state.candidates, state.active.value) * (1.0 + config.thresholdPct / 100.0);
      if select {
        state := state.(active := Some(candidate.name), selectedMs := now, validatedMs := now, blocked := false);
      }
    }
  }

  lemma FreshIsBlocked(names: seq<string>)
    ensures NewDomain(names).(blocked := true) == NewDomain(names)
  {
  }

  method CountTried(cs: seq<Candidate>) returns (n: nat)
    ensures n == Tried(cs)
  {
    n := 0;
    var i := 0;
    assert cs[0..] == cs;
    while i < |cs|
      invariant 0 <= i <= |cs| && n + Tried(cs[i..]) == Tried(cs)
    {
      assert cs[i..][1..] == cs[i + 1..];
      if cs[i].status == Measured {
        n := n + 1;
      }
      i := i + 1;
    }
  }

  function Observed(names: seq<string>, store: map<string, Domain>, domain: string): map<string, Domain>
  {
    var d := if domain in store then store[domain] else NewDomain(names);
    store[domain := d.(blocked := true)]
  }

  // ---- Every sequence of calls ----

  datatype Op = Observe(domain: string) | Pass(domain: string, now: I64, quality: real)
  datatype ProbeRecord = ProbeRecord(domain: string, index: nat, now: I64)
  datatype System = System(store: map<string, Domain>, log: seq<ProbeRecord>)

  function Step(cfg: Config, names: seq<string>, s: System, op: Op): System
    requires op.Pass? ==> Timely(cfg, op.now)
  {
    match op
    case Observe(domain) => s.(store := Observed(names, s.store, domain))
    case Pass(domain, now, quality) =>
      var d := if domain in s.store then s.store[domain] else NewDomain(names);
      System(s.store[domain := Passed(cfg, d, now, quality)],
             match Decide(cfg, d, now, 0)
             case Answer(_) => s.log
             case Probe(i) => s.log + [ProbeRecord(domain, i, now)])
  }

  function RunAll(cfg: Config, names: seq<string>, ops: seq<Op>): System
    requires forall op <- ops :: op.Pass? ==> Timely(cfg, op.now)
  {
    if |ops| == 0 then System(map[], [])
    else
      assert ops[|ops| - 1] in ops;
      Step(cfg, names, RunAll(cfg, names, ops[..|ops| - 1]), ops[|ops| - 1])
  }

  /** When candidate `index` of a domain was last probed. */
  function LastProbe(log: seq<ProbeRecord>, domain: string, index: nat): Option<I64>
  {
    if |log| == 0 then None
    else
      var p := log[|log| - 1];
      if p.domain == domain && p.index == index then Some(p.now) else LastProbe(log[..|log| - 1], domain, index)
  }

  /** A candidate's record says whether and when it was last probed. */
  predicate RecordOk(cfg: Config, c: Candidate, last: Option<I64>)
  {
    match last
    case None => c.status == Untried
    case Some(t) => c.status == Measured && c.trialEnds == t + cfg.windowMs
  }

  ghost predicate DomainOk(cfg: Config, names: seq<string>, name: string, d: Domain, log: seq<ProbeRecord>)
  {
    && |d.candidates| == |names|
    && (forall i | 0 <= i < |names| ::
          d.candidates[i].name == names[i] && RecordOk(cfg, d.candidates[i], LastProbe(log, name, i)))
    && Tried(d.candidates) <= cfg.maxCandidates
    && ActiveMeasured(d)
  }

  ghost predicate ActiveMeasured(d: Domain)
  {
    d.active.Some? ==> exists c <- d.candidates :: c.name == d.active.value && c.status == Measured
  }

  /** Each probe of a candidate comes more than the TTL after the previous one's trial window ended. */
  ghost predicate Spaced(cfg: Config, log: seq<ProbeRecord>)
  {
    forall b | 0 <= b < |log| ::
      match LastProbe(log[..b], log[b].domain, log[b].index)
      case None => true
      case Some(t) => log[b].now > t + cfg.windowMs + cfg.ttlMs
  }

  ghost predicate SystemOk(cfg: Config, names: seq<string>, s: System)
  {
    && (forall name <- s.store :: DomainOk(cfg, names, name, s.store[name], s.log))
    && (forall p <- s.log :: p.domain in s.store)
    && Spaced(cfg, s.log)
  }

  lemma {:induction false} TriedUpdate(cs: seq<Candidate>, i: nat, c: Candidate)
    requires i < |cs|
    ensures Tried(cs[i := c]) == Tried(cs)
      + (if c.status == Measured then 1 else 0) - (if cs[i].status == Measured then 1 else 0)
  {
    if i > 0 {
      TriedUpdate(cs[1..], i - 1, c);
      assert cs[i := c][1..] == cs[1..][i - 1 := c];
    } else {
      assert cs[i := c][1..] == cs[1..];
    }
  }

  lemma {:induction false} NothingTried(cs: seq<Candidate>)
    requires forall c <- cs :: c.status != Measured
    ensures Tried(cs) == 0
  {
    if |cs| > 0 {
      assert cs[0] in cs;
      NothingTried(cs[1..]);
    }
  }

  lemma {:induction false} NeverProbed(log: seq<ProbeRecord>, domain: string, index: nat)
    requires forall p <- log :: p.domain != domain
    ensures LastProbe(log, domain, index) == None
  {
    if |log| > 0 {
      assert log[|log| - 1] in log;
      NeverProbed(log[..|log| - 1], domain, index);
    }
  }

  lemma NewDomainOk(cfg: Config, names: seq<string>, name: string, log: seq<ProbeRecord>)
    requires forall p <- log :: p.domain != name
    ensures DomainOk(cfg, names, name, NewDomain(names), log)
  {
    hide LastProbe;
    var d := NewDomain(names);
    NothingTried(d.candidates);
    forall i | 0 <= i < |names|
      ensures RecordOk(cfg, d.candidates[i], LastProbe(log, name, i))
    {
      NeverProbed(log, name, i);
    }
  }

  lemma LastProbeStep(log: seq<ProbeRecord>, p: ProbeRecord, domain: string, index: nat)
    ensures LastProbe(log + [p], domain, index) ==
            if p.domain == domain && p.index == index then Some(p.now) else LastProbe(log, domain, index)
  {
    assert (log + [p])[..|log|] == log;
  }

  lemma ProbedOk(
    cfg: Config, names: seq<string>, name: string, d: Domain, log: seq<ProbeRecord>, i: nat, now: I64, q: real)
    requires DomainOk(cfg, names, name, d, log) && Timely(cfg, now) && Decide(cfg, d, now, 0) == Probe(i)
    ensures DomainOk(cfg, names, name, Probed(cfg, d, i, now, q), log + [ProbeRecord(name, i, now)])
    ensures
      match LastProbe(log, name, i)
      case None => true
      case Some(t) => now > t + cfg.windowMs + cfg.ttlMs
  {
    hide LastProbe, Tried, Decide, SatSub, QualityOf, ActiveMeasured;
    var d' := Probed(cfg, d, i, now, q);
    var log' := log + [ProbeRecord(name, i, now)];
    TriedUpdate(d.candidates, i, d'.candidates[i]);
    forall k | 0 <= k < |names|
      ensures RecordOk(cfg, d'.candidates[k], LastProbe(log', name, k))
    {
      LastProbeStep(log, ProbeRecord(name, i, now), name, k);
    }
    ActiveStaysMeasured(cfg, d, i, now, q);
  }

  lemma ActiveStaysMeasured(cfg: Config, d: Domain, i: nat, now: I64, q: real)
    requires i < |d.candidates| && Timely(cfg, now) && ActiveMeasured(d)
    ensures ActiveMeasured(Probed(cfg, d, i, now, q))
  {
    hide QualityOf;
    var d' := Probed(cfg, d, i, now, q);
    assert d'.candidates[i] in d'.candidates;
    if d.active.Some? {
      var c :| c in d.candidates && c.name == d.active.value && c.status == Measured;
      var k :| 0 <= k < |d.candidates| && d.candidates[k] == c;
      assert d'.candidates[k] in d'.candidates && d'.candidates[k].name == c.name;
    }
  }

  lemma OtherDomainOk(cfg: Config, names: seq<string>, name: string, d: Domain, log: seq<ProbeRecord>, p: ProbeRecord)
    requires DomainOk(cfg, names, name, d, log) && p.domain != name
    ensures DomainOk(cfg, names, name, d, log + [p])
  {
    hide LastProbe, Tried;
    forall k | 0 <= k < |names|
      ensures RecordOk(cfg, d.candidates[k], LastProbe(log + [p], name, k))
    {
      LastProbeStep(log, p, name, k);
    }
  }

  lemma SpacedStep(cfg: Config, log: seq<ProbeRecord>, p: ProbeRecord)
    requires Spaced(cfg, log)
    requires
      match LastProbe(log, p.domain, p.index)
      case None => true
      case Some(t) => p.now > t + cfg.windowMs + cfg.ttlMs
    ensures Spaced(cfg, log + [p])
  {
    hide LastProbe;
    var log' := log + [p];
    forall b | 0 <= b < |log'|
      ensures
        match LastProbe(log'[..b], log'[b].domain, log'[b].index)
        case None => true
        case Some(t) => log'[b].now > t + cfg.windowMs + cfg.ttlMs
    {
      if b < |log| {
        assert log'[..b] == log[..b];
      } else {
        assert log'[..b] == log;
      }
    }
  }

  lemma StepOk(cfg: Config, names: seq<string>, s: System, op: Op)
    requires SystemOk(cfg, names, s) && (op.Pass? ==> Timely(cfg, op.now))
    ensures SystemOk(cfg, names, Step(cfg, names, s, op))
  {
    hide DomainOk, Spaced, Passed, Decide, NewDomain;
    var name := op.domain;
    if name !in s.store {
      NewDomainOk(cfg, names, name, s.log);
    }
    var d := if name in s.store then s.store[name] else NewDomain(names);
    match op
    case Observe(_) => BlockedOk(cfg, names, name, d, s.log);
    case Pass(_, now, quality) =>
      PassOk(cfg, names, name, d, s, now, quality);
  }

  lemma BlockedOk(cfg: Config, names: seq<string>, name: string, d: Domain, log: seq<ProbeRecord>)
    requires DomainOk(cfg, names, name, d, log)
    ensures DomainOk(cfg, names, name, d.(blocked := true), log)
  {
    hide Tried, LastProbe;
  }

  lemma PassOk(cfg: Config, names: seq<string>, name: string, d: Domain, s: System, now: I64, q: real)
    requires SystemOk(cfg, names, s) && Timely(cfg, now) && DomainOk(cfg, names, name, d, s.log)
    requires d == if name in s.store then s.store[name] else NewDomain(names)
    ensures SystemOk(cfg, names, Step(cfg, names, s, Pass(name, now, q)))
  {
    hide DomainOk, Spaced, Decide, Probed, NewDomain, LastProbe;
    match Decide(cfg, d, now, 0)
    case Answer(_) =>
    case Probe(i) =>
      var p := ProbeRecord(name, i, now);
      ProbedOk(cfg, names, name, d, s.log, i, now, q);
      SpacedStep(cfg, s.log, p);
      forall other | other in s.store && other != name
        ensures DomainOk(cfg, names, other, s.store[other], s.log + [p])
      {
        OtherDomainOk(cfg, names, other, s.store[other], s.log, p);
      }
  }

  /**
   Over every sequence of observations and passes: probes of a candidate are spaced by window and TTL, the
   budget bounds what is measured, and an active strategy is always a measured candidate.
   */
  lemma {:induction false} DiscoveryIsBounded(cfg: Config, names: seq<string>, ops: seq<Op>)
    requires forall op <- ops :: op.Pass? ==> Timely(cfg, op.now)
    ensures SystemOk(cfg, names, RunAll(cfg, names, ops)) && |RunAll(cfg, names, ops).log| <= |ops|
  {
    hide SystemOk, Decide, Passed;
    if |ops| == 0 {
      NothingOk(cfg, names);
    } else {
      var n := |ops| - 1;
      assert ops[n] in ops;
      DiscoveryIsBounded(cfg, names, ops[..n]);
      StepOk(cfg, names, RunAll(cfg, names, ops[..n]), ops[n]);
    }
  }

  lemma NothingOk(cfg: Config, names: seq<string>)
    ensures SystemOk(cfg, names, System(map[], []))
  {
  }

  // ---- A run that withholds its strategy ----

  const LADDER := ["mss", "pastseq", "combo", "combo+quic"]

  /** The ladder with its first `n` candidates measured at full quality, their windows ending at `ends`. */
  function Climbed(n: nat, ends: seq<I64>): Domain
    requires n <= |ends| == 4
  {
    Domain(if n == 0 then None else Some("mss"),
           [Rung(0, n, ends), Rung(1, n, ends), Rung(2, n, ends), Rung(3, n, ends)], 0, 0, n == 0)
  }

  function Rung(i: nat, n: nat, ends: seq<I64>): Candidate
    requires i < |ends| == 4
  {
    if i < n then Candidate(LADDER[i], Measured, 1.0, false, ends[i]) else Candidate(LADDER[i], Untried, 0.0, false, 0)
  }

  /** A pass a day later tries the next rung, finds it no better, and keeps the first. */
  lemma ClimbStep(n: nat, ends: seq<I64>, now: I64)
    requires n < |ends| == 4 && (n > 0 ==> TTL <= now) && (n == 0 ==> now == 0) && 0 <= now <= 2 * TTL
    requires ends[n] == now + 45_000
    ensures
      && Timely(DEFAULT_CONFIG, now) && Decide(DEFAULT_CONFIG, Climbed(n, ends), now, 0) == Probe(n)
      && Passed(DEFAULT_CONFIG, Climbed(n, ends), now, 1.0) == Climbed(n + 1, ends)
  {
    var d, cs := Climbed(n, ends), Climbed(n, ends).candidates;
    RungsTried(n, ends);
    assert forall i | 0 <= i < 4 :: (cs[i].status == Untried <==> n <= i);
    FirstUntriedIs(cs, n);
    assert Decide(DEFAULT_CONFIG, d, now, 0) == Probe(n);
    var out := Probed(DEFAULT_CONFIG, d, n, now, 1.0);
    assert out.candidates == Climbed(n + 1, ends).candidates;
    if n > 0 {
      assert out.candidates[0].name == "mss" && QualityOf(out.candidates, "mss") == 1.0;
    }
  }

  lemma RungsTried(n: nat, ends: seq<I64>)
    requires n <= |ends| == 4
    ensures Tried(Climbed(n, ends).candidates) == n
  {
    var cs := Climbed(n, ends).candidates;
    var a, b, c := cs[1..], cs[2..], cs[3..];
    assert cs[1..] == a && a[1..] == b && b[1..] == c && c[1..] == [];
    assert Tried(c) == if n > 3 then 1 else 0;
    assert Tried(b) == (if n > 2 then 1 else 0) + Tried(c);
    assert Tried(a) == (if n > 1 then 1 else 0) + Tried(b);
  }

  lemma {:induction false} FirstUntriedIs(cs: seq<Candidate>, n: nat)
    requires n < |cs| && cs[n].status == Untried && forall i | 0 <= i < n :: cs[i].status != Untried
    ensures FirstUntried(cs) == Some(n)
  {
    if n > 0 {
      assert forall i | 0 <= i < n - 1 :: cs[1..][i] == cs[i + 1];
      FirstUntriedIs(cs[1..], n - 1);
    }
  }

  /**
   With the default settings and the built-in ladder, four passes in which every probe succeeds leave a
   strategy active, and the fifth pass, three milliseconds after a day, answers none.
   */
  lemma RunWithholdsActive(domain: string)
    ensures
      var ops := [Pass(domain, 0, 1.0), Pass(domain, TTL, 1.0), Pass(domain, TTL + 1, 1.0), Pass(domain, TTL + 2, 1.0)];
      && (forall op <- ops :: Timely(DEFAULT_CONFIG, op.now))
      && var s := RunAll(DEFAULT_CONFIG, LADDER, ops);
         && domain in s.store && s.store[domain].active == Some("mss")
         && Decide(DEFAULT_CONFIG, s.store[domain], TTL + 3, 0) == Answer(None)
  {
    hide Decide, Passed, Climbed, Rung, Tried, FirstUntried, FirstLapsed, Probed, NewDomain, RunAll, Step;
    var ends: seq<I64> := [45_000, TTL + 45_000, TTL + 1 + 45_000, TTL + 2 + 45_000];
    var a, b := Pass(domain, 0, 1.0), Pass(domain, TTL, 1.0);
    var c, d := Pass(domain, TTL + 1, 1.0), Pass(domain, TTL + 2, 1.0);
    var ops := [a, b, c, d];
    FreshLadder(ends);
    ClimbStep(0, ends, 0);
    ClimbStep(1, ends, TTL);
    ClimbStep(2, ends, TTL + 1);
    ClimbStep(3, ends, TTL + 2);
    assert [] + [a] == [a] && [a] + [b] == [a, b] && [a, b] + [c] == [a, b, c] && [a, b, c] + [d] == ops;
    NothingRan();
    RunStep(domain, [], a, ends, 0);
    RunStep(domain, [a], b, ends, 1);
    RunStep(domain, [a, b], c, ends, 2);
    RunStep(domain, [a, b, c], d, ends, 3);
    Withheld(ends);
  }

  lemma NothingRan()
    ensures RunAll(DEFAULT_CONFIG, LADDER, []) == System(map[], [])
  {
  }

  lemma FreshLadder(ends: seq<I64>)
    requires |ends| == 4
    ensures NewDomain(LADDER) == Climbed(0, ends)
  {
  }

  lemma RunStep(domain: string, ops: seq<Op>, op: Op, ends: seq<I64>, n: nat)
    requires n < |ends| == 4 && op.Pass? && op.domain == domain && op.quality == 1.0
    requires (forall o <- ops :: o.Pass? ==> Timely(DEFAULT_CONFIG, o.now)) && Timely(DEFAULT_CONFIG, op.now)
    requires
      var store := RunAll(DEFAULT_CONFIG, LADDER, ops).store;
      if n == 0 then domain !in store && NewDomain(LADDER) == Climbed(0, ends)
      else domain in store && store[domain] == Climbed(n, ends)
    requires Passed(DEFAULT_CONFIG, Climbed(n, ends), op.now, 1.0) == Climbed(n + 1, ends)
    ensures forall o <- ops + [op] :: o.Pass? ==> Timely(DEFAULT_CONFIG, o.now)
    ensures
      var store := RunAll(DEFAULT_CONFIG, LADDER, ops + [op]).store;
      domain in store && store[domain] == Climbed(n + 1, ends)
  {
    hide Decide, Passed, Climbed, NewDomain;
    assert (ops + [op])[..|ops|] == ops;
  }

  lemma Withheld(ends: seq<I64>)
    requires ends == [45_000, TTL + 45_000, TTL + 1 + 45_000, TTL + 2 + 45_000]
    ensures
      var d := Climbed(4, ends);
      d.active == Some("mss") && Decide(DEFAULT_CONFIG, d, TTL + 3, 0) == Answer(None)
  {
    var d := Climbed(4, ends);
    RungsTried(4, ends);
    assert forall c <- d.candidates :: c.status == Measured && c.trialEnds >= 45_000;
    ActiveWithheld(DEFAULT_CONFIG, d, TTL + 3, 0);
  }
}
