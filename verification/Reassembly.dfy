/**
 Per-flow reassembly of the head of a TCP stream. `TcpReassembler` keeps the flow table as the engine
 does; `Feed` says what one segment does to it. Over whole runs: `RunIsSafe` for any traffic consistent
 with the flows' streams; `ExactAnswers` for one flow in any order, told by offsets instead of sequence
 numbers; `SegmentationIndependent` for a stream without gaps: each answer is the parse of the prefix
 received so far, wherever the stream was cut.
 */
module Reassembly {
  import opened Wire
  import opened TlsSni
  import opened Finite

  datatype FlowKey = FlowKey(srcIp: U32, dstIp: U32, srcPort: U16, dstPort: U16)
  datatype Flow = Flow(baseSeq: U32, buffer: Bytes, decided: Option<Bytes>, lastSeen: int)
  datatype Limits = Limits(maxBytes: nat, maxFlows: nat, idleTimeout: nat, evictEvery: nat)
  datatype Segment = Segment(key: FlowKey, seqNo: U32, payload: Bytes, finRst: bool, now: int)
  datatype State = State(flows: map<FlowKey, Flow>, sinceEvict: nat)

  // ---- What one segment does ----

  /** The outcome for the segment's own flow: kept in a new state, or dropped from tracking. */
  datatype Outcome = Keep(flow: Flow) | Drop
  {
    function Answer(): Option<Bytes>
    {
      if Keep? then flow.decided else None
    }
  }

  /** Parse the grown buffer; a classified flow releases its bytes. */
  function Offer(f: Flow, buffer: Bytes, maxBytes: nat): Outcome
  {
    if |buffer| > maxBytes then Drop
    else match ExtractSni(buffer)
      case Some(host) => Keep(f.(buffer := [], decided := Some(host)))
      case None => Keep(f.(buffer := buffer))
  }

  function Absorb(flow: Flow, seqNo: U32, payload: Bytes, maxBytes: nat, now: int): Outcome
    requires 0 < |payload| < TWO_32
  {
    var f := flow.(lastSeen := now);
    if f.decided.Some? then Keep(f)
    else if |f.buffer| == 0 then
      if payload[0] != 0x16 then Drop else Offer(f, payload, maxBytes)
    else
      var expected := WrapAdd(f.baseSeq, Low32(|f.buffer|));
      if seqNo == expected then Offer(f, f.buffer + payload, maxBytes)
      else if seqNo > expected then Drop
      else if WrapAdd(seqNo, |payload|) > expected then
        Offer(f, f.buffer + payload[expected - seqNo..], maxBytes)
      else Keep(f)
  }

  function Evicted(flows: map<FlowKey, Flow>, idleTimeout: nat, now: int): map<FlowKey, Flow>
  {
    map k | k in flows && flows[k].lastSeen >= now - idleTimeout :: flows[k]
  }

  predicate Sweeps(lim: Limits, n: nat)
  {
    if lim.evictEvery == 0 then n == 0 else n % lim.evictEvery == 0
  }

  function Swept(lim: Limits, st: State, now: int): State
  {
    State(if Sweeps(lim, st.sinceEvict + 1) then Evicted(st.flows, lim.idleTimeout, now) else st.flows,
          st.sinceEvict + 1)
  }

  /** A full table is cleared of idle flows. */
  function FullTable(lim: Limits, flows: map<FlowKey, Flow>, now: int): map<FlowKey, Flow>
  {
    if |flows| >= lim.maxFlows then Evicted(flows, lim.idleTimeout, now) else flows
  }

  /** The table in which the segment's flow exists, unless the table is full of live flows. */
  function Admit(lim: Limits, flows: map<FlowKey, Flow>, s: Segment): Option<map<FlowKey, Flow>>
  {
    if s.key in flows then Some(flows)
    else
      var room := FullTable(lim, flows, s.now);
      if |room| >= lim.maxFlows then None else Some(room[s.key := Flow(s.seqNo, [], None, s.now)])
  }

  function Settle(flows: map<FlowKey, Flow>, key: FlowKey, out: Outcome): map<FlowKey, Flow>
  {
    match out
    case Keep(f) => flows[key := f]
    case Drop => flows - {key}
  }

  function Feed(lim: Limits, st: State, s: Segment): (r: (State, Option<Bytes>))
    requires |s.payload| < TWO_32
  {
    var st := Swept(lim, st, s.now);
    if |s.payload| == 0 then (st, None)
    else if s.finRst then (st.(flows := st.flows - {s.key}), None)
    else match Admit(lim, st.flows, s)
      case None =>
        (st.(flows := FullTable(lim, st.flows, s.now)), None)
      case Some(flows) =>
        var out := Absorb(flows[s.key], s.seqNo, s.payload, lim.maxBytes, s.now);
        (st.(flows := Settle(flows, s.key, out)), out.Answer())
  }

  class TcpReassembler {
    var flows: map<FlowKey, Flow>
    var sinceEvict: nat
    const limits: Limits

    ghost function Table(): State
      reads this
    {
      State(flows, sinceEvict)
    }

    constructor (limits: Limits)
      ensures Table() == State(map[], 0) && this.limits == limits
    {
      flows, sinceEvict := map[], 0;
      this.limits := limits;
    }

    method EvictExpired(now: int)
      modifies this
      ensures flows == Evicted(old(flows), limits.idleTimeout, now) && sinceEvict == old(sinceEvict)
    {
      var cutoff := now - limits.idleTimeout;
      flows := map k | k in flows && flows[k].lastSeen >= cutoff :: flows[k];
    }

    method FeedSegment(s: Segment) returns (host: Option<Bytes>)
      requires |s.payload| < TWO_32
      modifies this
      ensures (Table(), host) == Feed(limits, old(Table()), s)
    {
      hide Absorb, Admit;
      sinceEvict := sinceEvict + 1;
      var sweep := if limits.evictEvery == 0 then sinceEvict == 0 else sinceEvict % limits.evictEvery == 0;
      if sweep {
        EvictExpired(s.now);
      }
      assert Table() == Swept(limits, old(Table()), s.now);
      if |s.payload| == 0 {
        return None;
      }
      if s.finRst {
        flows := flows - {s.key};
        return None;
      }
      var admitted := EnsureFlow(s);
      if !admitted {
        return None;
      }
      ghost var table := flows;
      var drop;
      host, drop := ProcessSegment(s);
      if drop {
        flows := flows - {s.key};
      }
      assert flows == Settle(table, s.key, Absorb(table[s.key], s.seqNo, s.payload, limits.maxBytes, s.now));
    }

    /** Create the segment's flow if it is new, enforcing the flow-count bound before growth. */
    method EnsureFlow(s: Segment) returns (admitted: bool)
      modifies this
      ensures sinceEvict == old(sinceEvict)
      ensures admitted == Admit(limits, old(flows), s).Some?
      ensures admitted ==> s.key in flows && Some(flows) == Admit(limits, old(flows), s)
      ensures !admitted ==> flows == FullTable(limits, old(flows), s.now)
    {
      if s.key !in flows {
        if |flows| >= limits.maxFlows {
          EvictExpired(s.now);
          if |flows| >= limits.maxFlows {
            return false;
          }
        }
        flows := flows[s.key := Flow(s.seqNo, [], None, s.now)];
      }
      return true;
    }

    /** The engine's inner closure: update the flow in place, report the answer and whether to drop it. */
    method ProcessSegment(s: Segment) returns (host: Option<Bytes>, drop: bool)
      requires 0 < |s.payload| < TWO_32 && s.key in flows
      modifies this
      ensures sinceEvict == old(sinceEvict)
      ensures
        var out := Absorb(old(flows)[s.key], s.seqNo, s.payload, limits.maxBytes, s.now);
        && host == out.Answer() && drop == out.Drop?
        && s.key in flows && flows == old(flows)[s.key := flows[s.key]]
        && (out.Keep? ==> flows[s.key] == out.flow)
    {
      var f := flows[s.key].(lastSeen := s.now);
      flows := flows[s.key := f];
      if f.decided.Some? {
        return f.decided, false;
      }
      var buffer := f.buffer;
      if |buffer| == 0 {
        if s.payload[0] != 0x16 {
          return None, true;
        }
        buffer := s.payload;
      } else {
        var expected := WrapAdd(f.baseSeq, Low32(|buffer|));
        if s.seqNo != expected {
          if s.seqNo < expected && WrapAdd(s.seqNo, |s.payload|) > expected {
            var covered := expected - s.seqNo;
            var newTail := s.payload[covered..];
            var room := if limits.maxBytes > |buffer| then limits.maxBytes - |buffer| else 0;
            if |newTail| > room {
              return None, true;
            }
            buffer := buffer + newTail;
          } else if s.seqNo < expected {
            return f.decided, false;
          } else {
            return None, true;
          }
        } else {
          var room := if limits.maxBytes > |buffer| then limits.maxBytes - |buffer| else 0;
          if |s.payload| > room {
            return None, true;
          }
          buffer := buffer + s.payload;
        }
      }
      if |buffer| > limits.maxBytes {
        return None, true;
      }
      var parsed := ExtractTlsSni(buffer);
      f := if parsed.Some? then f.(buffer := [], decided := parsed) else f.(buffer := buffer);
      flows := flows[s.key := f];
      return f.decided, false;
    }
  }

  // ---- Runs ----

  function Run(lim: Limits, st: State, segs: seq<Segment>): State
    requires forall x <- segs :: |x.payload| < TWO_32
  {
    if |segs| == 0 then st
    else
      var n := |segs| - 1;
      assert segs[n] in segs;
      Feed(lim, Run(lim, st, segs[..n]), segs[n]).0
  }

  /** What the last segment of a run is answered. */
  function LastAnswer(lim: Limits, st: State, segs: seq<Segment>): Option<Bytes>
    requires |segs| > 0 && forall x <- segs :: |x.payload| < TWO_32
  {
    var n := |segs| - 1;
    assert segs[n] in segs;
    Feed(lim, Run(lim, st, segs[..n]), segs[n]).1
  }

  lemma {:induction false} RunTwice(lim: Limits, st: State, a: seq<Segment>, b: seq<Segment>)
    requires (forall x <- a :: |x.payload| < TWO_32) && forall x <- b :: |x.payload| < TWO_32
    ensures Run(lim, st, a + b) == Run(lim, Run(lim, st, a), b)
    ensures |b| > 0 ==> LastAnswer(lim, st, a + b) == LastAnswer(lim, Run(lim, st, a), b)
  {
    hide Feed;
    if |b| == 0 {
      assert a + b == a;
    } else {
      var n := |b| - 1;
      RunTwice(lim, st, a, b[..n]);
      assert (a + b)[..|a| + n] == a + b[..n] && (a + b)[|a| + n] == b[n];
    }
  }

  // ---- Safety of every run ----

  /** What one sender put on a flow: an initial sequence number and the bytes that follow it. */
  datatype RawStream = RawStream(isn: U32, bytes: Bytes)
  type Stream = s: RawStream | |s.bytes| < TWO_32 witness RawStream(0, [])

  /** `piece` is the part of the stream at offset `o`, and `seqNo` is that offset's sequence number. */
  predicate PartAt(s: Stream, seqNo: U32, piece: Bytes, o: nat)
  {
    o + |piece| <= |s.bytes| && seqNo == WrapAdd(s.isn, o) && piece == s.bytes[o..o + |piece|]
  }

  ghost predicate PartOf(s: Stream, seqNo: U32, piece: Bytes)
  {
    exists o: nat :: PartAt(s, seqNo, piece, o)
  }

  /** Some contiguous part of the stream parses to this host. */
  ghost predicate NamedBy(s: Stream, host: Bytes)
  {
    exists seqNo, piece :: PartOf(s, seqNo, piece) && ExtractSni(piece) == Some(host)
  }

  ghost predicate FlowOk(maxBytes: nat, f: Flow, s: Stream)
  {
    match f.decided
    case Some(host) => f.buffer == [] && NamedBy(s, host)
    case None =>
      && 0 < |f.buffer| <= maxBytes && f.buffer[0] == 0x16
      && PartOf(s, f.baseSeq, f.buffer) && ExtractSni(f.buffer) == None
  }

  ghost predicate TableOk(lim: Limits, flows: map<FlowKey, Flow>, streams: FlowKey -> Stream)
  {
    |flows| <= lim.maxFlows && forall k <- flows :: FlowOk(lim.maxBytes, flows[k], streams(k))
  }

  /** The segment carries bytes of its flow's stream; order, repetition and overlap are free. */
  ghost predicate Consistent(s: Segment, streams: FlowKey -> Stream)
  {
    PartOf(streams(s.key), s.seqNo, s.payload)
  }

  /** A retransmission that overlaps the buffer's end covers exactly the bytes it claims to. */
  lemma OverlapIsExact(s: Stream, base: U32, buffer: Bytes, seqNo: U32, payload: Bytes)
    requires 0 < |buffer| && 0 < |payload|
    requires PartOf(s, base, buffer) && PartOf(s, seqNo, payload)
    ensures
      var expected := WrapAdd(base, |buffer|);
      && (seqNo == expected ==> PartOf(s, base, buffer + payload))
      && (seqNo < expected < WrapAdd(seqNo, |payload|) ==>
            expected - seqNo <= |payload| && PartOf(s, base, buffer + payload[expected - seqNo..]))
  {
    hide WrapAdd;
    var expected := WrapAdd(base, |buffer|);
    var b: nat :| PartAt(s, base, buffer, b);
    var o: nat :| PartAt(s, seqNo, payload, o);
    Offsets(s.isn, b, |buffer|, o, |payload|);
    if seqNo == expected {
      JoinParts(s, base, buffer, b, o, payload, 0);
      assert payload[0..] == payload;
    } else if seqNo < expected < WrapAdd(seqNo, |payload|) {
      JoinParts(s, base, buffer, b, o, payload, expected - seqNo);
    }
  }

  /** Sequence numbers tell how far a segment overlaps what is already there. */
  lemma Offsets(isn: U32, b: nat, n: nat, o: nat, m: nat)
    requires 0 < n && 0 < m && b + n < TWO_32 && o + m < TWO_32
    ensures
      var expected, seqNo := WrapAdd(WrapAdd(isn, b), n), WrapAdd(isn, o);
      && (seqNo == expected ==> o == b + n)
      && (seqNo < expected < WrapAdd(seqNo, m) ==> expected - seqNo == b + n - o <= m)
  {
  }

  lemma JoinParts(s: Stream, base: U32, buffer: Bytes, b: nat, o: nat, payload: Bytes, covered: nat)
    requires PartAt(s, base, buffer, b) && o + |payload| <= |s.bytes| && payload == s.bytes[o..o + |payload|]
    requires covered <= |payload| && o + covered == b + |buffer|
    ensures PartOf(s, base, buffer + payload[covered..])
  {
    hide WrapAdd;
    var tail := payload[covered..];
    assert tail == s.bytes[b + |buffer|..o + |payload|];
    assert PartAt(s, base, buffer + tail, b);
  }

  lemma OfferIsSafe(f: Flow, buffer: Bytes, maxBytes: nat, s: Stream)
    requires f.decided.None? && 0 < |buffer| && buffer[0] == 0x16 && PartOf(s, f.baseSeq, buffer)
    ensures
      var out := Offer(f, buffer, maxBytes);
      && (out.Keep? ==> FlowOk(maxBytes, out.flow, s))
      && (out.Answer().Some? ==> NamedBy(s, out.Answer().value))
  {
    hide ExtractSni;
  }

  lemma AbsorbIsSafe(f: Flow, seqNo: U32, payload: Bytes, maxBytes: nat, now: int, s: Stream)
    requires FlowOk(maxBytes, f, s) || f == Flow(seqNo, [], None, now)
    requires 0 < |payload| && PartOf(s, seqNo, payload)
    ensures
      var out := Absorb(f, seqNo, payload, maxBytes, now);
      && (out.Keep? ==> FlowOk(maxBytes, out.flow, s))
      && (out.Answer().Some? ==> NamedBy(s, out.Answer().value))
  {
    hide ExtractSni, Offer;
    var f' := f.(lastSeen := now);
    if f.decided.None? {
      if |f.buffer| == 0 {
        if payload[0] == 0x16 {
          OfferIsSafe(f', payload, maxBytes, s);
        }
      } else {
        var expected := WrapAdd(f.baseSeq, |f.buffer|);
        OverlapIsExact(s, f.baseSeq, f.buffer, seqNo, payload);
        if seqNo == expected {
          OfferIsSafe(f', f.buffer + payload, maxBytes, s);
        } else if seqNo < expected < WrapAdd(seqNo, |payload|) {
          OfferIsSafe(f', f.buffer + payload[expected - seqNo..], maxBytes, s);
        }
      }
    }
  }

  lemma AdmitIsSafe(lim: Limits, flows: map<FlowKey, Flow>, s: Segment, streams: FlowKey -> Stream)
    requires TableOk(lim, flows, streams)
    ensures TableOk(lim, Evicted(flows, lim.idleTimeout, s.now), streams)
    ensures TableOk(lim, flows - {s.key}, streams)
    ensures Admit(lim, flows, s).Some? ==>
      var admitted := Admit(lim, flows, s).value;
      && s.key in admitted && |admitted| <= lim.maxFlows && TableOk(lim, admitted - {s.key}, streams)
      && (FlowOk(lim.maxBytes, admitted[s.key], streams(s.key)) || admitted[s.key] == Flow(s.seqNo, [], None, s.now))
  {
    hide FlowOk, TableOk, Evicted;
    EvictedIsSafe(lim, flows, s.now, streams);
    RemovedIsSafe(lim, flows, s.key, streams);
    if s.key in flows {
      Listed(lim, flows, s.key, streams);
    } else if Admit(lim, flows, s).Some? {
      var room := FullTable(lim, flows, s.now);
      var admitted := Admit(lim, flows, s).value;
      RemovedIsSafe(lim, room, s.key, streams);
      assert admitted - {s.key} == room - {s.key};
    }
  }

  lemma Listed(lim: Limits, flows: map<FlowKey, Flow>, k: FlowKey, streams: FlowKey -> Stream)
    requires TableOk(lim, flows, streams) && k in flows
    ensures |flows| <= lim.maxFlows && FlowOk(lim.maxBytes, flows[k], streams(k))
  {
  }

  lemma EvictedIsSafe(lim: Limits, flows: map<FlowKey, Flow>, now: int, streams: FlowKey -> Stream)
    requires TableOk(lim, flows, streams)
    ensures TableOk(lim, Evicted(flows, lim.idleTimeout, now), streams)
  {
    hide FlowOk;
    SubmapSize(Evicted(flows, lim.idleTimeout, now), flows);
  }

  lemma RemovedIsSafe(lim: Limits, flows: map<FlowKey, Flow>, k: FlowKey, streams: FlowKey -> Stream)
    requires TableOk(lim, flows, streams)
    ensures TableOk(lim, flows - {k}, streams)
  {
    hide FlowOk;
    SubmapSize(flows - {k}, flows);
  }

  lemma StepIsSafe(lim: Limits, st: State, s: Segment, streams: FlowKey -> Stream)
    requires TableOk(lim, st.flows, streams) && Consistent(s, streams)
    ensures
      var (next, answer) := Feed(lim, st, s);
      && TableOk(lim, next.flows, streams)
      && (answer.Some? ==> NamedBy(streams(s.key), answer.value))
  {
    hide Absorb, FlowOk, NamedBy, Sweeps, Admit, Evicted;
    AdmitIsSafe(lim, st.flows, s, streams);
    var st := Swept(lim, st, s.now);
    AdmitIsSafe(lim, st.flows, s, streams);
    if 0 < |s.payload| && !s.finRst && Admit(lim, st.flows, s).Some? {
      var flows := Admit(lim, st.flows, s).value;
      AbsorbIsSafe(flows[s.key], s.seqNo, s.payload, lim.maxBytes, s.now, streams(s.key));
      SettleIsSafe(lim, flows, s.key, Absorb(flows[s.key], s.seqNo, s.payload, lim.maxBytes, s.now), streams);
    }
  }

  lemma SettleIsSafe(lim: Limits, flows: map<FlowKey, Flow>, key: FlowKey, out: Outcome, streams: FlowKey -> Stream)
    requires key in flows && |flows| <= lim.maxFlows && TableOk(lim, flows - {key}, streams)
    requires out.Keep? ==> FlowOk(lim.maxBytes, out.flow, streams(key))
    ensures TableOk(lim, Settle(flows, key, out), streams)
  {
    hide FlowOk;
    forall k | k in flows && k != key
      ensures FlowOk(lim.maxBytes, flows[k], streams(k))
    {
      assert k in flows - {key};
    }
  }

  /** Whatever arrives, buffers hold true parts of their streams, within the limits, and only such parts are named. */
  lemma {:induction false} RunIsSafe(lim: Limits, st: State, segs: seq<Segment>, streams: FlowKey -> Stream)
    requires TableOk(lim, st.flows, streams)
    requires forall x <- segs :: Consistent(x, streams)
    ensures forall x <- segs :: |x.payload| < TWO_32
    ensures TableOk(lim, Run(lim, st, segs).flows, streams)
    ensures |segs| > 0 && LastAnswer(lim, st, segs).Some? ==>
      NamedBy(streams(segs[|segs| - 1].key), LastAnswer(lim, st, segs).value)
  {
    hide Feed, TableOk, NamedBy;
    if |segs| > 0 {
      var n := |segs| - 1;
      assert segs[n] in segs;
      RunIsSafe(lim, st, segs[..n], streams);
      StepIsSafe(lim, Run(lim, st, segs[..n]), segs[n], streams);
    }
  }

  // ---- What one flow collects, by offsets ----

  /** The segment brings bytes to flow `k`. */
  predicate Own(x: Segment, k: FlowKey)
  {
    x.key == k && x.payload != []
  }

  /** The offset that a sequence number stands for. */
  function OffsetOf(s: Stream, seqNo: U32): (o: nat)
    ensures o < TWO_32 && WrapAdd(s.isn, o) == seqNo
  {
    if seqNo >= s.isn then seqNo - s.isn else seqNo + TWO_32 - s.isn
  }

  function End(s: Stream, x: Segment): nat
  {
    OffsetOf(s, x.seqNo) + |x.payload|
  }

  /** The segments are small enough, and those of flow `k` carry bytes of the stream, in any order. */
  predicate AllFit(segs: seq<Segment>, k: FlowKey, s: Stream)
  {
    forall x <- segs :: |x.payload| < TWO_32 && (Own(x, k) ==> PartAt(s, x.seqNo, x.payload, OffsetOf(s, x.seqNo)))
  }

  /** One offset's number is below another's: what the code compares. It is their order unless numbers wrap. */
  predicate Below(s: Stream, a: nat, b: nat)
    requires a < TWO_32 && b < TWO_32
  {
    WrapAdd(s.isn, a) < WrapAdd(s.isn, b)
  }

  /** The part of the stream that a flow has collected, if it is tracked. */
  datatype Span = Nothing | Span(from: nat, to: nat)

  predicate Within(sp: Span, s: Stream)
  {
    sp.Span? ==> sp.from < sp.to <= |s.bytes|
  }

  function Heard(sp: Span, s: Stream): Option<Bytes>
    requires Within(sp, s)
  {
    if sp.Nothing? then None else ExtractSni(s.bytes[sp.from..sp.to])
  }

  function Bounded(from: nat, to: nat, maxBytes: nat): Span
    requires from < to
  {
    if to - from > maxBytes then Nothing else Span(from, to)
  }

  /**
   What a segment of the flow does to the span: an end mark forgets it; a segment that begins like a record
   opens one; the next bytes extend it, with or without repeated ones; a higher number loses it; anything else
   is a repetition. A span that names a host stays.
   */
  function SpanStep(sp: Span, s: Stream, x: Segment, maxBytes: nat): (r: Span)
    requires Within(sp, s) && x.payload != [] && PartAt(s, x.seqNo, x.payload, OffsetOf(s, x.seqNo))
    ensures Within(r, s)
  {
    var o, end := OffsetOf(s, x.seqNo), End(s, x);
    if x.finRst then Nothing
    else match sp
      case Nothing => if x.payload[0] == 0x16 then Bounded(o, end, maxBytes) else Nothing
      case Span(from, to) =>
        if Heard(sp, s).Some? then sp
        else if o == to then Bounded(from, end, maxBytes)
        else if Below(s, to, o) then Nothing
        else if Below(s, to, end) then
          Overlaps(s, o, to, end);
          Bounded(from, end, maxBytes)
        else sp
  }

  lemma Overlaps(s: Stream, o: nat, to: nat, end: nat)
    requires o <= end < TWO_32 && to < TWO_32 && o != to && !Below(s, to, o) && Below(s, to, end)
    ensures o < to < end && WrapAdd(s.isn, to) - WrapAdd(s.isn, o) == to - o
  {
  }

  function SpanOver(segs: seq<Segment>, k: FlowKey, s: Stream, maxBytes: nat): (sp: Span)
    requires AllFit(segs, k, s)
    ensures Within(sp, s)
  {
    if |segs| == 0 then Nothing
    else
      var n := |segs| - 1;
      assert segs[n] in segs;
      var sp := SpanOver(segs[..n], k, s, maxBytes);
      if Own(segs[n], k) then SpanStep(sp, s, segs[n], maxBytes) else sp
  }

  /** The flow's record is that of the span. */
  predicate Collected(f: Flow, s: Stream, from: nat, to: nat)
  {
    && from < to <= |s.bytes| && f.decided == ExtractSni(s.bytes[from..to])
    && (f.decided.None? ==> f.baseSeq == WrapAdd(s.isn, from) && f.buffer == s.bytes[from..to])
  }

  /** An outcome that leaves the span. */
  predicate Leaves(out: Outcome, sp: Span, s: Stream, now: int)
    requires Within(sp, s)
  {
    match sp
    case Nothing => out.Drop?
    case Span(from, to) => out.Keep? && Collected(out.flow, s, from, to) && out.flow.lastSeen == now
  }

  lemma OfferLeaves(f: Flow, s: Stream, from: nat, to: nat, maxBytes: nat)
    requires from < to <= |s.bytes| && f.decided == None && f.baseSeq == WrapAdd(s.isn, from)
    ensures Leaves(Offer(f, s.bytes[from..to], maxBytes), Bounded(from, to, maxBytes), s, f.lastSeen)
  {
    hide ExtractSni, WrapAdd;
  }

  lemma AbsorbFirst(x: Segment, s: Stream, maxBytes: nat)
    requires x.payload != [] && !x.finRst && PartAt(s, x.seqNo, x.payload, OffsetOf(s, x.seqNo))
    ensures
      Leaves(Absorb(Flow(x.seqNo, [], None, x.now), x.seqNo, x.payload, maxBytes, x.now),
             SpanStep(Nothing, s, x, maxBytes), s, x.now)
  {
    hide ExtractSni, WrapAdd, Offer, Leaves, OffsetOf;
    if x.payload[0] == 0x16 {
      OfferLeaves(Flow(x.seqNo, [], None, x.now), s, OffsetOf(s, x.seqNo), End(s, x), maxBytes);
    } else {
      DropLeaves(s, x.now);
    }
  }

  lemma DropLeaves(s: Stream, now: int)
    ensures Leaves(Drop, Nothing, s, now)
  {
  }

  /** The code's sequence-number branches are the span's, for any traffic of the stream. */
  lemma AbsorbFollowsSpan(f: Flow, x: Segment, s: Stream, from: nat, to: nat, maxBytes: nat)
    requires x.payload != [] && !x.finRst && PartAt(s, x.seqNo, x.payload, OffsetOf(s, x.seqNo))
    requires Collected(f, s, from, to)
    ensures
      Leaves(Absorb(f, x.seqNo, x.payload, maxBytes, x.now), SpanStep(Span(from, to), s, x, maxBytes), s, x.now)
  {
    hide ExtractSni, Offer, OffsetOf;
    if f.decided.None? {
      var o, end := OffsetOf(s, x.seqNo), End(s, x);
      NumberOfEnd(s, from, to);
      SameNumber(s, o, to);
      if o == to {
        assert f.buffer + x.payload == s.bytes[from..end];
        OfferLeaves(f.(lastSeen := x.now), s, from, end, maxBytes);
      } else if !Below(s, to, o) && Below(s, to, end) {
        Overlaps(s, o, to, end);
        assert f.buffer + x.payload[to - o..] == s.bytes[from..end];
        OfferLeaves(f.(lastSeen := x.now), s, from, end, maxBytes);
      }
      assert WrapAdd(x.seqNo, |x.payload|) == WrapAdd(s.isn, end);
    }
  }

  lemma NumberOfEnd(s: Stream, from: nat, to: nat)
    requires from < to <= |s.bytes|
    ensures WrapAdd(WrapAdd(s.isn, from), Low32(to - from)) == WrapAdd(s.isn, to)
  {
  }

  lemma SameNumber(s: Stream, a: nat, b: nat)
    requires a < TWO_32 && b < TWO_32
    ensures WrapAdd(s.isn, a) == WrapAdd(s.isn, b) <==> a == b
  {
  }

  // ---- Exactly what a flow is answered ----

  /** When flow `k` was last heard. */
  function LastHeard(segs: seq<Segment>, k: FlowKey): Option<int>
  {
    if |segs| == 0 then None
    else if Own(segs[|segs| - 1], k) then Some(segs[|segs| - 1].now)
    else LastHeard(segs[..|segs| - 1], k)
  }

  /** No segment comes more than the idle timeout after flow `k` was last heard. */
  predicate NeverIdle(segs: seq<Segment>, k: FlowKey, idleTimeout: nat)
  {
    |segs| > 0 ==>
      var n := |segs| - 1;
      && NeverIdle(segs[..n], k, idleTimeout)
      && var last := LastHeard(segs[..n], k);
         last.Some? ==> segs[n].now - idleTimeout <= last.value
  }

  /** A segment that begins like a record finds its flow in the table, or room for it. */
  predicate FindsRoom(lim: Limits, st: State, segs: seq<Segment>, k: FlowKey)
    requires forall x <- segs :: |x.payload| < TWO_32
  {
    |segs| > 0 ==>
      var n := |segs| - 1;
      && FindsRoom(lim, st, segs[..n], k)
      && (Own(segs[n], k) && !segs[n].finRst && segs[n].payload[0] == 0x16 ==>
            Admit(lim, Swept(lim, Run(lim, st, segs[..n]), segs[n].now).flows, segs[n]).Some?)
  }

  /** The table holds flow `k` as the span says, last heard at `last`. */
  predicate Mirrors(flows: map<FlowKey, Flow>, k: FlowKey, s: Stream, sp: Span, last: Option<int>)
  {
    match sp
    case Nothing => k !in flows
    case Span(from, to) => k in flows && Collected(flows[k], s, from, to) && last == Some(flows[k].lastSeen)
  }

  lemma OtherFlowStep(lim: Limits, st: State, seg: Segment, k: FlowKey)
    requires !Own(seg, k) && |seg.payload| < TWO_32
    requires k in st.flows ==> seg.now - lim.idleTimeout <= st.flows[k].lastSeen
    ensures
      var flows := Feed(lim, st, seg).0.flows;
      && (k in flows <==> k in st.flows)
      && (k in flows ==> flows[k] == st.flows[k])
  {
    hide Absorb;
  }

  lemma OwnStep(lim: Limits, st: State, x: Segment, k: FlowKey, s: Stream, sp: Span, last: Option<int>)
    requires Own(x, k) && PartAt(s, x.seqNo, x.payload, OffsetOf(s, x.seqNo)) && Within(sp, s)
    requires Mirrors(st.flows, k, s, sp, last) && (last.Some? ==> x.now - lim.idleTimeout <= last.value)
    requires !x.finRst && x.payload[0] == 0x16 ==> Admit(lim, Swept(lim, st, x.now).flows, x).Some?
    ensures
      var (next, answer) := Feed(lim, st, x);
      var sp' := SpanStep(sp, s, x, lim.maxBytes);
      Mirrors(next.flows, k, s, sp', Some(x.now)) && answer == Heard(sp', s)
  {
    hide Absorb, ExtractSni, Collected, PartAt;
    var swept := Swept(lim, st, x.now).flows;
    if !x.finRst {
      match sp
      case Span(from, to) =>
        AbsorbFollowsSpan(st.flows[k], x, s, from, to, lim.maxBytes);
        Decides(s, SpanStep(sp, s, x, lim.maxBytes));
      case Nothing =>
        if Admit(lim, swept, x).Some? {
          AbsorbFirst(x, s, lim.maxBytes);
          Decides(s, SpanStep(sp, s, x, lim.maxBytes));
        }
    }
  }

  lemma Decides(s: Stream, sp: Span)
    requires Within(sp, s)
    ensures sp.Span? ==> forall f: Flow :: Collected(f, s, sp.from, sp.to) ==> f.decided == Heard(sp, s)
  {
    hide ExtractSni;
  }

  /**
   For any traffic of a stream on one flow, in any order, repeated, overlapping, with gaps and wrapping numbers,
   and among any other flows: the table holds the flow's span, and each segment is answered with what it names.
   */
  lemma {:induction false} ExactAnswers(lim: Limits, st: State, segs: seq<Segment>, k: FlowKey, s: Stream)
    requires k !in st.flows && AllFit(segs, k, s)
    requires NeverIdle(segs, k, lim.idleTimeout) && FindsRoom(lim, st, segs, k)
    ensures Mirrors(Run(lim, st, segs).flows, k, s, SpanOver(segs, k, s, lim.maxBytes), LastHeard(segs, k))
    ensures |segs| > 0 && Own(segs[|segs| - 1], k) ==>
      LastAnswer(lim, st, segs) == Heard(SpanOver(segs, k, s, lim.maxBytes), s)
  {
    hide Feed, ExtractSni, SpanStep, Collected, PartAt, Admit, Swept;
    if |segs| > 0 {
      var n := |segs| - 1;
      var x, before := segs[n], segs[..n];
      assert x in segs;
      ExactAnswers(lim, st, before, k, s);
      if Own(x, k) {
        OwnStep(lim, Run(lim, st, before), x, k, s, SpanOver(before, k, s, lim.maxBytes), LastHeard(before, k));
      } else {
        OtherFlowStep(lim, Run(lim, st, before), x, k);
      }
    }
  }

  /** Without any assumption on time or room: what is answered begins with some segment of the run. */
  ghost predicate StemsFrom(flows: map<FlowKey, Flow>, k: FlowKey, s: Stream, segs: seq<Segment>)
  {
    k in flows ==> exists x: Segment, to: nat ::
      x in segs && Own(x, k) && Collected(flows[k], s, OffsetOf(s, x.seqNo), to)
  }

  ghost predicate NamedFrom(answer: Option<Bytes>, k: FlowKey, s: Stream, segs: seq<Segment>)
  {
    answer == None || exists x: Segment, to: nat ::
      x in segs && Own(x, k) && Named(answer, s, OffsetOf(s, x.seqNo), to)
  }

  predicate Named(answer: Option<Bytes>, s: Stream, from: nat, to: nat)
  {
    from <= to <= |s.bytes| && answer == ExtractSni(s.bytes[from..to])
  }

  lemma StepKeepsStart(sp: Span, s: Stream, x: Segment, maxBytes: nat)
    requires Within(sp, s) && x.payload != [] && PartAt(s, x.seqNo, x.payload, OffsetOf(s, x.seqNo))
    ensures
      var r := SpanStep(sp, s, x, maxBytes);
      r.Span? ==> r.from == if sp.Span? then sp.from else OffsetOf(s, x.seqNo)
  {
    hide ExtractSni, OffsetOf, WrapAdd;
  }

  lemma LeavesNamed(out: Outcome, sp: Span, s: Stream, now: int)
    requires Within(sp, s) && Leaves(out, sp, s, now)
    ensures out.Answer() == None || (sp.Span? && Named(out.Answer(), s, sp.from, sp.to))
  {
    hide ExtractSni;
  }

  lemma StemStep(lim: Limits, st: State, segs: seq<Segment>, x: Segment, k: FlowKey, s: Stream)
    requires StemsFrom(st.flows, k, s, segs) && |x.payload| < TWO_32
    requires Own(x, k) ==> PartAt(s, x.seqNo, x.payload, OffsetOf(s, x.seqNo))
    ensures
      var (next, answer) := Feed(lim, st, x);
      StemsFrom(next.flows, k, s, segs + [x]) && (Own(x, k) ==> NamedFrom(answer, k, s, segs + [x]))
  {
    hide Absorb, ExtractSni, Collected, PartAt, OffsetOf, SpanStep, Named;
    assert (forall y <- segs :: y in segs + [x]) && x in segs + [x];
    var swept := Swept(lim, st, x.now).flows;
    if Own(x, k) && !x.finRst && Admit(lim, swept, x).Some? {
      var f := Admit(lim, swept, x).value[k];
      var out := Absorb(f, x.seqNo, x.payload, lim.maxBytes, x.now);
      var sp, y := Nothing, x;
      if k in swept {
        var z: Segment, to: nat :| z in segs && Own(z, k) && Collected(st.flows[k], s, OffsetOf(s, z.seqNo), to);
        sp, y := Span(OffsetOf(s, z.seqNo), to), z;
        CollectedIsWithin(f, s, sp.from, sp.to);
        AbsorbFollowsSpan(f, x, s, sp.from, sp.to, lim.maxBytes);
      } else {
        AbsorbFirst(x, s, lim.maxBytes);
      }
      var sp' := SpanStep(sp, s, x, lim.maxBytes);
      StepKeepsStart(sp, s, x, lim.maxBytes);
      LeavesNamed(out, sp', s, x.now);
      if sp'.Span? {
        assert y in segs + [x] && Own(y, k) && Collected(out.flow, s, OffsetOf(s, y.seqNo), sp'.to);
        assert out.Answer() == None || Named(out.Answer(), s, OffsetOf(s, y.seqNo), sp'.to);
      }
    }
  }

  lemma CollectedIsWithin(f: Flow, s: Stream, from: nat, to: nat)
    requires Collected(f, s, from, to)
    ensures Within(Span(from, to), s)
  {
  }

  /**
   From a table without the flow, whatever the clock, the room and the order: every host that is answered for the
   flow is named by bytes that begin with one of the segments fed since.
   */
  lemma {:induction false} AnswersStem(lim: Limits, st: State, segs: seq<Segment>, k: FlowKey, s: Stream)
    requires k !in st.flows && AllFit(segs, k, s)
    ensures StemsFrom(Run(lim, st, segs).flows, k, s, segs)
    ensures |segs| > 0 && Own(segs[|segs| - 1], k) ==> NamedFrom(LastAnswer(lim, st, segs), k, s, segs)
  {
    hide Feed, ExtractSni, Collected, PartAt, StemsFrom, NamedFrom;
    if |segs| == 0 {
      NothingStems(st.flows, k, s);
    } else {
      var n := |segs| - 1;
      assert segs[n] in segs && segs == segs[..n] + [segs[n]];
      AnswersStem(lim, st, segs[..n], k, s);
      StemStep(lim, Run(lim, st, segs[..n]), segs[..n], segs[n], k, s);
    }
  }

  lemma NothingStems(flows: map<FlowKey, Flow>, k: FlowKey, s: Stream)
    requires k !in flows
    ensures StemsFrom(flows, k, s, [])
  {
  }

  /** A segment that is marked as the flow's last makes the table forget it. */
  lemma EndForgets(lim: Limits, st: State, x: Segment)
    requires 0 < |x.payload| < TWO_32 && x.finRst
    ensures x.key !in Feed(lim, st, x).0.flows && Feed(lim, st, x).1 == None
  {
  }

  /** What a repeated segment does to an undecided flow: nothing, unless the numbers wrapped since; then it is lost. */
  lemma DuplicateKeepsExactly(f: Flow, x: Segment, s: Stream, from: nat, to: nat, maxBytes: nat)
    requires Collected(f, s, from, to) && f.decided == None
    requires x.payload != [] && PartAt(s, x.seqNo, x.payload, OffsetOf(s, x.seqNo)) && End(s, x) <= to
    ensures Absorb(f, x.seqNo, x.payload, maxBytes, x.now) ==
            if Below(s, OffsetOf(s, x.seqNo), to) then Keep(f.(lastSeen := x.now)) else Drop
  {
    hide ExtractSni, Offer, OffsetOf;
    NumberOfEnd(s, from, to);
    SameNumber(s, OffsetOf(s, x.seqNo), to);
    RepeatedIsBelow(s, OffsetOf(s, x.seqNo), End(s, x), to);
    assert WrapAdd(x.seqNo, |x.payload|) == WrapAdd(s.isn, End(s, x));
  }

  lemma RepeatedIsBelow(s: Stream, o: nat, end: nat, to: nat)
    requires o < end <= to < TWO_32
    ensures Below(s, o, to) ==> !Below(s, to, end)
  {
  }

  /** Two bytes collected across the wrap: the first of them sent again loses the flow. */
  lemma WrappedDuplicateIsLost(k: FlowKey, maxBytes: nat)
    ensures
      var isn: U32 := TWO_32 - 1;
      Absorb(Flow(isn, [0x16, 0x03], None, 0), isn, [0x16], maxBytes, 1) == Drop
  {
    var s: Stream := RawStream(TWO_32 - 1, [0x16, 0x03]);
    var f, x := Flow(TWO_32 - 1, [0x16, 0x03], None, 0), Segment(k, TWO_32 - 1, [0x16], false, 1);
    assert s.bytes[0..2] == [0x16, 0x03] && ExtractSni([0x16, 0x03]) == None;
    assert OffsetOf(s, x.seqNo) == 0 && s.bytes[0..1] == x.payload;
    DuplicateKeepsExactly(f, x, s, 0, 2, maxBytes);
  }

  // ---- Segmentation independence ----

  /** No segment that brings bytes to flow `k` is marked as its last. */
  predicate Open(segs: seq<Segment>, k: FlowKey)
  {
    forall x <- segs :: Own(x, k) ==> !x.finRst
  }

  /** How far into the stream the segments of flow `k` have come. */
  function Reached(segs: seq<Segment>, k: FlowKey, s: Stream): nat
  {
    if |segs| == 0 then 0
    else
      var n := |segs| - 1;
      var q := Reached(segs[..n], k, s);
      if Own(segs[n], k) && End(s, segs[n]) > q then End(s, segs[n]) else q
  }

  /** Each segment of flow `k` begins where the ones before it end. */
  predicate InOrder(segs: seq<Segment>, k: FlowKey, s: Stream)
  {
    |segs| > 0 ==>
      var n := |segs| - 1;
      InOrder(segs[..n], k, s) && (Own(segs[n], k) ==> OffsetOf(s, segs[n].seqNo) == Reached(segs[..n], k, s))
  }

  /**
   Each segment of flow `k` begins no later than that: in order, or repeating bytes, in whole or in part, while
   the numbers have not wrapped between what it repeats and what is new.
   */
  predicate GapFree(segs: seq<Segment>, k: FlowKey, s: Stream)
  {
    |segs| > 0 ==>
      var n := |segs| - 1;
      GapFree(segs[..n], k, s) && (Own(segs[n], k) ==> Follows(segs[n], s, Reached(segs[..n], k, s)))
  }

  predicate Follows(x: Segment, s: Stream, q: nat)
  {
    var o, end := OffsetOf(s, x.seqNo), End(s, x);
    && o <= q < TWO_32 && end < TWO_32
    && (o < q ==> Below(s, o, q)) && (o < q < end ==> Below(s, q, end))
  }

  lemma {:induction false} ReachedIsWithin(segs: seq<Segment>, k: FlowKey, s: Stream)
    requires AllFit(segs, k, s)
    ensures Reached(segs, k, s) <= |s.bytes|
  {
    hide OffsetOf;
    if |segs| > 0 {
      assert segs[|segs| - 1] in segs;
      ReachedIsWithin(segs[..|segs| - 1], k, s);
    }
  }

  lemma {:induction false} InOrderIsGapFree(segs: seq<Segment>, k: FlowKey, s: Stream)
    requires AllFit(segs, k, s) && InOrder(segs, k, s)
    ensures GapFree(segs, k, s)
  {
    hide OffsetOf, Below;
    if |segs| > 0 {
      assert segs[|segs| - 1] in segs;
      InOrderIsGapFree(segs[..|segs| - 1], k, s);
    }
  }

  /** What the span of a stream from offset `from` names once `q` bytes of the stream are there. */
  predicate Covers(sp: Span, s: Stream, from: nat, q: nat)
    requires Within(sp, s)
  {
    && sp.Span? && sp.from == from < sp.to <= q <= |s.bytes| && Heard(sp, s) == ExtractSni(s.bytes[from..q])
    && (Heard(sp, s) == None ==> sp.to == q)
  }

  lemma CoversStep(sp: Span, s: Stream, x: Segment, from: nat, q: nat, maxBytes: nat)
    requires Within(sp, s) && x.payload != [] && PartAt(s, x.seqNo, x.payload, OffsetOf(s, x.seqNo)) && !x.finRst
    requires Covers(sp, s, from, q) && Follows(x, s, q) && |s.bytes| <= maxBytes
    ensures Covers(SpanStep(sp, s, x, maxBytes), s, from, if End(s, x) > q then End(s, x) else q)
  {
    hide ExtractSni, OffsetOf;
    var o, end := OffsetOf(s, x.seqNo), End(s, x);
    if Heard(sp, s).Some? {
      if end > q {
        SniStable(s.bytes[from..q], s.bytes[q..end]);
        assert s.bytes[from..q] + s.bytes[q..end] == s.bytes[from..end];
      }
    } else {
      SameNumber(s, o, q);
      if o < q && end <= q {
        RepeatedIsBelow(s, o, end, q);
      }
    }
  }

  /** As long as no segment ends the flow, its span covers all that was received. */
  lemma {:induction false} SpanGrows(segs: seq<Segment>, k: FlowKey, s: Stream, maxBytes: nat)
    requires AllFit(segs, k, s) && GapFree(segs, k, s) && Open(segs, k)
    requires 0 < |s.bytes| <= maxBytes && s.bytes[0] == 0x16
    ensures
      var q, sp := Reached(segs, k, s), SpanOver(segs, k, s, maxBytes);
      if q == 0 then sp == Nothing else Covers(sp, s, 0, q)
  {
    hide ExtractSni, OffsetOf, SpanStep, Covers, Below;
    if |segs| > 0 {
      var n := |segs| - 1;
      var x, before := segs[n], segs[..n];
      assert x in segs;
      SpanGrows(before, k, s, maxBytes);
      if Own(x, k) {
        var q := Reached(before, k, s);
        if q == 0 {
          CoversFirst(s, x, maxBytes);
        } else {
          CoversStep(SpanOver(before, k, s, maxBytes), s, x, 0, q, maxBytes);
        }
      }
    }
  }

  lemma CoversFirst(s: Stream, x: Segment, maxBytes: nat)
    requires x.payload != [] && PartAt(s, x.seqNo, x.payload, OffsetOf(s, x.seqNo)) && !x.finRst
    requires |s.bytes| <= maxBytes && x.payload[0] == 0x16
    ensures Covers(SpanStep(Nothing, s, x, maxBytes), s, OffsetOf(s, x.seqNo), End(s, x))
  {
    hide ExtractSni, OffsetOf;
  }

  /**
   Whatever the other flows do, each segment of a flow without gaps is answered with the parse of the stream
   prefix received up to and including it.
   */
  lemma PrefixAnswers(lim: Limits, st: State, segs: seq<Segment>, k: FlowKey, s: Stream)
    requires 0 < |s.bytes| <= lim.maxBytes && s.bytes[0] == 0x16
    requires k !in st.flows && AllFit(segs, k, s) && GapFree(segs, k, s) && Open(segs, k)
    requires NeverIdle(segs, k, lim.idleTimeout) && FindsRoom(lim, st, segs, k)
    requires |segs| > 0 && Own(segs[|segs| - 1], k)
    ensures Reached(segs, k, s) <= |s.bytes| && LastAnswer(lim, st, segs) == ExtractSni(s.bytes[..Reached(segs, k, s)])
  {
    hide LastAnswer, Run, ExtractSni, SpanOver, OffsetOf, GapFree, Open, NeverIdle, FindsRoom, Mirrors, AllFit;
    ExactAnswers(lim, st, segs, k, s);
    SpanGrows(segs, k, s, lim.maxBytes);
    ReachedIsWithin(segs, k, s);
    OwnIsReached(segs, k, s);
  }

  lemma OwnIsReached(segs: seq<Segment>, k: FlowKey, s: Stream)
    requires |segs| > 0 && Own(segs[|segs| - 1], k)
    ensures Reached(segs, k, s) > 0
  {
    hide OffsetOf;
  }

  /**
   A stream that names a host is classified the same however it is cut and repeated: for any two of its segments,
   the answers are `None` until the received prefix parses, and that host from then on.
   */
  lemma SegmentationIndependent(
    lim: Limits, st: State, segs: seq<Segment>, k: FlowKey, s: Stream, host: Bytes, i: nat)
    requires ExtractSni(s.bytes) == Some(host) && |s.bytes| <= lim.maxBytes
    requires k !in st.flows && AllFit(segs, k, s) && GapFree(segs, k, s) && Open(segs, k)
    requires NeverIdle(segs, k, lim.idleTimeout) && FindsRoom(lim, st, segs, k)
    requires i < |segs| && Own(segs[i], k) && Own(segs[|segs| - 1], k)
    ensures
      var early, late := LastAnswer(lim, st, segs[..i + 1]), LastAnswer(lim, st, segs);
      && (late == None || late == Some(host))
      && (early == Some(host) || Reached(segs, k, s) == |s.bytes| ==> late == Some(host))
  {
    hide LastAnswer, Run, ExtractSni, OffsetOf, GapFree, Open, NeverIdle, FindsRoom, AllFit, Reached;
    StartsWithRecord(s.bytes);
    Prefixes(lim, st, segs, k, s, i + 1);
    PrefixAnswers(lim, st, segs, k, s);
    PrefixAnswers(lim, st, segs[..i + 1], k, s);
    ParsedPrefixes(s.bytes, host, Reached(segs[..i + 1], k, s), Reached(segs, k, s));
  }

  /** A run's beginning meets the conditions that the run meets. */
  lemma {:induction false} Prefixes(lim: Limits, st: State, segs: seq<Segment>, k: FlowKey, s: Stream, n: nat)
    requires n <= |segs| && AllFit(segs, k, s) && GapFree(segs, k, s) && Open(segs, k)
    requires NeverIdle(segs, k, lim.idleTimeout) && FindsRoom(lim, st, segs, k)
    ensures
      var early := segs[..n];
      && AllFit(early, k, s) && GapFree(early, k, s) && Open(early, k)
      && NeverIdle(early, k, lim.idleTimeout) && FindsRoom(lim, st, early, k)
      && Reached(early, k, s) <= Reached(segs, k, s)
  {
    hide PartAt, OffsetOf, Follows, LastHeard, Run, Admit, Swept;
    if n < |segs| {
      var m := |segs| - 1;
      Prefixes(lim, st, segs[..m], k, s, n);
      assert segs[..m][..n] == segs[..n];
    } else {
      assert segs[..n] == segs;
    }
  }

  predicate PrefixesAgree(bytes: Bytes, host: Bytes, m: nat, n: nat)
  {
    && m <= n <= |bytes|
    && (ExtractSni(bytes[..n]) == None || ExtractSni(bytes[..n]) == Some(host))
    && (ExtractSni(bytes[..m]) == Some(host) || n == |bytes| ==> ExtractSni(bytes[..n]) == Some(host))
  }

  lemma ParsedPrefixes(bytes: Bytes, host: Bytes, m: nat, n: nat)
    requires ExtractSni(bytes) == Some(host) && m <= n <= |bytes|
    ensures PrefixesAgree(bytes, host, m, n)
  {
    hide ExtractSni;
    assert bytes[..|bytes|] == bytes;
    if ExtractSni(bytes[..n]).Some? {
      SniStable(bytes[..n], bytes[n..]);
      assert bytes[..n] + bytes[n..] == bytes;
    }
    if ExtractSni(bytes[..m]).Some? {
      SniStable(bytes[..m], bytes[m..n]);
      assert bytes[..m] + bytes[m..n] == bytes[..n];
    }
  }

  lemma StartsWithRecord(p: Bytes)
    requires ExtractSni(p).Some?
    ensures |p| > 0 && p[0] == 0x16
  {
  }

  // ---- Flows that are marked as ended ----

  /**
   Where collecting began: at the first segment since the last end mark whose first byte is that of a record.
   */
  function StartOf(segs: seq<Segment>, k: FlowKey, s: Stream): Option<nat>
  {
    if |segs| == 0 then None
    else
      var n := |segs| - 1;
      var x, start := segs[n], StartOf(segs[..n], k, s);
      if !Own(x, k) then start
      else if x.finRst then None
      else if start.Some? then start
      else if x.payload[0] == 0x16 then Some(OffsetOf(s, x.seqNo))
      else None
  }

  /** In order, but with end marks anywhere: the span covers all that was received since collecting began. */
  lemma {:induction false} SpanRestarts(segs: seq<Segment>, k: FlowKey, s: Stream, maxBytes: nat)
    requires AllFit(segs, k, s) && InOrder(segs, k, s) && |s.bytes| <= maxBytes
    ensures
      match StartOf(segs, k, s)
      case None => SpanOver(segs, k, s, maxBytes) == Nothing
      case Some(from) => Covers(SpanOver(segs, k, s, maxBytes), s, from, Reached(segs, k, s))
  {
    hide ExtractSni, OffsetOf, Covers, Below, Heard, Bounded;
    if |segs| > 0 {
      var n := |segs| - 1;
      var x, before := segs[n], segs[..n];
      assert x in segs;
      SpanRestarts(before, k, s, maxBytes);
      if Own(x, k) && !x.finRst {
        if StartOf(before, k, s).Some? {
          var sp := SpanOver(before, k, s, maxBytes);
          CoversStep(sp, s, x, StartOf(before, k, s).value, Reached(before, k, s), maxBytes);
        } else if x.payload[0] == 0x16 {
          CoversFirst(s, x, maxBytes);
        }
      }
    }
  }

  function ParseFrom(s: Stream, start: Option<nat>, q: nat): Option<Bytes>
  {
    if start.Some? && start.value <= q <= |s.bytes| then ExtractSni(s.bytes[start.value..q]) else None
  }

  /**
   An in-order stream with end marks anywhere: each segment is answered with the parse of what was received
   since collecting began, and with nothing if it did not.
   */
  lemma RestartedAnswers(lim: Limits, st: State, segs: seq<Segment>, k: FlowKey, s: Stream)
    requires k !in st.flows && AllFit(segs, k, s) && InOrder(segs, k, s) && |s.bytes| <= lim.maxBytes
    requires NeverIdle(segs, k, lim.idleTimeout) && FindsRoom(lim, st, segs, k)
    requires |segs| > 0 && Own(segs[|segs| - 1], k)
    ensures LastAnswer(lim, st, segs) == ParseFrom(s, StartOf(segs, k, s), Reached(segs, k, s))
  {
    hide LastAnswer, Run, ExtractSni, SpanOver, OffsetOf, InOrder, NeverIdle, FindsRoom, Mirrors, AllFit, StartOf,
      Reached;
    ExactAnswers(lim, st, segs, k, s);
    SpanRestarts(segs, k, s, lim.maxBytes);
  }

  /** Without end marks, a stream that begins like a record is collected from its beginning. */
  lemma {:induction false} OpenStartsAtZero(segs: seq<Segment>, k: FlowKey, s: Stream)
    requires AllFit(segs, k, s) && InOrder(segs, k, s) && Open(segs, k)
    requires |s.bytes| > 0 && s.bytes[0] == 0x16
    ensures StartOf(segs, k, s) == if Reached(segs, k, s) == 0 then None else Some(0)
  {
    hide OffsetOf;
    if |segs| > 0 {
      assert segs[|segs| - 1] in segs;
      OpenStartsAtZero(segs[..|segs| - 1], k, s);
    }
  }

  // ---- A flow on its own ----

  /** A flow that nothing else disturbs always finds room. */
  lemma {:induction false} AloneFindsRoom(lim: Limits, segs: seq<Segment>, k: FlowKey)
    requires lim.maxFlows > 0 && forall x <- segs :: x.key == k && |x.payload| < TWO_32
    ensures Run(lim, State(map[], 0), segs).flows.Keys <= {k} && FindsRoom(lim, State(map[], 0), segs, k)
  {
    hide Absorb;
    if |segs| > 0 {
      var n := |segs| - 1;
      assert segs[n] in segs;
      AloneFindsRoom(lim, segs[..n], k);
      OneFlow(lim, Run(lim, State(map[], 0), segs[..n]), segs[n]);
    }
  }

  lemma OneFlow(lim: Limits, st: State, x: Segment)
    requires lim.maxFlows > 0 && st.flows.Keys <= {x.key} && |x.payload| < TWO_32
    ensures Admit(lim, Swept(lim, st, x.now).flows, x).Some? && Feed(lim, st, x).0.flows.Keys <= {x.key}
  {
    hide Absorb, Sweeps;
    var flows := Swept(lim, st, x.now).flows;
    if x.key !in flows {
      assert flows == map[] && Evicted(map[], lim.idleTimeout, x.now) == map[];
    }
  }

  function Flat(pieces: seq<Bytes>): Bytes
  {
    if |pieces| == 0 then [] else Flat(pieces[..|pieces| - 1]) + pieces[|pieces| - 1]
  }

  /** The pieces as segments, numbered from this initial number. */
  function Cut(k: FlowKey, isn: U32, pieces: seq<Bytes>, now: int): (segs: seq<Segment>)
    requires |Flat(pieces)| < TWO_32
    ensures |segs| == |pieces| && forall x <- segs :: x.key == k && !x.finRst && |x.payload| < TWO_32
  {
    if |pieces| == 0 then []
    else
      var n := |pieces| - 1;
      Cut(k, isn, pieces[..n], now) + [Segment(k, WrapAdd(isn, |Flat(pieces[..n])|), pieces[n], false, now)]
  }

  /** Sent alone, in any non-empty pieces, a stream that names a host is recognised with its last piece. */
  lemma EveryCutIsRecognised(lim: Limits, k: FlowKey, isn: U32, pieces: seq<Bytes>, host: Bytes, now: int)
    requires |Flat(pieces)| < TWO_32 && |Flat(pieces)| <= lim.maxBytes && lim.maxFlows > 0
    requires ExtractSni(Flat(pieces)) == Some(host) && forall p <- pieces :: p != []
    ensures |pieces| > 0 && LastAnswer(lim, State(map[], 0), Cut(k, isn, pieces, now)) == Some(host)
  {
    hide ExtractSni, LastAnswer, Run, FindsRoom, AllFit, InOrder, NeverIdle, LastHeard, Reached, GapFree;
    StartsWithRecord(Flat(pieces));
    var s: Stream := RawStream(isn, Flat(pieces));
    var segs := Cut(k, isn, pieces, now);
    CutDelivers(k, s, pieces, now, lim.idleTimeout);
    InOrderIsGapFree(segs, k, s);
    AloneFindsRoom(lim, segs, k);
    assert segs[..|segs|] == segs;
    SegmentationIndependent(lim, State(map[], 0), segs, k, s, host, |segs| - 1);
  }

  lemma {:induction false} CutDelivers(k: FlowKey, s: Stream, pieces: seq<Bytes>, now: int, idleTimeout: nat)
    requires Flat(pieces) <= s.bytes && forall p <- pieces :: p != []
    ensures
      var segs := Cut(k, s.isn, pieces, now);
      && AllFit(segs, k, s) && InOrder(segs, k, s) && NeverIdle(segs, k, idleTimeout)
      && Reached(segs, k, s) == |Flat(pieces)| && (LastHeard(segs, k).Some? ==> LastHeard(segs, k).value == now)
      && (|segs| > 0 ==> Own(segs[|segs| - 1], k))
  {
    hide WrapAdd, AllFit, InOrder, NeverIdle, Reached, LastHeard;
    if |pieces| == 0 {
      NothingArrived(k, s, idleTimeout);
    } else {
      var n := |pieces| - 1;
      var before, p := pieces[..n], pieces[n];
      assert p in pieces && forall x <- before :: x in pieces;
      CutDelivers(k, s, before, now, idleTimeout);
      var q := |Flat(before)|;
      var x := Segment(k, WrapAdd(s.isn, q), p, false, now);
      assert p == s.bytes[q..q + |p|];
      NextPieceArrives(Cut(k, s.isn, before, now), x, k, s, idleTimeout);
    }
  }

  lemma NothingArrived(k: FlowKey, s: Stream, idleTimeout: nat)
    ensures AllFit([], k, s) && InOrder([], k, s) && NeverIdle([], k, idleTimeout)
    ensures Reached([], k, s) == 0 && LastHeard([], k) == None
  {
  }

  /** The next bytes of the stream, in time. */
  lemma NextPieceArrives(segs: seq<Segment>, x: Segment, k: FlowKey, s: Stream, idleTimeout: nat)
    requires AllFit(segs, k, s) && InOrder(segs, k, s) && NeverIdle(segs, k, idleTimeout)
    requires Own(x, k) && PartAt(s, x.seqNo, x.payload, Reached(segs, k, s))
    requires LastHeard(segs, k).Some? ==> x.now - idleTimeout <= LastHeard(segs, k).value
    ensures
      var more := segs + [x];
      && AllFit(more, k, s) && InOrder(more, k, s) && NeverIdle(more, k, idleTimeout)
      && Reached(more, k, s) == Reached(segs, k, s) + |x.payload| && LastHeard(more, k) == Some(x.now)
  {
    hide OffsetOf;
    var more, q := segs + [x], Reached(segs, k, s);
    assert more[..|segs|] == segs && more[|segs|] == x;
    SameNumber(s, OffsetOf(s, x.seqNo), q);
  }
}
