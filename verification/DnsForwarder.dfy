/**
 The forwarder's response cache and its block/allow filter. The cache is lossy: it purges and even clears
 itself when full. Over every run it nevertheless agrees with the plain log of what was put.
 */
module DnsForwarder {
  import opened Wire
  import opened DnsName
  import opened Finite

  const CACHE_TTL := 30_000

  datatype Entry = Entry(response: Bytes, expires: int)
  type Cache = map<Bytes, Entry>

  // ---- One operation ----

  function Lookup(c: Cache, query: Bytes, now: int): Option<Bytes>
  {
    if query in c && c[query].expires > now then Some(c[query].response) else None
  }

  function AfterGet(c: Cache, query: Bytes, now: int): Cache
  {
    if query in c && c[query].expires <= now then c - {query} else c
  }

  function Purged(c: Cache, now: int): Cache
  {
    map q | q in c && c[q].expires > now :: c[q]
  }

  function AfterPut(c: Cache, query: Bytes, response: Bytes, cap: nat, now: int): Cache
  {
    if cap == 0 then c
    else
      var purged := if |c| >= cap then Purged(c, now) else c;
      var room := if |purged| >= cap then map[] else purged;
      room[query := Entry(response, now + CACHE_TTL)]
  }

  class DnsCache {
    var entries: Cache

    constructor ()
      ensures entries == map[]
    {
      entries := map[];
    }

    method Get(query: Bytes, now: int) returns (r: Option<Bytes>)
      modifies this
      ensures r == Lookup(old(entries), query, now) && entries == AfterGet(old(entries), query, now)
    {
      if query in entries {
        if entries[query].expires > now {
          return Some(entries[query].response);
        }
        entries := entries - {query};
      }
      return None;
    }

    method Put(query: Bytes, response: Bytes, cap: nat, now: int)
      modifies this
      ensures entries == AfterPut(old(entries), query, response, cap, now)
    {
      if cap == 0 {
        return;
      }
      if |entries| >= cap {
        entries := map q | q in entries && entries[q].expires > now :: entries[q];
        if |entries| >= cap {
          entries := map[];
        }
      }
      entries := entries[query := Entry(response, now + CACHE_TTL)];
    }
  }

  // ---- Every run ----

  datatype Op = GetOp(query: Bytes, now: int) | PutOp(query: Bytes, response: Bytes, now: int)

  function Step(c: Cache, op: Op, cap: nat): Cache
  {
    match op
    case GetOp(q, now) => AfterGet(c, q, now)
    case PutOp(q, r, now) => AfterPut(c, q, r, cap, now)
  }

  function Run(ops: seq<Op>, cap: nat): Cache
  {
    if |ops| == 0 then map[] else Step(Run(ops[..|ops| - 1], cap), ops[|ops| - 1], cap)
  }

  /** The position of the most recent put of a query, in the plain log. */
  function LastPut(ops: seq<Op>, query: Bytes): (i: Option<nat>)
    ensures i.Some? ==> i.value < |ops| && ops[i.value].PutOp? && ops[i.value].query == query
    ensures forall j | (if i.Some? then i.value + 1 else 0) <= j < |ops| :: !(ops[j].PutOp? && ops[j].query == query)
  {
    if |ops| == 0 then None
    else if ops[|ops| - 1].PutOp? && ops[|ops| - 1].query == query then Some(|ops| - 1)
    else LastPut(ops[..|ops| - 1], query)
  }

  ghost predicate AgreesWithLog(c: Cache, ops: seq<Op>)
  {
    forall q <- c ::
      var i := LastPut(ops, q);
      i.Some? && c[q] == Entry(ops[i.value].response, ops[i.value].now + CACHE_TTL)
  }

  lemma {:induction false} RunAgrees(ops: seq<Op>, cap: nat)
    ensures AgreesWithLog(Run(ops, cap), ops) && |Run(ops, cap)| <= cap
  {
    hide AgreesWithLog, Step;
    if |ops| == 0 {
      NothingAgrees();
    } else {
      var before, op := ops[..|ops| - 1], ops[|ops| - 1];
      RunAgrees(before, cap);
      StepAgrees(Run(before, cap), before, op, cap);
      assert ops == before + [op];
    }
  }

  lemma NothingAgrees()
    ensures AgreesWithLog(map[], [])
  {
  }

  lemma LastPutStep(ops: seq<Op>, op: Op, query: Bytes)
    ensures LastPut(ops + [op], query) == if op.PutOp? && op.query == query then Some(|ops|) else LastPut(ops, query)
  {
    assert (ops + [op])[..|ops|] == ops;
  }

  lemma StepAgrees(c: Cache, ops: seq<Op>, op: Op, cap: nat)
    requires AgreesWithLog(c, ops) && |c| <= cap
    ensures AgreesWithLog(Step(c, op, cap), ops + [op]) && |Step(c, op, cap)| <= cap
  {
    hide LastPut, Step;
    var c' := Step(c, op, cap);
    StepEntries(c, op, cap);
    forall q | q in c'
      ensures
        var i := LastPut(ops + [op], q);
        i.Some? && c'[q] == Entry((ops + [op])[i.value].response, (ops + [op])[i.value].now + CACHE_TTL)
    {
      LastPutStep(ops, op, q);
    }
  }

  /** An entry after a step is the one just put, or an old one of another query. */
  lemma StepEntries(c: Cache, op: Op, cap: nat)
    requires |c| <= cap
    ensures |Step(c, op, cap)| <= cap
    ensures
      var c' := Step(c, op, cap);
      forall q <- c' ::
        if op.PutOp? && q == op.query then c'[q] == Entry(op.response, op.now + CACHE_TTL) else q in c && c'[q] == c[q]
  {
    match op
    case GetOp(q, now) => SubmapSize(AfterGet(c, q, now), c);
    case PutOp(q, r, now) => SubmapSize(Purged(c, now), c);
  }

  /**
   After any operations with a fixed capacity, a hit is the response most recently put for that very query,
   put less than thirty seconds before, and the cache holds at most `cap` entries. No assumption on the clock.
   */
  lemma HitIsLastPut(ops: seq<Op>, cap: nat, query: Bytes, now: int)
    ensures |Run(ops, cap)| <= cap
    ensures
      match Lookup(Run(ops, cap), query, now)
      case None => true
      case Some(r) =>
        var i := LastPut(ops, query);
        i.Some? && r == ops[i.value].response && now - ops[i.value].now < CACHE_TTL
  {
    hide Run, LastPut;
    RunAgrees(ops, cap);
  }

  /** While fewer queries than the capacity are in play, nothing live is ever lost. */
  lemma RoomyCacheHits(ops: seq<Op>, cap: nat, queries: set<Bytes>, query: Bytes, now: int)
    requires |queries| < cap && (forall op <- ops :: op.query in queries)
    requires LastPut(ops, query).Some?
    requires
      var i := LastPut(ops, query).value;
      && now < ops[i].now + CACHE_TTL
      && forall j | i < j < |ops| :: ops[j].now < ops[i].now + CACHE_TTL
    ensures Lookup(Run(ops, cap), query, now) == Some(ops[LastPut(ops, query).value].response)
  {
    hide LastPut, Run;
    assert ops[..|ops|] == ops;
    KeptSince(ops, cap, queries, query, |ops|);
  }

  lemma {:induction false} KeptSince(ops: seq<Op>, cap: nat, queries: set<Bytes>, query: Bytes, n: nat)
    requires |queries| < cap && (forall op <- ops :: op.query in queries)
    requires LastPut(ops, query).Some? && LastPut(ops, query).value < n <= |ops|
    requires
      var i := LastPut(ops, query).value;
      forall j | i < j < |ops| :: ops[j].now < ops[i].now + CACHE_TTL
    ensures
      var i, c := LastPut(ops, query).value, Run(ops[..n], cap);
      query in c && c[query] == Entry(ops[i].response, ops[i].now + CACHE_TTL)
  {
    hide LastPut, Step;
    var i := LastPut(ops, query).value;
    assert ops[..n][..n - 1] == ops[..n - 1];
    KeysInPlay(ops[..n - 1], cap, queries);
    SubsetSize(Run(ops[..n - 1], cap).Keys, queries);
    assert |Run(ops[..n - 1], cap).Keys| == |Run(ops[..n - 1], cap)|;
    StepKeeps(Run(ops[..n - 1], cap), ops[n - 1], cap, query);
    if n - 1 > i {
      KeptSince(ops, cap, queries, query, n - 1);
    }
  }

  /** With room to spare, a step keeps every live entry but the one it overwrites. */
  lemma StepKeeps(c: Cache, op: Op, cap: nat, query: Bytes)
    requires |c| < cap
    ensures
      var c' := Step(c, op, cap);
      if op.PutOp? && op.query == query then query in c' && c'[query] == Entry(op.response, op.now + CACHE_TTL)
      else query in c && op.now < c[query].expires ==> query in c' && c'[query] == c[query]
  {
  }

  lemma {:induction false} KeysInPlay(ops: seq<Op>, cap: nat, queries: set<Bytes>)
    requires forall op <- ops :: op.query in queries
    ensures Run(ops, cap).Keys <= queries
  {
    if |ops| > 0 {
      KeysInPlay(ops[..|ops| - 1], cap, queries);
      assert ops[|ops| - 1] in ops;
    }
  }

  // ---- The block/allow filter ----

  datatype Decision = Pass | Block

  // ---- The filter, by suffixes ----

  function Canonical(domain: Bytes): Bytes
  {
    Lower(TrimDots(domain))
  }

  /** A label of the name starts here: its parents are the suffixes at such places. */
  predicate LabelStart(s: Bytes, p: nat)
  {
    p <= |s| && (p == 0 || s[p - 1] == DOT)
  }

  predicate Listed(name: Bytes, block: set<Bytes>, allow: set<Bytes>)
  {
    name in block || name in allow
  }

  /** The longest suffix of the name, cut at a label, that either list holds. */
  predicate LongestListed(s: Bytes, block: set<Bytes>, allow: set<Bytes>, p: nat)
  {
    && LabelStart(s, p) && Listed(s[p..], block, allow)
    && forall q: nat | q < p && LabelStart(s, q) :: !Listed(s[q..], block, allow)
  }

  /** That suffix is on the blocklist and not on the allowlist. */
  predicate LongestBlocks(s: Bytes, block: set<Bytes>, allow: set<Bytes>, p: nat)
  {
    LongestListed(s, block, allow, p) && s[p..] !in allow
  }

  lemma NoStartWithin(s: Bytes, p: nat, n: nat)
    requires p + n <= |s| && DOT !in s[p..p + n]
    ensures forall q: nat | p < q <= p + n :: !LabelStart(s, q)
  {
    forall q: nat | p < q <= p + n
      ensures !LabelStart(s, q)
    {
      assert s[p..p + n][q - 1 - p] == s[q - 1];
    }
  }

  /** After the first label of what is left comes the next label start, or none. */
  lemma NextStart(s: Bytes, p: nat)
    requires p <= |s| && LabelStart(s, p)
    ensures
      var labels := Split(s[p..]);
      if DOT in s[p..] then
        var next := p + FirstDot(s[p..]) + 1;
        LabelStart(s, next) && labels[1..] == Split(s[next..]) && forall q: nat | p < q < next :: !LabelStart(s, q)
      else labels[1..] == [] && forall q: nat | p < q :: !LabelStart(s, q)
  {
    hide FirstDot, LabelStart;
    var rest := s[p..];
    var n := if DOT in rest then FirstDot(rest) else |rest|;
    assert s[p..p + n] == rest[..n];
    NoStartWithin(s, p, n);
    if DOT in rest {
      var next := p + n + 1;
      assert rest[n + 1..] == s[next..];
      assert LabelStart(s, next) by { AfterDot(s, next); }
      assert ([rest[..n]] + Split(s[next..]))[1..] == Split(s[next..]);
    } else {
      NoStartBeyond(s);
      assert rest[..n] == rest;
    }
  }

  lemma AfterDot(s: Bytes, p: nat)
    requires 0 < p <= |s| && s[p - 1] == DOT
    ensures LabelStart(s, p)
  {
  }

  lemma NoStartBeyond(s: Bytes)
    ensures forall q: nat | |s| < q :: !LabelStart(s, q)
  {
  }

  /** Neither list holds a suffix that starts before `p`. */
  predicate NoneBefore(s: Bytes, block: set<Bytes>, allow: set<Bytes>, p: nat)
  {
    forall q: nat | q < p && LabelStart(s, q) :: !Listed(s[q..], block, allow)
  }

  ghost predicate Blocked(s: Bytes, block: set<Bytes>, allow: set<Bytes>)
  {
    exists p: nat :: LongestBlocks(s, block, allow, p)
  }

  lemma PassesOn(s: Bytes, block: set<Bytes>, allow: set<Bytes>, p: nat)
    requires p <= |s| && LabelStart(s, p) && NoneBefore(s, block, allow, p) && !Listed(s[p..], block, allow)
    ensures
      if DOT in s[p..] then
        var next := p + FirstDot(s[p..]) + 1;
        && next <= |s| && LabelStart(s, next) && Split(s[p..])[1..] == Split(s[next..])
        && NoneBefore(s, block, allow, next)
      else Split(s[p..])[1..] == [] && !Blocked(s, block, allow)
  {
    hide FirstDot, Split, Listed;
    NextStart(s, p);
  }

  lemma FoundAt(s: Bytes, block: set<Bytes>, allow: set<Bytes>, p: nat)
    requires p <= |s| && LabelStart(s, p) && NoneBefore(s, block, allow, p) && Listed(s[p..], block, allow)
    ensures Blocked(s, block, allow) <==> s[p..] !in allow
  {
    hide Listed, LabelStart;
    assert forall q: nat :: LongestListed(s, block, allow, q) ==> q == p;
    if s[p..] !in allow {
      assert LongestBlocks(s, block, allow, p);
    }
  }

  /** Blocked exactly when the longest listed suffix of the name is on the blocklist and not on the allowlist. */
  method ClassifyDomain(domain: Bytes, block: set<Bytes>, allow: set<Bytes>) returns (d: Decision)
    ensures d == Block <==> Blocked(Canonical(domain), block, allow)
  {
    hide Split, Join, FirstDot, LabelStart, NoneBefore, Blocked, Canonical;
    var s := Canonical(domain);
    var labels := Split(s);
    ghost var p: nat := 0;
    assert s[0..] == s && LabelStart(s, 0) && NoneBefore(s, block, allow, 0) by { Start(s, block, allow); }
    while |labels| > 0
      invariant p <= |s| && LabelStart(s, p) && NoneBefore(s, block, allow, p)
      invariant if |labels| > 0 then labels == Split(s[p..]) else !Blocked(s, block, allow)
    {
      var candidate := Join(labels);
      SplitJoins(s[p..]);
      if candidate in allow {
        FoundAt(s, block, allow, p);
        return Pass;
      }
      if candidate in block {
        FoundAt(s, block, allow, p);
        return Block;
      }
      PassesOn(s, block, allow, p);
      p := if DOT in s[p..] then p + FirstDot(s[p..]) + 1 else p;
      labels := labels[1..];
    }
    return Pass;
  }

  lemma Start(s: Bytes, block: set<Bytes>, allow: set<Bytes>)
    ensures LabelStart(s, 0) && NoneBefore(s, block, allow, 0)
  {
  }
}
