/**
 Observing DNS answers: the header gate, the walk over the answer section, the bounded CNAME chase and the
 addresses that are recorded. `ObserveExact` says of every query and every message whether there is an
 observation and what it is.
 */
module DnsPlane {
  import opened Wire
  import opened DnsName

  const HEADER_LEN := 12
  const MAX_CNAME_CHAIN := 8
  const MAX_ANSWERS := 2048
  const TYPE_A: U16 := 1
  const TYPE_CNAME: U16 := 5
  const TYPE_AAAA: U16 := 28
  const MIN_TTL := 60
  const MAX_TTL := 3600

  datatype Header = Header(qr: bool, tc: bool, rcode: nat, qdcount: U16, ancount: U16)
  datatype Record = Record(owner: Bytes, rtype: U16, ttl: U32, rdataOff: nat, rdataLen: nat)
  datatype Parsed<T> = Done(value: T) | Failed(error: DnsError)
  datatype Observation = Observation(domain: Bytes, ips: seq<Bytes>, ttl: nat)

  function ParseHeader(msg: Bytes): Option<Header>
  {
    if |msg| < HEADER_LEN then None
    else
      Some(Header(msg[2] >= 0x80, msg[2] / 2 % 2 == 1, msg[3] % 16, FromBe16(msg[4], msg[5]), FromBe16(msg[6], msg[7])))
  }

  // ---- The answer section ----

  function SkipQuestions(msg: Bytes, pos: nat, n: nat): Parsed<nat>
    decreases n
  {
    if n == 0 then Done(pos)
    else match Decode(msg, pos)
      case Bad(e) => Failed(e)
      case Ok(_, next) => if next + 4 > |msg| then Failed(TooShort) else SkipQuestions(msg, next + 4, n - 1)
  }

  predicate InMessage(msg: Bytes, r: Record)
  {
    r.rdataOff + r.rdataLen <= |msg|
  }

  function ReadRecord(msg: Bytes, pos: nat): (p: Parsed<Record>)
    ensures p.Done? ==> InMessage(msg, p.value)
  {
    match Decode(msg, pos)
    case Bad(e) => Failed(e)
    case Ok(owner, next) =>
      if next + 10 > |msg| then Failed(TooShort)
      else
        var rdlen := FromBe16(msg[next + 8], msg[next + 9]);
        if next + 10 + rdlen > |msg| then Failed(TooShort)
        else
          Done(Record(owner, FromBe16(msg[next], msg[next + 1]),
                      FromBe32(msg[next + 4], msg[next + 5], msg[next + 6], msg[next + 7]), next + 10, rdlen))
  }

  function ReadRecords(msg: Bytes, pos: nat, n: nat, got: nat): (p: Parsed<seq<Record>>)
    ensures p.Done? ==> |p.value| == n && forall r <- p.value :: InMessage(msg, r)
    decreases n
  {
    if n == 0 then Done([])
    else if got >= MAX_ANSWERS then Failed(TooManyRecords)
    else match ReadRecord(msg, pos)
      case Failed(e) => Failed(e)
      case Done(r) =>
        match ReadRecords(msg, r.rdataOff + r.rdataLen, n - 1, got + 1)
        case Failed(e) => Failed(e)
        case Done(rs) => Done([r] + rs)
  }

  function Answers(msg: Bytes): (p: Parsed<seq<Record>>)
    ensures p.Done? ==> forall r <- p.value :: InMessage(msg, r)
  {
    match ParseHeader(msg)
    case None => Failed(TooShort)
    case Some(h) =>
      if !h.qr then Failed(NotAResponse)
      else match SkipQuestions(msg, HEADER_LEN, h.qdcount)
        case Failed(e) => Failed(e)
        case Done(pos) => ReadRecords(msg, pos, h.ancount, 0)
  }

  method ParseAnswers(msg: Bytes) returns (p: Parsed<seq<Record>>)
    ensures p == Answers(msg)
  {
    hide Decode;
    var header := ParseHeader(msg);
    if header.None? {
      return Failed(TooShort);
    }
    var hdr := header.value;
    if !hdr.qr {
      return Failed(NotAResponse);
    }
    var pos: nat := HEADER_LEN;
    var q := 0;
    while q < hdr.qdcount
      invariant 0 <= q <= hdr.qdcount
      invariant SkipQuestions(msg, pos, hdr.qdcount - q) == SkipQuestions(msg, HEADER_LEN, hdr.qdcount)
    {
      var name := DecodeName(msg, pos);
      if name.Bad? {
        return Failed(name.error);
      }
      pos := name.next;
      if pos + 4 > |msg| {
        return Failed(TooShort);
      }
      pos := pos + 4;
      q := q + 1;
    }
    p := ParseRecords(msg, pos, hdr.ancount);
  }

  lemma Nothing(p: Parsed<seq<Record>>)
    ensures Prepended([], p) == p
  {
    if p.Done? {
      assert [] + p.value == p.value;
    }
  }

  method ParseRecords(msg: Bytes, start: nat, count: nat) returns (p: Parsed<seq<Record>>)
    ensures p == ReadRecords(msg, start, count, 0)
  {
    hide Decode, FromBe16, FromBe32;
    var pos: nat := start;
    var out: seq<Record> := [];
    var a := 0;
    Nothing(ReadRecords(msg, start, count, 0));
    while a < count
      invariant 0 <= a <= count && |out| == a
      invariant Prepended(out, ReadRecords(msg, pos, count - a, a)) == ReadRecords(msg, start, count, 0)
    {
      if |out| >= MAX_ANSWERS {
        return Failed(TooManyRecords);
      }
      var owner := DecodeName(msg, pos);
      if owner.Bad? {
        return Failed(owner.error);
      }
      pos := owner.next;
      if pos + 10 > |msg| {
        return Failed(TooShort);
      }
      var rtype := FromBe16(msg[pos], msg[pos + 1]);
      var ttl := FromBe32(msg[pos + 4], msg[pos + 5], msg[pos + 6], msg[pos + 7]);
      var rdlen := FromBe16(msg[pos + 8], msg[pos + 9]);
      pos := pos + 10;
      if pos + rdlen > |msg| {
        return Failed(TooShort);
      }
      ghost var rest := ReadRecords(msg, pos + rdlen, count - a - 1, a + 1);
      var r := Record(owner.name, rtype, ttl, pos, rdlen);
      if rest.Done? {
        assert out + ([r] + rest.value) == (out + [r]) + rest.value;
      }
      out := out + [r];
      pos := pos + rdlen;
      a := a + 1;
    }
    p := Done(out);
    assert out + [] == out;
  }

  function Prepended(rs: seq<Record>, p: Parsed<seq<Record>>): Parsed<seq<Record>>
  {
    match p
    case Failed(e) => Failed(e)
    case Done(more) => Done(rs + more)
  }

  // ---- The answer section, written and read back ----

  datatype Answer = Answer(owner: seq<Bytes>, rtype: U16, rclass: Bytes, ttl: U32, rdata: Bytes)

  predicate Writable(a: Answer)
  {
    HostLabels(a.owner) && WireLen(a.owner) <= MAX_NAME_LEN && |a.rclass| == 2 && |a.rdata| < TWO_16
  }

  /** Type, class, TTL and length, as they follow the owner's name. */
  function Fixed(a: Answer): (b: Bytes)
    requires Writable(a)
    ensures |b| == 10
  {
    Be16(a.rtype) + a.rclass + Be32(a.ttl) + Be16(|a.rdata|)
  }

  function PutAnswer(a: Answer): Bytes
    requires Writable(a)
  {
    PutLabels(a.owner) + (Fixed(a) + a.rdata)
  }

  function PutAnswers(rrs: seq<Answer>): Bytes
    requires forall a <- rrs :: Writable(a)
  {
    if |rrs| == 0 then [] else PutAnswer(rrs[0]) + PutAnswers(rrs[1..])
  }

  predicate Matches(msg: Bytes, r: Record, a: Answer)
  {
    && InMessage(msg, r) && r.owner == Lower(Join(a.owner)) && r.rtype == a.rtype && r.ttl == a.ttl
    && msg[r.rdataOff..r.rdataOff + r.rdataLen] == a.rdata
  }

  lemma FixedReads(a: Answer)
    requires Writable(a)
    ensures
      var f := Fixed(a);
      && FromBe16(f[0], f[1]) == a.rtype && FromBe32(f[4], f[5], f[6], f[7]) == a.ttl
      && FromBe16(f[8], f[9]) == |a.rdata|
  {
    hide Be16, Be32, FromBe16, FromBe32, HostLabels, WireLen;
  }

  lemma RecordRoundTrip(before: Bytes, a: Answer, rest: Bytes)
    requires Writable(a)
    ensures
      var msg := before + PutAnswer(a) + rest;
      match ReadRecord(msg, |before|)
      case Failed(_) => false
      case Done(r) => Matches(msg, r, a) && r.rdataOff + r.rdataLen == |before| + |PutAnswer(a)|
  {
    hide Decode, Fixed, PutLabels, Lower, Join, FromBe16, FromBe32;
    var msg := before + PutAnswer(a) + rest;
    var tail := Fixed(a) + a.rdata + rest;
    assert msg == before + PutLabels(a.owner) + tail;
    EncodeDecode(before, a.owner, tail);
    LabelsLength(a.owner);
    var next := |before| + |PutLabels(a.owner)|;
    assert msg[next..next + 10] == Fixed(a);
    FixedReads(a);
    assert msg[next + 10..next + 10 + |a.rdata|] == a.rdata;
    assert forall i | 0 <= i < 10 :: msg[next + i] == Fixed(a)[i];
  }

  lemma {:induction false} LabelsLength(labels: seq<Bytes>)
    requires forall l <- labels :: HostLabel(l)
    ensures |PutLabels(labels)| == WireLen(labels) + 1
    decreases labels
  {
    hide HostLabel;
    if |labels| > 0 {
      LabelsLength(labels[1..]);
    }
  }

  lemma {:induction false} RecordsRoundTrip(before: Bytes, rrs: seq<Answer>, rest: Bytes, got: nat)
    requires (forall a <- rrs :: Writable(a)) && got + |rrs| <= MAX_ANSWERS
    ensures
      var msg := before + PutAnswers(rrs) + rest;
      match ReadRecords(msg, |before|, |rrs|, got)
      case Failed(_) => false
      case Done(rs) => |rs| == |rrs| && forall i | 0 <= i < |rs| :: Matches(msg, rs[i], rrs[i])
    decreases rrs
  {
    hide ReadRecord, PutAnswer, Writable, Matches;
    if |rrs| > 0 {
      var a, more := rrs[0], PutAnswers(rrs[1..]) + rest;
      var msg := before + PutAnswers(rrs) + rest;
      assert msg == before + PutAnswer(a) + more;
      RecordRoundTrip(before, a, more);
      var before' := before + PutAnswer(a);
      assert msg == before' + PutAnswers(rrs[1..]) + rest;
      RecordsRoundTrip(before', rrs[1..], rest, got + 1);
    }
  }

  datatype Question = Question(name: seq<Bytes>, typeAndClass: Bytes)

  predicate Askable(q: Question)
  {
    HostLabels(q.name) && WireLen(q.name) <= MAX_NAME_LEN && |q.typeAndClass| == 4
  }

  function PutQuestions(qs: seq<Question>): Bytes
    requires forall q <- qs :: Askable(q)
  {
    if |qs| == 0 then [] else assert Askable(qs[0]); PutLabels(qs[0].name) + qs[0].typeAndClass + PutQuestions(qs[1..])
  }

  lemma {:induction false} QuestionsRoundTrip(before: Bytes, qs: seq<Question>, rest: Bytes)
    requires forall q <- qs :: Askable(q)
    ensures SkipQuestions(before + PutQuestions(qs) + rest, |before|, |qs|) == Done(|before| + |PutQuestions(qs)|)
    decreases qs
  {
    hide Decode, PutLabels, Lower, Join;
    if |qs| > 0 {
      var q := qs[0];
      assert Askable(q);
      var msg := before + PutQuestions(qs) + rest;
      var before' := before + PutLabels(q.name) + q.typeAndClass;
      var more := q.typeAndClass + (PutQuestions(qs[1..]) + rest);
      assert msg == before + PutLabels(q.name) + more;
      EncodeDecode(before, q.name, more);
      LabelsLength(q.name);
      assert msg == before' + PutQuestions(qs[1..]) + rest;
      QuestionsRoundTrip(before', qs[1..], rest);
    }
  }

  /** Every written answer section, whatever follows it, is read back record by record. */
  lemma AnswersRoundTrip(head: Bytes, qs: seq<Question>, rrs: seq<Answer>, rest: Bytes)
    requires |head| == HEADER_LEN && ParseHeader(head).value.qr
    requires ParseHeader(head).value.qdcount == |qs| && ParseHeader(head).value.ancount == |rrs| <= MAX_ANSWERS
    requires (forall q <- qs :: Askable(q)) && forall a <- rrs :: Writable(a)
    ensures
      var msg := head + PutQuestions(qs) + (PutAnswers(rrs) + rest);
      match Answers(msg)
      case Failed(_) => false
      case Done(rs) => |rs| == |rrs| && forall i | 0 <= i < |rs| :: Matches(msg, rs[i], rrs[i])
  {
    hide ReadRecords, SkipQuestions, PutAnswers, PutQuestions, Askable, Writable, Matches, FromBe16;
    var msg := head + PutQuestions(qs) + (PutAnswers(rrs) + rest);
    assert ParseHeader(msg) == ParseHeader(head);
    QuestionsRoundTrip(head, qs, PutAnswers(rrs) + rest);
    var before := head + PutQuestions(qs);
    assert msg == before + PutAnswers(rrs) + rest;
    RecordsRoundTrip(before, rrs, rest, 0);
  }

  // ---- The CNAME chain ----

  function FirstCname(answers: seq<Record>, name: Bytes): (r: Option<Record>)
    ensures r.Some? ==> r.value in answers
  {
    if |answers| == 0 then None
    else if answers[0].rtype == TYPE_CNAME && answers[0].owner == name then Some(answers[0])
    else FirstCname(answers[1..], name)
  }

  /** Where a name leads: nowhere, to another name, or to rdata that is no name at all. */
  datatype Link = Leaf | Alias(target: Bytes) | Broken

  function LinkOf(msg: Bytes, answers: seq<Record>, name: Bytes): Link
  {
    match FirstCname(answers, name)
    case None => Leaf
    case Some(r) => match Decode(msg, r.rdataOff) case Ok(target, _) => Alias(target) case Bad(_) => Broken
  }

  function ChaseFrom(msg: Bytes, answers: seq<Record>, chain: seq<Bytes>): Option<seq<Bytes>>
    requires 0 < |chain| <= MAX_CNAME_CHAIN
    decreases MAX_CNAME_CHAIN - |chain|
  {
    match LinkOf(msg, answers, chain[|chain| - 1])
    case Leaf => Some(chain)
    case Broken => None
    case Alias(target) =>
      if |chain| >= MAX_CNAME_CHAIN || target in chain then Some(chain)
      else ChaseFrom(msg, answers, chain + [target])
  }

  /** Consecutive names are linked and no name repeats. */
  predicate Linked(msg: Bytes, answers: seq<Record>, chain: seq<Bytes>)
  {
    && (forall i | 0 <= i < |chain| - 1 :: LinkOf(msg, answers, chain[i]) == Alias(chain[i + 1]))
    && (forall i, j | 0 <= i < j < |chain| :: chain[i] != chain[j])
  }

  /** The chain cannot or must not be extended: its last name is a leaf, closes a loop, or is the eighth. */
  predicate Complete(msg: Bytes, answers: seq<Record>, chain: seq<Bytes>)
    requires |chain| > 0
  {
    match LinkOf(msg, answers, chain[|chain| - 1])
    case Leaf => true
    case Broken => false
    case Alias(target) => |chain| == MAX_CNAME_CHAIN || target in chain
  }

  predicate IsChain(msg: Bytes, answers: seq<Record>, query: Bytes, chain: seq<Bytes>)
  {
    0 < |chain| <= MAX_CNAME_CHAIN && chain[0] == query && Linked(msg, answers, chain) && Complete(msg, answers, chain)
  }

  lemma {:induction false} ChaseIsChain(msg: Bytes, answers: seq<Record>, chain: seq<Bytes>)
    requires 0 < |chain| <= MAX_CNAME_CHAIN && Linked(msg, answers, chain)
    ensures
      var c := ChaseFrom(msg, answers, chain);
      c.Some? ==> IsChain(msg, answers, chain[0], c.value)
    decreases MAX_CNAME_CHAIN - |chain|
  {
    hide LinkOf;
    var last := LinkOf(msg, answers, chain[|chain| - 1]);
    if last.Alias? && |chain| < MAX_CNAME_CHAIN && last.target !in chain {
      ChaseIsChain(msg, answers, chain + [last.target]);
    }
  }

  lemma {:induction false} ChainIsChased(msg: Bytes, answers: seq<Record>, query: Bytes, chain: seq<Bytes>, n: nat)
    requires IsChain(msg, answers, query, chain) && 0 < n <= |chain|
    ensures ChaseFrom(msg, answers, chain[..n]) == Some(chain)
    decreases |chain| - n
  {
    hide LinkOf;
    if n == |chain| {
      assert chain[..n] == chain;
    } else {
      ChainIsChased(msg, answers, query, chain, n + 1);
      assert chain[..n + 1] == chain[..n] + [chain[n]];
    }
  }

  /** The chase finds the one maximal loop-free chain of at most eight names, and fails only if there is none. */
  lemma ChaseExact(msg: Bytes, answers: seq<Record>, query: Bytes, chain: seq<Bytes>)
    ensures ChaseFrom(msg, answers, [query]) == Some(chain) <==> IsChain(msg, answers, query, chain)
  {
    hide ChaseFrom, LinkOf;
    ChaseIsChain(msg, answers, [query]);
    if IsChain(msg, answers, query, chain) {
      ChainIsChased(msg, answers, query, chain, 1);
      assert chain[..1] == [query];
    }
  }

  // ---- What is recorded ----

  predicate Usable(r: Record, chain: seq<Bytes>)
  {
    r.owner in chain && ((r.rtype == TYPE_A && r.rdataLen == 4) || (r.rtype == TYPE_AAAA && r.rdataLen == 16))
  }

  function Rdata(msg: Bytes, r: Record): Bytes
    requires InMessage(msg, r)
  {
    msg[r.rdataOff..r.rdataOff + r.rdataLen]
  }

  /** Addresses of the usable records, in order, and the smallest of their TTLs. */
  function Collect(msg: Bytes, answers: seq<Record>, chain: seq<Bytes>): (seq<Bytes>, U32)
    requires forall r <- answers :: InMessage(msg, r)
  {
    if |answers| == 0 then ([], TWO_32 - 1)
    else
      var n := |answers| - 1;
      assert answers[n] in answers;
      var (ips, ttl) := Collect(msg, answers[..n], chain);
      if Usable(answers[n], chain) then
        (ips + [Rdata(msg, answers[n])], if answers[n].ttl < ttl then answers[n].ttl else ttl)
      else (ips, ttl)
  }

  function Clamp(ttl: nat): nat
  {
    if ttl < MIN_TTL then MIN_TTL else if ttl > MAX_TTL then MAX_TTL else ttl
  }

  predicate Trusted(msg: Bytes)
  {
    match ParseHeader(msg)
    case None => false
    case Some(h) => h.qr && !h.tc && h.rcode == 0
  }

  function Observe(query: Bytes, msg: Bytes): Option<Observation>
  {
    if !Trusted(msg) || Normalize(query).None? || Answers(msg).Failed? then None
    else
      var answers := Answers(msg).value;
      match ChaseFrom(msg, answers, [Normalize(query).value])
      case None => None
      case Some(chain) =>
        var (ips, ttl) := Collect(msg, answers, chain);
        if ips == [] then None else Some(Observation(Normalize(query).value, ips, Clamp(ttl)))
  }

  /** `idx` lists, in increasing order, exactly the positions of the usable records. */
  predicate Selects(answers: seq<Record>, chain: seq<Bytes>, idx: seq<nat>)
  {
    OnlyUsable(answers, chain, idx) && Increasing(idx) && EveryUsable(answers, chain, idx)
  }

  predicate OnlyUsable(answers: seq<Record>, chain: seq<Bytes>, idx: seq<nat>)
  {
    forall k | 0 <= k < |idx| :: idx[k] < |answers| && Usable(answers[idx[k]], chain)
  }

  predicate Increasing(idx: seq<nat>)
  {
    forall k, l | 0 <= k < l < |idx| :: idx[k] < idx[l]
  }

  predicate EveryUsable(answers: seq<Record>, chain: seq<Bytes>, idx: seq<nat>)
  {
    forall i | 0 <= i < |answers| && Usable(answers[i], chain) :: i in idx
  }

  /** The addresses are the selected rdata, in that order. */
  predicate AddressesAt(msg: Bytes, answers: seq<Record>, idx: seq<nat>, ips: seq<Bytes>)
    requires forall r <- answers :: InMessage(msg, r)
  {
    && |ips| == |idx|
    && forall k | 0 <= k < |idx| :: idx[k] < |answers| && ips[k] == Rdata(msg, answers[idx[k]])
  }

  /** The TTL of a usable record that no other usable record undercuts. */
  predicate LeastTtl(answers: seq<Record>, chain: seq<Bytes>, ttl: U32)
  {
    && (exists i | 0 <= i < |answers| :: Usable(answers[i], chain) && answers[i].ttl == ttl)
    && (forall i | 0 <= i < |answers| && Usable(answers[i], chain) :: ttl <= answers[i].ttl)
  }

  lemma SelectsStep(answers: seq<Record>, chain: seq<Bytes>, idx: seq<nat>)
    requires |answers| > 0 && Selects(answers[..|answers| - 1], chain, idx)
    ensures
      var n := |answers| - 1;
      Selects(answers, chain, if Usable(answers[n], chain) then idx + [n] else idx)
  {
    hide Usable, EveryUsable;
    var n := |answers| - 1;
    EveryUsableStep(answers, chain, idx);
  }

  lemma EveryUsableStep(answers: seq<Record>, chain: seq<Bytes>, idx: seq<nat>)
    requires |answers| > 0 && EveryUsable(answers[..|answers| - 1], chain, idx)
    ensures
      var n := |answers| - 1;
      EveryUsable(answers, chain, if Usable(answers[n], chain) then idx + [n] else idx)
  {
    hide Usable;
    var n := |answers| - 1;
    var idx' := if Usable(answers[n], chain) then idx + [n] else idx;
    forall i | 0 <= i < |answers| && Usable(answers[i], chain)
      ensures i in idx'
    {
      if i == n {
        assert idx'[|idx|] == n;
      } else {
        assert answers[..n][i] == answers[i];
      }
    }
  }

  lemma {:induction false} CollectSelects(msg: Bytes, answers: seq<Record>, chain: seq<Bytes>) returns (idx: seq<nat>)
    requires forall r <- answers :: InMessage(msg, r)
    ensures Selects(answers, chain, idx) && AddressesAt(msg, answers, idx, Collect(msg, answers, chain).0)
  {
    hide Rdata, Usable, AddressesAt;
    if |answers| == 0 {
      idx := [];
      AddressesNone(msg);
    } else {
      var n := |answers| - 1;
      assert answers[n] in answers;
      var before := CollectSelects(msg, answers[..n], chain);
      SelectsStep(answers, chain, before);
      AddressesStep(msg, answers, before, Collect(msg, answers[..n], chain).0);
      idx := if Usable(answers[n], chain) then before + [n] else before;
    }
  }

  lemma AddressesNone(msg: Bytes)
    ensures AddressesAt(msg, [], [], [])
  {
  }

  lemma AddressesStep(msg: Bytes, answers: seq<Record>, idx: seq<nat>, ips: seq<Bytes>)
    requires (forall r <- answers :: InMessage(msg, r)) && |answers| > 0
    requires AddressesAt(msg, answers[..|answers| - 1], idx, ips)
    ensures answers[|answers| - 1] in answers
    ensures AddressesAt(msg, answers, idx, ips)
    ensures AddressesAt(msg, answers, idx + [|answers| - 1], ips + [Rdata(msg, answers[|answers| - 1])])
  {
    hide Rdata;
    var n := |answers| - 1;
    assert forall k | 0 <= k < |idx| :: answers[..n][idx[k]] == answers[idx[k]];
  }

  lemma {:induction false} CollectLeast(msg: Bytes, answers: seq<Record>, chain: seq<Bytes>)
    requires forall r <- answers :: InMessage(msg, r)
    ensures
      var (ips, ttl) := Collect(msg, answers, chain);
      if ips == [] then ttl == TWO_32 - 1 && forall i | 0 <= i < |answers| :: !Usable(answers[i], chain)
      else LeastTtl(answers, chain, ttl)
  {
    hide Rdata, Usable;
    if |answers| > 0 {
      var n := |answers| - 1;
      assert answers[n] in answers;
      CollectLeast(msg, answers[..n], chain);
      assert forall i | 0 <= i < n :: answers[..n][i] == answers[i];
      var (ips, ttl) := Collect(msg, answers[..n], chain);
      if Usable(answers[n], chain) && (ips == [] || answers[n].ttl < ttl) {
        assert LeastTtl(answers, chain, answers[n].ttl);
      } else if ips != [] {
        var i :| 0 <= i < n && Usable(answers[..n][i], chain) && answers[..n][i].ttl == ttl;
        assert Usable(answers[i], chain) && answers[i].ttl == ttl;
      }
    }
  }

  /** Two increasing selections of the same positions are equal. */
  lemma {:induction false} SelectionIsUnique(answers: seq<Record>, chain: seq<Bytes>, a: seq<nat>, b: seq<nat>)
    requires Selects(answers, chain, a) && Selects(answers, chain, b)
    ensures a == b
    decreases |answers|
  {
    hide Usable, Selects;
    if |answers| == 0 {
      SelectsSome(answers, chain, a);
      SelectsSome(answers, chain, b);
    } else {
      var n := |answers| - 1;
      SelectsPrefix(answers, chain, a);
      SelectsPrefix(answers, chain, b);
      if Usable(answers[n], chain) {
        var a', b' := a[..|a| - 1], b[..|b| - 1];
        SelectionIsUnique(answers[..n], chain, a', b');
        assert a == a' + [n] && b == b' + [n];
      } else {
        SelectionIsUnique(answers[..n], chain, a, b);
      }
    }
  }

  lemma SelectsSome(answers: seq<Record>, chain: seq<Bytes>, idx: seq<nat>)
    requires Selects(answers, chain, idx)
    ensures |idx| > 0 ==> |answers| > 0
  {
    if |idx| > 0 {
      assert idx[0] < |answers|;
    }
  }

  lemma SelectsPrefix(answers: seq<Record>, chain: seq<Bytes>, idx: seq<nat>)
    requires |answers| > 0 && Selects(answers, chain, idx)
    ensures
      var n := |answers| - 1;
      if Usable(answers[n], chain) then
        |idx| > 0 && idx[|idx| - 1] == n && Selects(answers[..n], chain, idx[..|idx| - 1])
      else Selects(answers[..n], chain, idx)
  {
    hide Usable;
    var n := |answers| - 1;
    if Usable(answers[n], chain) {
      LastIsSelected(answers, chain, idx);
      OtherUsable(answers, chain, idx, idx[..|idx| - 1]);
    } else {
      OtherUsable(answers, chain, idx, idx);
    }
  }

  lemma LastIsSelected(answers: seq<Record>, chain: seq<Bytes>, idx: seq<nat>)
    requires |answers| > 0 && Usable(answers[|answers| - 1], chain) && Selects(answers, chain, idx)
    ensures |idx| > 0 && idx[|idx| - 1] == |answers| - 1
  {
    hide Usable;
    var n := |answers| - 1;
    assert n in idx;
    var k :| 0 <= k < |idx| && idx[k] == n;
    assert k < |idx| - 1 ==> idx[k] < idx[|idx| - 1];
  }

  lemma OtherUsable(answers: seq<Record>, chain: seq<Bytes>, idx: seq<nat>, rest: seq<nat>)
    requires |answers| > 0 && EveryUsable(answers, chain, idx)
    requires idx == rest || (|idx| > 0 && rest == idx[..|idx| - 1] && idx[|idx| - 1] == |answers| - 1)
    ensures EveryUsable(answers[..|answers| - 1], chain, rest)
  {
    hide Usable;
    var n := |answers| - 1;
    forall i | 0 <= i < n && Usable(answers[..n][i], chain)
      ensures i in rest
    {
      assert i in idx;
      var k :| 0 <= k < |idx| && idx[k] == i;
      assert rest[k] == i;
    }
  }

  /**
   An observation is made exactly for an untruncated, error-free response to a usable query whose answer
   section parses and whose CNAME chain exists; it records precisely the selected addresses, in order.
   */
  lemma ObserveExact(query: Bytes, msg: Bytes, obs: Observation)
    ensures Observe(query, msg) == Some(obs) <==>
      && Trusted(msg) && Normalize(query) == Some(obs.domain) && Answers(msg).Done?
      && exists chain, idx, least: U32 ::
           && IsChain(msg, Answers(msg).value, obs.domain, chain)
           && Selects(Answers(msg).value, chain, idx) && AddressesAt(msg, Answers(msg).value, idx, obs.ips)
           && LeastTtl(Answers(msg).value, chain, least) && obs.ttl == Clamp(least)
  {
    hide ChaseFrom, Normalize, Answers, Collect, IsChain, Trusted, Selects, AddressesAt, LeastTtl, Clamp;
    if Trusted(msg) && Normalize(query) == Some(obs.domain) && Answers(msg).Done? {
      var answers := Answers(msg).value;
      if Observe(query, msg) == Some(obs) {
        var chain := ChaseFrom(msg, answers, [obs.domain]).value;
        var (ips, least) := Collect(msg, answers, chain);
        ChaseExact(msg, answers, obs.domain, chain);
        CollectExact(msg, answers, chain, ips, least);
      }
      forall chain, idx, least: U32 |
        && IsChain(msg, answers, obs.domain, chain)
        && Selects(answers, chain, idx) && AddressesAt(msg, answers, idx, obs.ips)
        && LeastTtl(answers, chain, least) && obs.ttl == Clamp(least)
        ensures Observe(query, msg) == Some(obs)
      {
        ChaseExact(msg, answers, obs.domain, chain);
        CollectExact(msg, answers, chain, obs.ips, least);
      }
    }
  }

  lemma CollectExact(msg: Bytes, answers: seq<Record>, chain: seq<Bytes>, ips: seq<Bytes>, least: U32)
    requires forall r <- answers :: InMessage(msg, r)
    ensures (Collect(msg, answers, chain) == (ips, least) && ips != []) <==>
      LeastTtl(answers, chain, least) &&
      exists idx :: Selects(answers, chain, idx) && AddressesAt(msg, answers, idx, ips)
  {
    hide Collect, Usable, Rdata, Selects;
    var idx := CollectSelects(msg, answers, chain);
    CollectLeast(msg, answers, chain);
    forall other | Selects(answers, chain, other)
      ensures other == idx
    {
      SelectionIsUnique(answers, chain, other, idx);
    }
    var (got, ttl) := Collect(msg, answers, chain);
    if AddressesAt(msg, answers, idx, ips) {
      assert ips == got;
    }
    if got != [] && LeastTtl(answers, chain, least) {
      LeastIsUnique(answers, chain, ttl, least);
    }
  }

  lemma LeastIsUnique(answers: seq<Record>, chain: seq<Bytes>, a: U32, b: U32)
    requires LeastTtl(answers, chain, a) && LeastTtl(answers, chain, b)
    ensures a == b
  {
    hide Usable;
  }

  // ---- The observer's own loops ----

  method ObserveResponse(query: Bytes, msg: Bytes) returns (obs: Option<Observation>)
    ensures obs == Observe(query, msg)
  {
    hide Normalize, Answers, ChaseFrom, Collect;
    var header := ParseHeader(msg);
    if header.None? || !header.value.qr || header.value.tc || header.value.rcode != 0 {
      return None;
    }
    var normal := Normalize(query);
    if normal.None? {
      return None;
    }
    var qname := normal.value;
    var parsed := ParseAnswers(msg);
    if parsed.Failed? {
      return None;
    }
    var answers := parsed.value;
    var chased := WalkChain(msg, answers, qname);
    if chased.None? {
      return None;
    }
    var ips, ttl := CollectAddresses(msg, answers, chased.value);
    if |ips| == 0 {
      return None;
    }
    return Some(Observation(qname, ips, Clamp(ttl)));
  }

  method WalkChain(msg: Bytes, answers: seq<Record>, qname: Bytes) returns (chased: Option<seq<Bytes>>)
    ensures chased == ChaseFrom(msg, answers, [qname])
  {
    hide Decode;
    var chain := [qname];
    while true
      invariant 0 < |chain| <= MAX_CNAME_CHAIN
      invariant ChaseFrom(msg, answers, chain) == ChaseFrom(msg, answers, [qname])
      decreases MAX_CNAME_CHAIN - |chain|
    {
      var cur := chain[|chain| - 1];
      var cname := FindCname(answers, cur);
      if cname.None? {
        break;
      }
      var target := DecodeName(msg, cname.value.rdataOff);
      if target.Bad? {
        return None;
      }
      if |chain| >= MAX_CNAME_CHAIN || target.name in chain {
        break;
      }
      chain := chain + [target.name];
    }
    return Some(chain);
  }

  method FindCname(answers: seq<Record>, name: Bytes) returns (r: Option<Record>)
    ensures r == FirstCname(answers, name)
  {
    var i := 0;
    assert answers[0..] == answers;
    while i < |answers|
      invariant 0 <= i <= |answers| && FirstCname(answers[i..], name) == FirstCname(answers, name)
    {
      if answers[i].rtype == TYPE_CNAME && answers[i].owner == name {
        return Some(answers[i]);
      }
      assert answers[i..][1..] == answers[i + 1..];
      i := i + 1;
    }
    r := None;
  }

  method CollectAddresses(msg: Bytes, answers: seq<Record>, chain: seq<Bytes>) returns (ips: seq<Bytes>, ttl: U32)
    requires forall r <- answers :: InMessage(msg, r)
    ensures (ips, ttl) == Collect(msg, answers, chain)
  {
    ips, ttl := [], TWO_32 - 1;
    for i := 0 to |answers|
      invariant (ips, ttl) == Collect(msg, answers[..i], chain)
    {
      var record := answers[i];
      assert answers[..i + 1][..i] == answers[..i] && record in answers;
      if (record.rtype != TYPE_A && record.rtype != TYPE_AAAA) || record.owner !in chain {
        continue;
      }
      var rdata := msg[record.rdataOff..record.rdataOff + record.rdataLen];
      if (record.rtype == TYPE_A && record.rdataLen == 4) || (record.rtype == TYPE_AAAA && record.rdataLen == 16) {
        ips := ips + [rdata];
        ttl := if record.ttl < ttl then record.ttl else ttl;
      }
    }
    assert answers[..|answers|] == answers;
  }
}
