/**
 Domain names on the wire (section 4.1.4 of RFC 1035): labels, compression pointers, and the decoder that
 caps its jumps and remembers its targets. `Reads` is the inductive meaning of a name, `Decode` what the
 decoder returns; `DecodeExact` relates the two on every message and every start.
 */
module DnsName {
  import opened Wire

  const MAX_NAME_LEN := 255
  const MAX_POINTER_JUMPS := 64
  const HYPHEN: Byte := 45

  datatype DnsError =
    TooShort | BadLabel | NameTooLong | PointerLoop | PointerOutOfRange | NotAResponse | TooManyRecords

  datatype NameResult = Ok(name: Bytes, next: nat) | Bad(error: DnsError)

  // ---- Normalisation ----

  predicate HostByte(b: Byte)
  {
    48 <= b <= 57 || 65 <= b <= 90 || 97 <= b <= 122 || b == HYPHEN
  }

  predicate EmptyLabel(s: Bytes)
  {
    |s| == 0 || s[0] == DOT || s[|s| - 1] == DOT || exists i | 0 <= i < |s| - 1 :: s[i] == DOT && s[i + 1] == DOT
  }

  /** The registry key of a name, or nothing if it cannot be one. */
  function Normalize(name: Bytes): Option<Bytes>
  {
    var s := Lower(TrimDots(name));
    if s == [] || |s| > MAX_NAME_LEN then None
    else if exists b <- s :: !HostByte(b) && b != DOT then None
    else if EmptyLabel(s) then None
    else Some(s)
  }

  /** Normal forms are fixed points, and neither letter case nor a trailing root dot matters. */
  lemma NormalizeStable(name: Bytes)
    ensures Normalize(name).Some? ==> Normalize(Normalize(name).value) == Normalize(name)
    ensures Normalize(Lower(name)) == Normalize(name) && Normalize(name + [DOT]) == Normalize(name)
  {
    hide EmptyLabel, HostByte, Lower, TrimDots;
    var s := Lower(TrimDots(name));
    TrimLower(name);
    TrimLower(TrimDots(name));
    TrimStable(name);
    LowerTwice(TrimDots(name));
    assert TrimDots(s) == s && Lower(s) == s;
  }

  lemma {:induction false} TrimStable(s: Bytes)
    ensures TrimDots(TrimDots(s)) == TrimDots(s) && TrimDots(s + [DOT]) == TrimDots(s)
  {
    assert (s + [DOT])[..|s|] == s;
    if |s| > 0 && s[|s| - 1] == DOT {
      TrimStable(s[..|s| - 1]);
    }
  }

  lemma LowerTwice(s: Bytes)
    ensures Lower(Lower(s)) == Lower(s)
  {
  }

  lemma {:induction false} TrimLower(s: Bytes)
    ensures TrimDots(Lower(s)) == Lower(TrimDots(s))
  {
    if |s| > 0 && s[|s| - 1] == DOT {
      TrimLower(s[..|s| - 1]);
      assert Lower(s)[..|s| - 1] == Lower(s[..|s| - 1]);
    }
  }

  // ---- The meaning of a name ----

  function PointerTarget(hi: Byte, lo: Byte): nat
    requires hi >= 0xC0
  {
    256 * (hi - 0xC0) + lo
  }

  /** From `pos` the message spells `labels`, following `hops` pointers on the way to the root. */
  ghost predicate Reads(msg: Bytes, pos: nat, labels: seq<Bytes>, hops: nat)
    decreases |labels| + hops
  {
    && pos < |msg|
    && if msg[pos] == 0 then labels == [] && hops == 0
       else if msg[pos] >= 0xC0 then
         && hops > 0 && pos + 1 < |msg|
         && PointerTarget(msg[pos], msg[pos + 1]) < |msg|
         && Reads(msg, PointerTarget(msg[pos], msg[pos + 1]), labels, hops - 1)
       else
         && msg[pos] <= 63 && pos + 1 + msg[pos] as int <= |msg|
         && |labels| > 0 && labels[0] == msg[pos + 1..pos + 1 + msg[pos] as int]
         && Reads(msg, pos + 1 + msg[pos] as int, labels[1..], hops)
  }

  /** A name has at most one meaning. */
  lemma {:induction false} ReadsOnce(msg: Bytes, pos: nat, l1: seq<Bytes>, h1: nat, l2: seq<Bytes>, h2: nat)
    requires Reads(msg, pos, l1, h1) && Reads(msg, pos, l2, h2)
    ensures l1 == l2 && h1 == h2
    decreases |l1| + h1
  {
    if msg[pos] == 0 {
    } else if msg[pos] >= 0xC0 {
      ReadsOnce(msg, PointerTarget(msg[pos], msg[pos + 1]), l1, h1 - 1, l2, h2 - 1);
    } else {
      ReadsOnce(msg, pos + 1 + msg[pos] as int, l1[1..], h1, l2[1..], h2);
      assert l1 == [l1[0]] + l1[1..] && l2 == [l2[0]] + l2[1..];
    }
  }

  /** Bytes the labels take on the wire, the root's zero not counted. */
  function WireLen(labels: seq<Bytes>): nat
  {
    if |labels| == 0 then 0 else 1 + |labels[0]| + WireLen(labels[1..])
  }

  function Join(labels: seq<Bytes>): Bytes
  {
    if |labels| == 0 then []
    else if |labels| == 1 then labels[0]
    else labels[0] + [DOT] + Join(labels[1..])
  }

  /** Just past the name as encoded at `pos`: after its first pointer or its root. */
  function NameEnd(msg: Bytes, pos: nat): (e: nat)
    ensures pos < |msg| ==> pos < e
    decreases |msg| - pos
  {
    if pos >= |msg| then pos
    else if msg[pos] == 0 then pos + 1
    else if msg[pos] >= 0xC0 then pos + 2
    else NameEnd(msg, pos + 1 + msg[pos] as int)
  }

  // ---- What the decoder returns ----

  datatype Walked = Labels(labels: seq<Bytes>) | Stuck(error: DnsError)

  function Walk(msg: Bytes, pos: nat, jumps: nat, visited: seq<nat>, total: nat): Walked
    requires jumps <= MAX_POINTER_JUMPS && total <= MAX_NAME_LEN
    decreases MAX_POINTER_JUMPS - jumps + MAX_NAME_LEN - total
  {
    if pos >= |msg| then Stuck(TooShort)
    else if msg[pos] == 0 then Labels([])
    else if msg[pos] >= 0xC0 then
      if pos + 1 >= |msg| then Stuck(TooShort)
      else
        var target := PointerTarget(msg[pos], msg[pos + 1]);
        if jumps + 1 > MAX_POINTER_JUMPS then Stuck(PointerLoop)
        else if target >= |msg| || target in visited then Stuck(PointerOutOfRange)
        else Walk(msg, target, jumps + 1, visited + [target], total)
    else if msg[pos] <= 63 then
      var end := pos + 1 + msg[pos] as int;
      if end > |msg| then Stuck(TooShort)
      else if total + (end - pos) > MAX_NAME_LEN then Stuck(NameTooLong)
      else
        match Walk(msg, end, jumps, visited, total + (end - pos))
        case Labels(ls) => Labels([msg[pos + 1..end]] + ls)
        case Stuck(e) => Stuck(e)
    else Stuck(BadLabel)
  }

  function Decode(msg: Bytes, start: nat): NameResult
  {
    match Walk(msg, start, 0, [], 0)
    case Stuck(e) => Bad(e)
    case Labels(ls) =>
      match Normalize(Join(ls))
      case None => Bad(BadLabel)
      case Some(name) => Ok(name, NameEnd(msg, start))
  }

  lemma {:induction false} WalkIsSound(msg: Bytes, pos: nat, jumps: nat, visited: seq<nat>, total: nat)
    returns (hops: nat)
    requires jumps <= MAX_POINTER_JUMPS && total <= MAX_NAME_LEN
    requires Walk(msg, pos, jumps, visited, total).Labels?
    ensures
      var ls := Walk(msg, pos, jumps, visited, total).labels;
      Reads(msg, pos, ls, hops) && jumps + hops <= MAX_POINTER_JUMPS && total + WireLen(ls) <= MAX_NAME_LEN
    decreases MAX_POINTER_JUMPS - jumps + MAX_NAME_LEN - total
  {
    if msg[pos] == 0 {
      hops := 0;
    } else if msg[pos] >= 0xC0 {
      var target := PointerTarget(msg[pos], msg[pos + 1]);
      hops := WalkIsSound(msg, target, jumps + 1, visited + [target], total);
      hops := hops + 1;
    } else {
      var end := pos + 1 + msg[pos] as int;
      hops := WalkIsSound(msg, end, jumps, visited, total + (end - pos));
      var ls := Walk(msg, end, jumps, visited, total + (end - pos)).labels;
      assert ([msg[pos + 1..end]] + ls)[1..] == ls;
    }
  }

  /** Every remembered target spells at least as much as is still to be read. */
  ghost predicate Ahead(msg: Bytes, visited: seq<nat>, n: nat)
  {
    forall v <- visited :: exists ls, h :: Reads(msg, v, ls, h) && |ls| + h >= n
  }

  /** A name that can be read within the caps is walked to its end: no target of it ever repeats. */
  lemma {:induction false} WalkIsComplete(
    msg: Bytes, pos: nat, labels: seq<Bytes>, hops: nat, jumps: nat, visited: seq<nat>, total: nat)
    requires Reads(msg, pos, labels, hops) && Ahead(msg, visited, |labels| + hops)
    requires jumps + hops <= MAX_POINTER_JUMPS && total + WireLen(labels) <= MAX_NAME_LEN
    ensures Walk(msg, pos, jumps, visited, total) == Labels(labels)
    decreases |labels| + hops
  {
    if msg[pos] == 0 {
    } else if msg[pos] >= 0xC0 {
      var target := PointerTarget(msg[pos], msg[pos + 1]);
      if target in visited {
        var ls, h :| Reads(msg, target, ls, h) && |ls| + h >= |labels| + hops;
        ReadsOnce(msg, target, ls, h, labels, hops - 1);
      }
      WalkIsComplete(msg, target, labels, hops - 1, jumps + 1, visited + [target], total);
    } else {
      var end := pos + 1 + msg[pos] as int;
      WalkIsComplete(msg, end, labels[1..], hops, jumps, visited, total + (end - pos));
      assert labels == [labels[0]] + labels[1..];
    }
  }

  /** The labels of a readable name that fits the decoder's caps. */
  ghost predicate Spells(msg: Bytes, start: nat, labels: seq<Bytes>)
  {
    WireLen(labels) <= MAX_NAME_LEN && exists hops: nat | hops <= MAX_POINTER_JUMPS :: Reads(msg, start, labels, hops)
  }

  /** Decoding succeeds exactly on names that can be read within the caps, and returns their normal form. */
  lemma DecodeExact(msg: Bytes, start: nat, name: Bytes, next: nat)
    ensures Decode(msg, start) == Ok(name, next) <==>
      && next == NameEnd(msg, start)
      && exists labels :: Spells(msg, start, labels) && Normalize(Join(labels)) == Some(name)
  {
    hide Normalize, Walk, NameEnd;
    var w := Walk(msg, start, 0, [], 0);
    if w.Labels? {
      var hops := WalkIsSound(msg, start, 0, [], 0);
      assert Spells(msg, start, w.labels);
    }
    forall labels | Spells(msg, start, labels)
      ensures w == Labels(labels)
    {
      var hops: nat :| hops <= MAX_POINTER_JUMPS && Reads(msg, start, labels, hops);
      WalkIsComplete(msg, start, labels, hops, 0, [], 0);
    }
  }

  /** Past the start and inside the message. */
  lemma DecodeAdvances(msg: Bytes, start: nat)
    requires Decode(msg, start).Ok?
    ensures start < Decode(msg, start).next <= |msg|
  {
    hide Normalize;
    WalkedEnd(msg, start, 0, [], 0);
  }

  lemma {:induction false} WalkedEnd(msg: Bytes, pos: nat, jumps: nat, visited: seq<nat>, total: nat)
    requires jumps <= MAX_POINTER_JUMPS && total <= MAX_NAME_LEN
    requires Walk(msg, pos, jumps, visited, total).Labels?
    ensures pos < NameEnd(msg, pos) <= |msg|
    decreases |msg| - pos
  {
    if 0 < msg[pos] <= 63 {
      var end := pos + 1 + msg[pos] as int;
      WalkedEnd(msg, end, jumps, visited, total + (end - pos));
    }
  }

  // ---- Compression is transparent ----

  /** Two encodings of the same labels, compressed or not, in one message or in two, decode to one name. */
  lemma CompressionTransparent(m1: Bytes, p1: nat, m2: Bytes, p2: nat, labels: seq<Bytes>)
    requires Spells(m1, p1, labels) && Spells(m2, p2, labels)
    ensures
      match (Decode(m1, p1), Decode(m2, p2))
      case (Ok(n1, _), Ok(n2, _)) => n1 == n2
      case (Bad(e1), Bad(e2)) => e1 == e2 == BadLabel
      case _ => false
  {
    hide Normalize, Walk, NameEnd;
    var h1: nat :| h1 <= MAX_POINTER_JUMPS && Reads(m1, p1, labels, h1);
    var h2: nat :| h2 <= MAX_POINTER_JUMPS && Reads(m2, p2, labels, h2);
    WalkIsComplete(m1, p1, labels, h1, 0, [], 0);
    WalkIsComplete(m2, p2, labels, h2, 0, [], 0);
  }

  predicate HostLabel(l: Bytes)
  {
    1 <= |l| <= 63 && forall b <- l :: HostByte(b)
  }

  predicate HostLabels(labels: seq<Bytes>)
  {
    |labels| > 0 && forall l <- labels :: HostLabel(l)
  }

  function PutLabels(labels: seq<Bytes>): Bytes
    requires forall l <- labels :: HostLabel(l)
  {
    if |labels| == 0 then [0] else assert HostLabel(labels[0]); [|labels[0]|] + labels[0] + PutLabels(labels[1..])
  }

  lemma {:induction false} PutLabelsRead(before: Bytes, labels: seq<Bytes>, rest: Bytes)
    requires forall l <- labels :: HostLabel(l)
    ensures
      var msg := before + PutLabels(labels) + rest;
      Reads(msg, |before|, labels, 0) && NameEnd(msg, |before|) == |before| + WireLen(labels) + 1
    decreases labels
  {
    hide HostByte;
    if |labels| > 0 {
      var l := labels[0];
      assert HostLabel(l);
      var before' := before + ([|l|] + l);
      PutLabelsRead(before', labels[1..], rest);
      PutLabelsStep(before, labels, rest);
    }
  }

  lemma PutLabelsStep(before: Bytes, labels: seq<Bytes>, rest: Bytes)
    requires |labels| > 0 && forall l <- labels :: HostLabel(l)
    ensures
      var l, msg := labels[0], before + PutLabels(labels) + rest;
      var next := |before| + 1 + |l|;
      && 1 <= |l| <= 63 && next <= |msg| && msg == before + ([|l|] + l) + PutLabels(labels[1..]) + rest
      && msg[|before|] == |l| && msg[|before| + 1..next] == l
  {
    hide HostByte;
    var l := labels[0];
    assert HostLabel(l);
    var msg := before + PutLabels(labels) + rest;
    assert msg == before + ([|l|] + l) + PutLabels(labels[1..]) + rest;
  }

  /** What joining host labels gives: host bytes and single inner dots. */
  predicate Dotted(s: Bytes)
  {
    !EmptyLabel(s) && forall b <- s :: HostByte(b) || b == DOT
  }

  lemma {:induction false} JoinIsDotted(labels: seq<Bytes>)
    requires HostLabels(labels)
    ensures Dotted(Join(labels)) && |Join(labels)| + 1 == WireLen(labels)
    decreases labels
  {
    var l := labels[0];
    assert HostLabel(l) && l[0] in l && l[|l| - 1] in l;
    assert forall i | 0 <= i < |l| :: l[i] in l;
    if |labels| == 1 {
      assert labels[1..] == [];
    } else {
      var rest := Join(labels[1..]);
      JoinIsDotted(labels[1..]);
      var s := l + [DOT] + rest;
      forall i | 0 <= i < |s| - 1
        ensures !(s[i] == DOT && s[i + 1] == DOT)
      {
        if i > |l| {
          assert s[i] == rest[i - |l| - 1] && s[i + 1] == rest[i - |l|];
        }
      }
    }
  }

  lemma DottedNormalizes(s: Bytes)
    requires Dotted(s) && |s| <= MAX_NAME_LEN
    ensures Normalize(s) == Some(Lower(s))
  {
    var t := Lower(s);
    assert TrimDots(s) == s;
    forall b | b in t
      ensures HostByte(b) || b == DOT
    {
      var i :| 0 <= i < |t| && t[i] == b;
      assert s[i] in s;
    }
    assert forall i | 0 <= i < |s| :: t[i] == DOT <==> s[i] == DOT;
  }

  /** Host labels written without compression, anywhere in a message, decode to their lowercase dotted form. */
  lemma EncodeDecode(before: Bytes, labels: seq<Bytes>, rest: Bytes)
    requires HostLabels(labels) && WireLen(labels) <= MAX_NAME_LEN
    ensures Decode(before + PutLabels(labels) + rest, |before|) ==
            Ok(Lower(Join(labels)), |before| + WireLen(labels) + 1)
  {
    hide Normalize, Walk, PutLabels, Join, Lower, Reads, NameEnd, WireLen;
    var msg := before + PutLabels(labels) + rest;
    PutLabelsRead(before, labels, rest);
    WalkIsComplete(msg, |before|, labels, 0, 0, [], 0);
    JoinIsDotted(labels);
    DottedNormalizes(Join(labels));
  }

  // ---- The decoder's own loop ----

  /** A name read so far, followed by further labels. */
  function Extend(out: Bytes, labels: seq<Bytes>): Bytes
  {
    if out == [] then Join(labels) else if |labels| == 0 then out else out + [DOT] + Join(labels)
  }

  /** The text read so far and the walk from here make up the whole walk. */
  ghost predicate Continues(whole: Walked, out: Bytes, w: Walked)
  {
    match w
    case Stuck(e) => whole == Stuck(e)
    case Labels(ls) => whole.Labels? && Join(whole.labels) == Extend(out, ls)
  }

  lemma LabelRead(out: Bytes, l: Bytes, labels: seq<Bytes>)
    requires |l| > 0
    ensures Extend(out, [l] + labels) == Extend(if out == [] then l else out + [DOT] + l, labels)
  {
    assert ([l] + labels)[1..] == labels;
    if |labels| == 0 {
      assert [l] + labels == [l];
    } else {
      assert Join([l] + labels) == l + [DOT] + Join(labels);
      assert out + [DOT] + (l + [DOT] + Join(labels)) == (out + [DOT] + l) + [DOT] + Join(labels);
    }
  }

  lemma NothingRead(whole: Walked)
    ensures Continues(whole, [], whole)
  {
  }

  lemma NothingLeft(out: Bytes)
    ensures Extend(out, []) == out
  {
  }

  method DecodeName(msg: Bytes, start: nat) returns (r: NameResult)
    ensures r == Decode(msg, start)
  {
    hide Normalize, Extend, Join;
    var out: Bytes := [];
    var pos: nat := start;
    var after: Option<nat> := None;
    var jumps: nat := 0;
    var visited: seq<nat> := [];
    var total: nat := 0;
    ghost var whole := Walk(msg, start, 0, [], 0);
    NothingRead(whole);
    while true
      invariant jumps <= MAX_POINTER_JUMPS && total <= MAX_NAME_LEN
      invariant Continues(whole, out, Walk(msg, pos, jumps, visited, total))
      invariant if after.Some? then after.value == NameEnd(msg, start) else NameEnd(msg, pos) == NameEnd(msg, start)
      decreases MAX_POINTER_JUMPS - jumps + MAX_NAME_LEN - total
    {
      if pos >= |msg| {
        return Bad(TooShort);
      }
      var len := msg[pos];
      if len == 0 {
        if after.None? {
          after := Some(pos + 1);
        }
        break;
      } else if len >= 0xC0 {
        if pos + 1 >= |msg| {
          return Bad(TooShort);
        }
        var target := PointerTarget(len, msg[pos + 1]);
        if after.None? {
          after := Some(pos + 2);
        }
        if jumps + 1 > MAX_POINTER_JUMPS {
          return Bad(PointerLoop);
        }
        if target >= |msg| || target in visited {
          return Bad(PointerOutOfRange);
        }
        jumps := jumps + 1;
        visited := visited + [target];
        pos := target;
      } else if len <= 63 {
        var end := pos + 1 + len as int;
        if end > |msg| {
          return Bad(TooShort);
        }
        if total + 1 + len > MAX_NAME_LEN {
          return Bad(NameTooLong);
        }
        ghost var rest := Walk(msg, end, jumps, visited, total + (end - pos));
        var text := msg[pos + 1..end];
        assert [] + text == text;
        if rest.Labels? {
          LabelRead(out, text, rest.labels);
        }
        if out != [] {
          out := out + [DOT];
        }
        out := out + text;
        total := total + 1 + len;
        pos := end;
      } else {
        return Bad(BadLabel);
      }
    }
    NothingLeft(out);
    match Normalize(out)
    case None => return Bad(BadLabel);
    case Some(name) => return Ok(name, after.value);
  }

  // ---- What a key says about its labels ----

  /** The labels between dots; empty ones are kept. */
  function Split(s: Bytes): (labels: seq<Bytes>)
    ensures |labels| > 0
  {
    if DOT !in s then [s]
    else
      var i := FirstDot(s);
      [s[..i]] + Split(s[i + 1..])
  }

  function FirstDot(s: Bytes): (i: nat)
    requires DOT in s
    ensures i < |s| && s[i] == DOT && DOT !in s[..i]
  {
    if s[0] == DOT then 0
    else
      assert s == [s[0]] + s[1..];
      var i := FirstDot(s[1..]);
      assert s[..i + 1] == [s[0]] + s[1..][..i];
      i + 1
  }

  lemma {:induction false} SplitJoins(s: Bytes)
    ensures Join(Split(s)) == s
  {
    if DOT in s {
      var i := FirstDot(s);
      SplitJoins(s[i + 1..]);
      var rest := Split(s[i + 1..]);
      assert ([s[..i]] + rest)[1..] == rest;
      assert s == s[..i] + [DOT] + s[i + 1..];
    }
  }

  lemma {:induction false} SplitHasNoDots(s: Bytes)
    ensures forall l <- Split(s) :: DOT !in l
  {
    hide FirstDot;
    if DOT in s {
      SplitHasNoDots(s[FirstDot(s) + 1..]);
    }
  }

  lemma {:induction false} JoinSplits(labels: seq<Bytes>)
    requires |labels| > 0 && forall l <- labels :: DOT !in l
    ensures Split(Join(labels)) == labels
  {
    hide FirstDot;
    assert labels[0] in labels;
    if |labels| > 1 {
      var l, s := labels[0], Join(labels);
      JoinSplits(labels[1..]);
      assert s[|l|] == DOT && s[..|l|] == l && s[|l| + 1..] == Join(labels[1..]);
      DotAt(s, |l|);
      assert labels == [l] + labels[1..];
    }
  }

  lemma DotAt(s: Bytes, i: nat)
    requires i < |s| && s[i] == DOT && DOT !in s[..i]
    ensures DOT in s && FirstDot(s) == i
  {
    hide FirstDot;
    assert s[i] in s;
    assert forall n: nat, j: nat | j < n <= |s| :: s[..n][j] == s[j];
  }

  function Lowered(labels: seq<Bytes>): (r: seq<Bytes>)
    ensures |r| == |labels| && forall i | 0 <= i < |r| :: r[i] == Lower(labels[i])
  {
    seq(|labels|, i requires 0 <= i < |labels| => Lower(labels[i]))
  }

  lemma {:induction false} JoinLowered(labels: seq<Bytes>)
    ensures Join(Lowered(labels)) == Lower(Join(labels))
  {
    if |labels| > 1 {
      JoinLowered(labels[1..]);
      assert Lowered(labels)[1..] == Lowered(labels[1..]);
      LowerJoins(labels[0] + [DOT], Join(labels[1..]));
      LowerJoins(labels[0], [DOT]);
    }
  }

  lemma LowerJoins(a: Bytes, b: Bytes)
    ensures Lower(a + b) == Lower(a) + Lower(b)
  {
  }

  lemma LowerKeepsDots(l: Bytes)
    ensures DOT in Lower(l) <==> DOT in l
  {
    if DOT in l {
      var i :| 0 <= i < |l| && l[i] == DOT;
      assert Lower(l)[i] == DOT;
    }
    if DOT in Lower(l) {
      var i :| 0 <= i < |l| && Lower(l)[i] == DOT;
      assert l[i] == DOT;
    }
  }

  lemma {:induction false} ReadsNonEmpty(msg: Bytes, pos: nat, labels: seq<Bytes>, hops: nat)
    requires Reads(msg, pos, labels, hops)
    ensures forall l <- labels :: l != []
    decreases |labels| + hops
  {
    if msg[pos] == 0 {
    } else if msg[pos] >= 0xC0 {
      ReadsNonEmpty(msg, PointerTarget(msg[pos], msg[pos + 1]), labels, hops - 1);
    } else {
      ReadsNonEmpty(msg, pos + 1 + msg[pos] as int, labels[1..], hops);
      assert labels == [labels[0]] + labels[1..];
    }
  }

  lemma {:induction false} JoinEndsPlain(labels: seq<Bytes>)
    requires |labels| > 0 && forall l <- labels :: l != [] && DOT !in l
    ensures TrimDots(Join(labels)) == Join(labels)
  {
    assert labels[0] in labels && forall l <- labels[1..] :: l in labels;
    var s := Join(labels);
    if |labels| > 1 {
      JoinEndsPlain(labels[1..]);
      var rest := Join(labels[1..]);
      assert |rest| > 0 && rest[|rest| - 1] != DOT by { PlainEnd(labels[1..]); }
      assert s[|s| - 1] == rest[|rest| - 1];
    } else {
      assert s[|s| - 1] in s;
    }
  }

  lemma {:induction false} PlainEnd(labels: seq<Bytes>)
    requires |labels| > 0 && forall l <- labels :: l != [] && DOT !in l
    ensures var s := Join(labels); |s| > 0 && s[|s| - 1] != DOT
  {
    assert labels[0] in labels && forall l <- labels[1..] :: l in labels;
    if |labels| > 1 {
      PlainEnd(labels[1..]);
    } else {
      assert labels[0][|labels[0]| - 1] in labels[0];
    }
  }

  /** A decoded key, cut at its dots, is the labels that were read, up to letter case, exactly if none holds a dot. */
  lemma KeyTellsLabelsExactly(msg: Bytes, start: nat, labels: seq<Bytes>)
    requires Spells(msg, start, labels) && Decode(msg, start).Ok?
    ensures Split(Decode(msg, start).name) == Lowered(labels) <==> forall l <- labels :: DOT !in l
  {
    hide Walk, NameEnd, Decode, Split, Join, TrimDots, EmptyLabel, HostByte;
    var name := Decode(msg, start).name;
    KeyOf(msg, start, labels);
    var hops: nat :| hops <= MAX_POINTER_JUMPS && Reads(msg, start, labels, hops);
    ReadsNonEmpty(msg, start, labels, hops);
    forall l | l in labels
      ensures DOT in Lower(l) <==> DOT in l
    {
      LowerKeepsDots(l);
    }
    if forall l <- labels :: DOT !in l {
      SomeLabel(labels);
      JoinEndsPlain(labels);
      JoinLowered(labels);
      JoinSplits(Lowered(labels));
    } else {
      SplitHasNoDots(name);
      var l :| l in labels && DOT in l;
      var i :| 0 <= i < |labels| && labels[i] == l;
      assert Lowered(labels)[i] in Lowered(labels);
    }
  }

  lemma KeyOf(msg: Bytes, start: nat, labels: seq<Bytes>)
    requires Spells(msg, start, labels) && Decode(msg, start).Ok?
    ensures Normalize(Join(labels)) == Some(Decode(msg, start).name)
  {
    hide Walk, NameEnd, Normalize, Join;
    var name, next := Decode(msg, start).name, Decode(msg, start).next;
    DecodeExact(msg, start, name, next);
    var other :| Spells(msg, start, other) && Normalize(Join(other)) == Some(name);
    var h1: nat :| h1 <= MAX_POINTER_JUMPS && Reads(msg, start, labels, h1);
    var h2: nat :| h2 <= MAX_POINTER_JUMPS && Reads(msg, start, other, h2);
    ReadsOnce(msg, start, labels, h1, other, h2);
  }

  lemma SomeLabel(labels: seq<Bytes>)
    requires Normalize(Join(labels)).Some?
    ensures |labels| > 0
  {
  }

  /** So labels without dots are told apart by their keys. */
  lemma SameKeySameLabels(m1: Bytes, p1: nat, l1: seq<Bytes>, m2: Bytes, p2: nat, l2: seq<Bytes>)
    requires Spells(m1, p1, l1) && Decode(m1, p1).Ok? && Spells(m2, p2, l2) && Decode(m2, p2).Ok?
    requires (forall l <- l1 :: DOT !in l) && forall l <- l2 :: DOT !in l
    ensures Decode(m1, p1).name == Decode(m2, p2).name <==> Lowered(l1) == Lowered(l2)
  {
    hide Decode, Spells, Split, Lowered;
    KeyTellsLabelsExactly(m1, p1, l1);
    KeyTellsLabelsExactly(m2, p2, l2);
    SplitJoins(Decode(m1, p1).name);
    SplitJoins(Decode(m2, p2).name);
  }

  /** One label `a.b` and the labels `a` and `b` have the same key. */
  lemma DottedLabelCollides()
    ensures
      var one: Bytes, two: Bytes := [3, 97, DOT, 98, 0], [1, 97, 1, 98, 0];
      Decode(one, 0).Ok? && Decode(two, 0).Ok? && Decode(one, 0).name == Decode(two, 0).name
    ensures Lowered([[97, DOT, 98]]) != Lowered([[97], [98]])
  {
    hide Decode, Walk, Normalize, Lower;
    var one: Bytes, two: Bytes := [3, 97, DOT, 98, 0], [1, 97, 1, 98, 0];
    var a: Bytes, b: Bytes, whole: Bytes := [97], [98], [97, DOT, 98];
    assert [a, b][1..] == [b] && [b][1..] == [];
    assert WireLen([b]) == 2 && WireLen([a, b]) == 4 && HostLabel(a) && HostLabel(b);
    assert PutLabels([b]) == [1, 98, 0] && PutLabels([a, b]) == [1] + a + PutLabels([b]);
    assert [] + PutLabels([a, b]) + [] == two;
    EncodeDecode([], [a, b], []);
    assert Reads(two, 0, [a, b], 0) by {
      assert two[1..2] == a && two[3..4] == b;
      assert Reads(two, 4, [], 0) && Reads(two, 2, [b], 0);
    }
    KeyOf(two, 0, [a, b]);
    assert Join([a, b]) == whole && Join([whole]) == whole;
    assert Reads(one, 0, [whole], 0) by { assert one[1..4] == whole && [whole][1..] == [] && Reads(one, 4, [], 0); }
    assert WireLen([whole]) == 4 + WireLen([whole][1..]) && Spells(one, 0, [whole]);
    DecodeExact(one, 0, Decode(two, 0).name, NameEnd(one, 0));
    assert |Lowered([whole])| != |Lowered([a, b])|;
  }
}
