/**
 The server-name extractor of the packet path: which host, if any, the head of a TCP stream names.
 `ExtractSni` states the answer on nested length-prefixed blocks, `ExtractTlsSni` computes it with
 one running offset as the engine does, and `SniExact` says which byte strings name which host.
 */
module TlsSni {
  import opened Wire

  // ---- The answer, block by block ----

  datatype Block = NoBlock | Block(content: Bytes, rest: Bytes)

  function Take8(s: Bytes): Block
  {
    if |s| < 1 then NoBlock
    else
      var n: int := s[0];
      if |s| < 1 + n then NoBlock else Block(s[1..1 + n], s[1 + n..])
  }

  function Take16(s: Bytes): Block
  {
    if |s| < 2 then NoBlock
    else
      var n: int := FromBe16(s[0], s[1]);
      if |s| < 2 + n then NoBlock else Block(s[2..2 + n], s[2 + n..])
  }

  function AsHost(name: Bytes): Option<Bytes>
  {
    if ValidUtf8(name) then Some(name) else None
  }

  /** The first entry of type 0; entries are a type byte and a 16-bit block. */
  function FirstHostName(list: Bytes): Option<Bytes>
    decreases |list|
  {
    if |list| < 3 then None
    else match Take16(list[1..])
      case NoBlock => None
      case Block(name, rest) => if list[0] == 0 then AsHost(name) else FirstHostName(rest)
  }

  /** The declared list length is only a lower bound: the whole extension is searched. */
  function SniList(data: Bytes): Option<Bytes>
  {
    if |data| < 2 || |data| - 2 < FromBe16(data[0], data[1]) then None
    else FirstHostName(data[2..])
  }

  /** The first extension of type 0 decides; a block that does not fit ends the search. */
  function ServerNameIn(exts: Bytes): Option<Bytes>
    decreases |exts|
  {
    if |exts| < 4 then None
    else match Take16(exts[2..])
      case NoBlock => None
      case Block(data, rest) =>
        if FromBe16(exts[0], exts[1]) == 0 then SniList(data) else ServerNameIn(rest)
  }

  function HelloBody(body: Bytes): Option<Bytes>
  {
    if |body| < 35 then None
    else match Take8(body[34..])
      case NoBlock => None
      case Block(_, r1) => match Take16(r1)
        case NoBlock => None
        case Block(_, r2) => match Take8(r2)
          case NoBlock => None
          case Block(_, r3) => match Take16(r3)
            case NoBlock => None
            case Block(exts, _) => ServerNameIn(exts)
  }

  function ExtractSni(p: Bytes): Option<Bytes>
  {
    if |p| < 9 || p[0] != 0x16 || p[5] != 0x01 then None
    else
      var n := FromBe24(p[6], p[7], p[8]);
      if 9 + n > |p| || 4 + n > FromBe16(p[3], p[4]) then None
      else HelloBody(p[9..9 + n])
  }

  // ---- The extractor's own loops ----

  method ParseSniList(data: Bytes) returns (r: Option<Bytes>)
    ensures r == SniList(data)
  {
    hide FirstHostName, FromBe16;
    if |data| < 2 {
      return None;
    }
    var listLen := FromBe16(data[0], data[1]);
    var list := data[2..];
    if |list| < listLen {
      return None;
    }
    var off := 0;
    assert list[0..] == list;
    while off + 3 <= |list|
      invariant 0 <= off <= |list|
      invariant FirstHostName(list[off..]) == SniList(data)
    {
      var nameType := list[off];
      var nameLen := FromBe16(list[off + 1], list[off + 2]);
      NameAt(list, off);
      if off + 3 + nameLen > |list| {
        return None;
      }
      if nameType == 0 {
        var name := list[off + 3..off + 3 + nameLen];
        return if ValidUtf8(name) then Some(name) else None;
      }
      off := off + 3 + nameLen;
    }
    NoNameAt(list, off);
    r := None;
  }

  /** What the bytes at an offset of the list say about the entry there. */
  lemma NameAt(list: Bytes, off: nat)
    requires off + 3 <= |list|
    ensures
      var end := off + 3 + FromBe16(list[off + 1], list[off + 2]);
      FirstHostName(list[off..]) ==
        if end > |list| then None
        else if list[off] == 0 then AsHost(list[off + 3..end])
        else FirstHostName(list[end..])
  {
    hide FromBe16;
    var here := list[off..];
    var n: int := FromBe16(list[off + 1], list[off + 2]);
    assert here[1..][0] == list[off + 1] && here[1..][1] == list[off + 2];
    if off + 3 + n <= |list| {
      assert here[1..][2..2 + n] == list[off + 3..off + 3 + n];
      assert here[1..][2 + n..] == list[off + 3 + n..];
    }
  }

  lemma NoNameAt(list: Bytes, off: nat)
    requires off <= |list| < off + 3
    ensures FirstHostName(list[off..]) == None
  {
  }

  lemma ScanStep(exts: Bytes, e: nat)
    requires e + 4 <= |exts|
    ensures
      var n := e + 4 + FromBe16(exts[e + 2], exts[e + 3]);
      ServerNameIn(exts[e..]) ==
      if n > |exts| then None
      else if FromBe16(exts[e], exts[e + 1]) == 0 then SniList(exts[e + 4..n])
      else ServerNameIn(exts[n..])
  {
    hide SniList;
    BlockAt(exts, e + 2);
    assert exts[e..][2..] == exts[e + 2..];
  }

  lemma BlockAt(s: Bytes, off: nat)
    ensures off < |s| ==>
      var n := off + 1 + s[off] as int;
      Take8(s[off..]) == if n > |s| then NoBlock else Block(s[off + 1..n], s[n..])
    ensures off + 2 <= |s| ==>
      var n := off + 2 + FromBe16(s[off], s[off + 1]);
      Take16(s[off..]) == if n > |s| then NoBlock else Block(s[off + 2..n], s[n..])
  {
    if off + 2 <= |s| {
      var r := s[off..];
      var n := FromBe16(r[0], r[1]);
      if off + 2 + n <= |s| {
        assert r[2..2 + n] == s[off + 2..off + 2 + n] && r[2 + n..] == s[off + 2 + n..];
      }
    }
    if off < |s| {
      var r := s[off..];
      var n: int := r[0];
      if off + 1 + n <= |s| {
        assert r[1..1 + n] == s[off + 1..off + 1 + n] && r[1 + n..] == s[off + 1 + n..];
      }
    }
  }

  method ScanExtensions(exts: Bytes) returns (r: Option<Bytes>)
    ensures r == ServerNameIn(exts)
  {
    hide Take16, SniList;
    var e := 0;
    assert exts[0..] == exts;
    while e + 4 <= |exts|
      invariant 0 <= e <= |exts|
      invariant ServerNameIn(exts[e..]) == ServerNameIn(exts)
    {
      ScanStep(exts, e);
      var extType := FromBe16(exts[e], exts[e + 1]);
      var extLen := FromBe16(exts[e + 2], exts[e + 3]);
      if e + 4 + extLen > |exts| {
        return None;
      }
      if extType == 0 {
        r := ParseSniList(exts[e + 4..e + 4 + extLen]);
        return;
      }
      e := e + 4 + extLen;
    }
    r := None;
  }

  method ExtractTlsSni(p: Bytes) returns (r: Option<Bytes>)
    ensures r == ExtractSni(p)
  {
    hide ServerNameIn, Take8, Take16;
    if |p| < 5 || p[0] != 0x16 {
      return None;
    }
    var recLen := FromBe16(p[3], p[4]);
    if |p| < 9 || p[5] != 0x01 {
      return None;
    }
    var hsLen := FromBe24(p[6], p[7], p[8]);
    if 9 + hsLen > |p| || 4 + hsLen > recLen {
      return None;
    }
    var body := p[9..9 + hsLen];
    r := ScanHello(body);
  }

  method ScanHello(body: Bytes) returns (r: Option<Bytes>)
    ensures r == HelloBody(body)
  {
    hide ServerNameIn, Take8, Take16, FromBe16;
    if |body| < 2 + 32 + 1 {
      return None;
    }
    var off: int := 2 + 32;
    BlockAt(body, off);
    off := off + 1 + body[off];
    if |body| < off + 2 {
      BlockTooShort(body, off);
      return None;
    }
    BlockAt(body, off);
    off := off + 2 + FromBe16(body[off], body[off + 1]);
    if |body| < off + 1 {
      BlockTooShort(body, off);
      return None;
    }
    BlockAt(body, off);
    off := off + 1 + body[off];
    if |body| < off + 2 {
      BlockTooShort(body, off);
      return None;
    }
    BlockAt(body, off);
    var extTotal := FromBe16(body[off], body[off + 1]);
    off := off + 2;
    if off + extTotal > |body| {
      return None;
    }
    r := ScanExtensions(body[off..off + extTotal]);
  }

  lemma BlockTooShort(s: Bytes, off: nat)
    ensures off <= |s| < off + 2 ==> Take16(s[off..]) == NoBlock
    ensures off == |s| ==> Take8(s[off..]) == NoBlock
  {
  }

  // ---- Which byte strings name which host ----

  datatype Entry = Entry(kind: Byte, name: Bytes)
  datatype Extension = Extension(kind: U16, data: Bytes)

  /** Everything in a stream head around the host it names, tails included. */
  datatype Hello = Hello(
    recordVersion: Bytes, recordLen: U16, fixed: Bytes, session: Bytes, ciphers: Bytes, compression: Bytes,
    before: seq<Extension>, listLen: U16, entries: seq<Entry>, host: Bytes,
    listTail: Bytes, extTail: Bytes, bodyTail: Bytes, tail: Bytes)

  function Put16(content: Bytes): Bytes
    requires |content| < TWO_16
  {
    Be16(|content|) + content
  }

  function Put8(content: Bytes): Bytes
    requires |content| < 256
  {
    [|content|] + content
  }

  predicate Skippable(es: seq<Entry>)
  {
    forall e <- es :: e.kind != 0 && |e.name| < TWO_16
  }

  predicate Ignorable(xs: seq<Extension>)
  {
    forall x <- xs :: x.kind != 0 && |x.data| < TWO_16
  }

  function PutEntries(es: seq<Entry>): Bytes
    requires Skippable(es)
  {
    if |es| == 0 then [] else [es[0].kind] + Put16(es[0].name) + PutEntries(es[1..])
  }

  function PutExtensions(xs: seq<Extension>): Bytes
    requires Ignorable(xs)
  {
    if |xs| == 0 then [] else Be16(xs[0].kind) + Put16(xs[0].data) + PutExtensions(xs[1..])
  }

  predicate NamesFit(h: Hello)
  {
    Skippable(h.entries) && |h.host| < TWO_16
  }

  function PutNames(h: Hello): Bytes
    requires NamesFit(h)
  {
    PutEntries(h.entries) + ([0] + Put16(h.host) + h.listTail)
  }

  function PutSni(h: Hello): Bytes
    requires NamesFit(h)
  {
    Be16(h.listLen) + PutNames(h)
  }

  predicate ExtensionsFit(h: Hello)
  {
    NamesFit(h) && Ignorable(h.before) && |PutSni(h)| < TWO_16
  }

  function PutExts(h: Hello): Bytes
    requires ExtensionsFit(h)
  {
    PutExtensions(h.before) + (Be16(0) + Put16(PutSni(h)) + h.extTail)
  }

  predicate BodyFits(h: Hello)
  {
    && |h.session| < 256 && |h.ciphers| < TWO_16 && |h.compression| < 256
    && ExtensionsFit(h) && |PutExts(h)| < TWO_16
  }

  function PutBody(h: Hello): Bytes
    requires BodyFits(h)
  {
    h.fixed + (Put8(h.session) + (Put16(h.ciphers) + (Put8(h.compression) + (Put16(PutExts(h)) + h.bodyTail))))
  }

  /** Every length fits its field, and nothing before the host would have been taken instead. */
  predicate Legal(h: Hello)
  {
    && |h.recordVersion| == 2 && |h.fixed| == 34
    && BodyFits(h) && |PutBody(h)| + 4 <= h.recordLen
    && h.listLen <= |PutNames(h)| && ValidUtf8(h.host)
  }

  /** Record header, then the handshake type and its 24-bit length. */
  function RecordHead(version: Bytes, recordLen: U16, n: nat): Bytes
    requires |version| == 2 && n < 0x100_0000
  {
    [0x16] + version + (Be16(recordLen) + [0x01]) + Be24(n)
  }

  function PutHello(h: Hello): Bytes
    requires Legal(h)
  {
    RecordHead(h.recordVersion, h.recordLen, |PutBody(h)|) + (PutBody(h) + h.tail)
  }

  lemma Take16Put16(c: Bytes, rest: Bytes)
    requires |c| < TWO_16
    ensures Take16(Put16(c) + rest) == Block(c, rest)
  {
    hide Be16, Be24;
    var s := Put16(c) + rest;
    assert s[2..2 + |c|] == c && s[2 + |c|..] == rest;
  }

  lemma Take8Put8(c: Bytes, rest: Bytes)
    requires |c| < 256
    ensures Take8(Put8(c) + rest) == Block(c, rest)
  {
    var s := Put8(c) + rest;
    assert s[1..1 + |c|] == c && s[1 + |c|..] == rest;
  }

  lemma Put16Take16(s: Bytes)
    requires Take16(s).Block?
    ensures |Take16(s).content| < TWO_16 && s == Put16(Take16(s).content) + Take16(s).rest
  {
    hide Be16, Be24;
    Be16OfParts(s[0], s[1]);
  }

  lemma Put8Take8(s: Bytes)
    requires Take8(s).Block?
    ensures |Take8(s).content| < 256 && s == Put8(Take8(s).content) + Take8(s).rest
  {
  }

  lemma {:induction false} EntriesAreSkipped(es: seq<Entry>, host: Bytes, tail: Bytes)
    requires Skippable(es) && |host| < TWO_16
    ensures FirstHostName(PutEntries(es) + ([0] + Put16(host) + tail)) == AsHost(host)
  {
    hide Be16, Be24;
    var last := [0] + Put16(host) + tail;
    var s := PutEntries(es) + last;
    if |es| == 0 {
      assert s[1..] == Put16(host) + tail;
      Take16Put16(host, tail);
    } else {
      var rest := PutEntries(es[1..]) + last;
      assert s[1..] == Put16(es[0].name) + rest;
      Take16Put16(es[0].name, rest);
      EntriesAreSkipped(es[1..], host, tail);
    }
  }

  lemma {:induction false} ExtensionsAreSkipped(xs: seq<Extension>, data: Bytes, tail: Bytes)
    requires Ignorable(xs)
    requires |data| < TWO_16
    ensures ServerNameIn(PutExtensions(xs) + (Be16(0) + Put16(data) + tail)) == SniList(data)
  {
    hide Be16, Be24;
    var last := Be16(0) + Put16(data) + tail;
    var s := PutExtensions(xs) + last;
    if |xs| == 0 {
      assert s[2..] == Put16(data) + tail;
      Take16Put16(data, tail);
    } else {
      var rest := PutExtensions(xs[1..]) + last;
      assert s[2..] == Put16(xs[0].data) + rest;
      Take16Put16(xs[0].data, rest);
      ExtensionsAreSkipped(xs[1..], data, tail);
    }
  }

  lemma HeadReads(version: Bytes, recordLen: U16, n: nat, rest: Bytes)
    requires |version| == 2 && n < 0x100_0000
    ensures
      var p := RecordHead(version, recordLen, n) + rest;
      && |p| == 9 + |rest| && p[9..] == rest && p[0] == 0x16 && p[5] == 0x01
      && FromBe16(p[3], p[4]) == recordLen && FromBe24(p[6], p[7], p[8]) == n
  {
    hide Be16, Be24;
  }

  lemma LegalHelloNamesItsHost(h: Hello)
    requires Legal(h)
    ensures ExtractSni(PutHello(h)) == Some(h.host)
  {
    hide Be16, Be24, RecordHead, FromBe16, FromBe24, PutBody, HelloBody;
    var body, p := PutBody(h), PutHello(h);
    HeadReads(h.recordVersion, h.recordLen, |body|, body + h.tail);
    assert p[9..9 + |body|] == body;
    BodyNamesItsHost(h);
  }

  lemma BodyNamesItsHost(h: Hello)
    requires Legal(h)
    ensures HelloBody(PutBody(h)) == Some(h.host)
  {
    hide Be16, Be24;
    var r4 := Put16(PutExts(h)) + h.bodyTail;
    var r3 := Put8(h.compression) + r4;
    var r2 := Put16(h.ciphers) + r3;
    var r1 := Put8(h.session) + r2;
    assert PutBody(h)[34..] == r1;
    Take8Put8(h.session, r2);
    Take16Put16(h.ciphers, r3);
    Take8Put8(h.compression, r4);
    Take16Put16(PutExts(h), h.bodyTail);
    ExtensionsAreSkipped(h.before, PutSni(h), h.extTail);
    EntriesAreSkipped(h.entries, h.host, h.listTail);
    assert PutSni(h)[2..] == PutNames(h);
  }

  lemma {:induction false} EntriesOf(list: Bytes) returns (es: seq<Entry>, host: Bytes, tail: Bytes)
    requires FirstHostName(list).Some?
    ensures Skippable(es) && |host| < TWO_16 && ValidUtf8(host) && FirstHostName(list) == Some(host)
    ensures list == PutEntries(es) + ([0] + Put16(host) + tail)
    decreases |list|
  {
    hide Put16, ValidUtf8, PutEntries;
    Put16Take16(list[1..]);
    var b := Take16(list[1..]);
    assert list == [list[0]] + list[1..];
    if list[0] == 0 {
      es, host, tail := [], b.content, b.rest;
      NoEntries([0] + Put16(host) + tail);
      assert list == [0] + Put16(host) + tail;
    } else {
      es, host, tail := EntriesOf(b.rest);
      PrependEntry(Entry(list[0], b.content), es, [0] + Put16(host) + tail);
      es := [Entry(list[0], b.content)] + es;
    }
  }

  lemma NoEntries(rest: Bytes)
    ensures Skippable([]) && PutEntries([]) + rest == rest
  {
  }

  lemma PrependEntry(e: Entry, es: seq<Entry>, rest: Bytes)
    requires e.kind != 0 && |e.name| < TWO_16 && Skippable(es)
    ensures PutEntries([e] + es) + rest == [e.kind] + (Put16(e.name) + (PutEntries(es) + rest))
  {
    hide Put16;
    assert ([e] + es)[1..] == es;
  }

  lemma {:induction false} ExtensionsOf(exts: Bytes) returns (xs: seq<Extension>, data: Bytes, tail: Bytes)
    requires ServerNameIn(exts).Some?
    ensures Ignorable(xs) && |data| < TWO_16 && SniList(data) == ServerNameIn(exts)
    ensures exts == PutExtensions(xs) + (Be16(0) + Put16(data) + tail)
    decreases |exts|
  {
    hide Put16, Be16, SniList;
    Put16Take16(exts[2..]);
    Be16OfParts(exts[0], exts[1]);
    var b := Take16(exts[2..]);
    var kind := FromBe16(exts[0], exts[1]);
    if kind == 0 {
      xs, data, tail := [], b.content, b.rest;
    } else {
      xs, data, tail := ExtensionsOf(b.rest);
      PrependExtension(Extension(kind, b.content), xs, Be16(0) + Put16(data) + tail);
      xs := [Extension(kind, b.content)] + xs;
    }
    assert exts == [exts[0], exts[1]] + exts[2..];
  }

  lemma PrependExtension(x: Extension, xs: seq<Extension>, rest: Bytes)
    requires x.kind != 0 && |x.data| < TWO_16 && Ignorable(xs)
    ensures PutExtensions([x] + xs) + rest == Be16(x.kind) + (Put16(x.data) + (PutExtensions(xs) + rest))
  {
    hide Put16, Be16;
    assert ([x] + xs)[1..] == xs;
  }

  /** Reads the structure of a ClientHello body back; the parts outside the body are left blank. */
  lemma BodyOf(body: Bytes) returns (h: Hello)
    requires HelloBody(body).Some?
    ensures |h.fixed| == 34 && BodyFits(h) && PutBody(h) == body
    ensures h.listLen <= |PutNames(h)| && ValidUtf8(h.host) && HelloBody(body) == Some(h.host)
  {
    hide Put16, Put8, Be16, ValidUtf8, Take8, Take16, ServerNameIn;
    var b1 := Take8(body[34..]);
    var b2 := Take16(b1.rest);
    var b3 := Take8(b2.rest);
    var b4 := Take16(b3.rest);
    Put8Take8(body[34..]);
    Put16Take16(b1.rest);
    Put8Take8(b2.rest);
    Put16Take16(b3.rest);
    h := ExtsOf(b4.content);
    h := h.(fixed := body[..34], session := b1.content, ciphers := b2.content, compression := b3.content,
            bodyTail := b4.rest);
    assert body == body[..34] + body[34..];
  }

  lemma ExtsOf(exts: Bytes) returns (h: Hello)
    requires ServerNameIn(exts).Some?
    ensures ExtensionsFit(h) && PutExts(h) == exts
    ensures h.listLen <= |PutNames(h)| && ValidUtf8(h.host) && ServerNameIn(exts) == Some(h.host)
  {
    hide Put16, Be16, ValidUtf8;
    var xs, data, extTail := ExtensionsOf(exts);
    var es, host, listTail := EntriesOf(data[2..]);
    Be16OfParts(data[0], data[1]);
    h := Hello([], 0, [], [], [], [], xs, FromBe16(data[0], data[1]), es, host, listTail, extTail, [], []);
    assert data == [data[0], data[1]] + data[2..];
  }

  /** Reads the whole structure back from a stream head that names a host. */
  lemma HelloOf(p: Bytes) returns (h: Hello)
    requires ExtractSni(p).Some?
    ensures Legal(h) && PutHello(h) == p && ExtractSni(p) == Some(h.host)
  {
    hide HelloBody, ValidUtf8, RecordHead, PutBody, PutNames, FromBe16, FromBe24;
    var n := FromBe24(p[6], p[7], p[8]);
    h := BodyOf(p[9..9 + n]);
    var h' := h.(recordVersion := p[1..3], recordLen := FromBe16(p[3], p[4]), tail := p[9 + n..]);
    SameBody(h, h');
    HeadOf(p);
    h := h';
    assert p == p[..9] + (p[9..9 + n] + p[9 + n..]);
  }

  /** The record header and what follows the body do not enter the body. */
  lemma SameBody(h: Hello, h': Hello)
    requires BodyFits(h)
    requires h' == h.(recordVersion := h'.recordVersion, recordLen := h'.recordLen, tail := h'.tail)
    ensures BodyFits(h') && PutBody(h') == PutBody(h) && PutNames(h') == PutNames(h)
  {
    hide Put16, Put8, Be16;
    assert PutSni(h') == PutSni(h);
    assert PutExts(h') == PutExts(h);
  }

  lemma HeadOf(p: Bytes)
    requires |p| >= 9 && p[0] == 0x16 && p[5] == 0x01
    ensures FromBe24(p[6], p[7], p[8]) < 0x100_0000
    ensures p[..9] == RecordHead(p[1..3], FromBe16(p[3], p[4]), FromBe24(p[6], p[7], p[8]))
  {
    hide Be16, Be24;
    Be16OfParts(p[3], p[4]);
    Be24OfParts(p[6], p[7], p[8]);
  }

  /** A stream head names `host` exactly when it is the encoding of a legal hello carrying that host. */
  lemma SniExact(p: Bytes, host: Bytes)
    ensures ExtractSni(p) == Some(host) <==> exists h :: Legal(h) && h.host == host && PutHello(h) == p
  {
    if ExtractSni(p) == Some(host) {
      var h := HelloOf(p);
    }
    forall h | Legal(h) && h.host == host && PutHello(h) == p
      ensures ExtractSni(p) == Some(host)
    {
      LegalHelloNamesItsHost(h);
    }
  }

  lemma TailJoins(h: Hello, more: Bytes)
    requires Legal(h)
    ensures
      var h' := h.(tail := h.tail + more);
      Legal(h') && PutHello(h') == PutHello(h) + more
  {
    hide RecordHead, PutBody, PutNames, PutSni, PutExts, ValidUtf8, Be16;
    var h' := h.(tail := h.tail + more);
    SameBody(h, h');
    var head, body := RecordHead(h.recordVersion, h.recordLen, |PutBody(h)|), PutBody(h);
    assert head + (body + (h.tail + more)) == (head + (body + h.tail)) + more;
  }

  /** More stream after a successful parse changes nothing: the bytes join the tail. */
  lemma SniStable(p: Bytes, more: Bytes)
    requires ExtractSni(p).Some?
    ensures ExtractSni(p + more) == ExtractSni(p)
  {
    hide ExtractSni, Legal, PutHello;
    var h := HelloOf(p);
    TailJoins(h, more);
    LegalHelloNamesItsHost(h.(tail := h.tail + more));
  }
}
