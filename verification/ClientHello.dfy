/**
 The probe's ClientHello builder. Every length is computed first and cast to its field's width, so a
 host name that is too long yields a record whose lengths are wrong; `ProbeRoundTrip` says exactly when.
 */
module ClientHello {
  import opened Wire
  import opened TlsSni

  const SUPPORTED_VERSIONS: Bytes := [0x00, 0x2b, 0x00, 0x05, 0x04, 0x03, 0x04]
  const CIPHERS: Bytes := [0x13, 0x01, 0x13, 0x02, 0xc0, 0x2f, 0xc0, 0x30, 0xff, 0x01]
  const MAX_HOST := 65464

  function ProbeRandom(): (r: Bytes)
    ensures |r| == 32
  {
    seq(32, i => (i * 7 + 0x42) % 256)
  }

  /** The server_name extension, its three lengths cast to 16 bits. */
  function SniExtension(sni: Bytes): (x: Bytes)
    ensures |x| == 9 + |sni|
  {
    Be16(0) + Be16(Low16(5 + |sni|)) + Be16(Low16(3 + |sni|)) + [0] + Be16(Low16(|sni|)) + sni
  }

  function ProbeBody(sni: Bytes): (b: Bytes)
    ensures |b| == 67 + |sni|
  {
    [0x03, 0x03] + ProbeRandom() + [0x00] + ([0x00, 0x0a] + CIPHERS) + [0x01, 0x00]
    + Be16(Low16(16 + |sni|)) + SniExtension(sni) + SUPPORTED_VERSIONS
  }

  function ProbeBytes(sni: Bytes): (p: Bytes)
    ensures |p| == 76 + |sni|
  {
    RecordHead([0x03, 0x01], Low16(71 + |sni|), Low24(67 + |sni|)) + ProbeBody(sni)
  }

  method AppendServerName(out: Bytes, sni: Bytes, dataLen: nat, listLen: nat) returns (r: Bytes)
    requires dataLen == 5 + |sni| && listLen == 3 + |sni|
    ensures r == out + SniExtension(sni)
  {
    hide Low16, Be16;
    r := out + Be16(0);
    r := r + Be16(Low16(dataLen));
    r := r + Be16(Low16(listLen));
    r := r + [0x00];
    r := r + Be16(Low16(|sni|));
    r := r + sni;
  }

  method BuildClientHello(sni: Bytes) returns (out: Bytes)
    ensures out == ProbeBytes(sni)
  {
    hide Low16, Low24, Be16, Be24, ProbeRandom, SniExtension;
    var listContentLen := 3 + |sni|;
    var sniExtDataLen := 2 + listContentLen;
    var sniExtWire := 4 + sniExtDataLen;
    var extensionsLen := sniExtWire + |SUPPORTED_VERSIONS|;
    var bodyLen := 2 + 32 + 1 + 12 + 2 + 2 + extensionsLen;
    var recordLen := 4 + bodyLen;

    out := [0x16];
    out := out + [0x03, 0x01];
    out := out + Be16(Low16(recordLen));
    out := out + [0x01];
    out := out + Be24(Low24(bodyLen));
    assert out == RecordHead([0x03, 0x01], Low16(recordLen), Low24(bodyLen));
    ghost var head := out;

    out := out + [0x03, 0x03];
    out := out + ProbeRandom();
    out := out + [0x00];
    out := out + ([0x00, 0x0a] + CIPHERS);
    out := out + [0x01, 0x00];
    out := out + Be16(Low16(extensionsLen));
    out := AppendServerName(out, sni, sniExtDataLen, listContentLen);
    out := out + SUPPORTED_VERSIONS;
    assert out == head + ProbeBody(sni);
  }

  /** The structure the probe intends: one empty session, five ciphers, the host, then a tail. */
  function ProbeHello(sni: Bytes): Hello
    requires |sni| <= MAX_HOST
  {
    Hello([0x03, 0x01], 71 + |sni|, [0x03, 0x03] + ProbeRandom(), [], CIPHERS, [0x00],
          [], 3 + |sni|, [], sni, [], SUPPORTED_VERSIONS, [], [])
  }

  lemma ProbeExtensions(sni: Bytes)
    requires |sni| <= MAX_HOST
    ensures
      var h := ProbeHello(sni);
      && ExtensionsFit(h) && |PutNames(h)| == 3 + |sni|
      && PutExts(h) == SniExtension(sni) + SUPPORTED_VERSIONS
  {
    hide Low16, Low24, Be16, ProbeRandom, ValidUtf8;
    var h := ProbeHello(sni);
    var n := |sni|;
    assert PutNames(h) == [0] + Put16(sni);
    assert PutSni(h) == Be16(3 + n) + ([0] + (Be16(n) + sni));
    assert PutExtensions(h.before) == [];
    assert PutExts(h) == Be16(0) + (Be16(5 + n) + PutSni(h)) + SUPPORTED_VERSIONS;
  }

  lemma ProbeBodyIsPut(sni: Bytes)
    requires |sni| <= MAX_HOST
    ensures BodyFits(ProbeHello(sni)) && PutBody(ProbeHello(sni)) == ProbeBody(sni)
  {
    hide Low16, Low24, Be16, ProbeRandom, SniExtension, PutExts, ExtensionsFit;
    ProbeExtensions(sni);
    CiphersBlock();
    var exts := SniExtension(sni) + SUPPORTED_VERSIONS;
    assert Put16(exts) == Be16(16 + |sni|) + exts;
  }

  lemma ProbeIsLegal(sni: Bytes)
    requires |sni| <= MAX_HOST && ValidUtf8(sni)
    ensures Legal(ProbeHello(sni)) && PutHello(ProbeHello(sni)) == ProbeBytes(sni)
  {
    hide *;
    ProbeFits(sni);
    ProbeBodyIsPut(sni);
    ProbeJoins(sni);
  }

  lemma ProbeFits(sni: Bytes)
    requires |sni| <= MAX_HOST && ValidUtf8(sni)
    ensures Legal(ProbeHello(sni))
  {
    hide ExtensionsFit, Be16, Be24, PutBody, PutExts, PutSni, PutNames, ProbeBody, ProbeRandom, ValidUtf8;
    ProbeExtensions(sni);
    ProbeBodyIsPut(sni);
  }

  lemma ProbeJoins(sni: Bytes)
    requires |sni| <= MAX_HOST && Legal(ProbeHello(sni)) && PutBody(ProbeHello(sni)) == ProbeBody(sni)
    ensures PutHello(ProbeHello(sni)) == ProbeBytes(sni)
  {
    hide PutBody, ProbeBody, Legal, RecordHead, ProbeRandom;
    assert ProbeBody(sni) + [] == ProbeBody(sni);
  }

  lemma CiphersBlock()
    ensures Put16(CIPHERS) == [0x00, 0x0a] + CIPHERS
  {
  }

  /** Record, handshake and extensions-block length each count exactly the bytes that follow. */
  predicate LengthsCount(p: Bytes)
  {
    && |p| >= 60
    && FromBe16(p[3], p[4]) == |p| - 5
    && FromBe24(p[6], p[7], p[8]) == |p| - 9
    && FromBe16(p[58], p[59]) == |p| - 60
  }

  lemma ProbeLengths(sni: Bytes)
    requires |sni| <= MAX_HOST
    ensures LengthsCount(ProbeBytes(sni))
  {
    hide Low16, Low24, Be16, Be24, ProbeRandom, RecordHead, SniExtension;
    var body := ProbeBody(sni);
    HeadReads([0x03, 0x01], 71 + |sni|, 67 + |sni|, body);
    assert ProbeBytes(sni)[9..] == body;
    assert body[49..51] == Be16(16 + |sni|);
  }

  /** The extractor returns the probed host exactly for hosts of at most 65464 bytes. */
  lemma ProbeRoundTrip(sni: Bytes)
    requires ValidUtf8(sni)
    ensures ExtractSni(ProbeBytes(sni)) == Some(sni) <==> |sni| <= MAX_HOST
  {
    hide ExtractSni, ProbeBytes, Legal, PutHello;
    if |sni| <= MAX_HOST {
      ProbeIsLegal(sni);
      LegalHelloNamesItsHost(ProbeHello(sni));
    } else if |sni| < TWO_16 {
      LongHostIsLost(sni);
    } else if ExtractSni(ProbeBytes(sni)) == Some(sni) {
      var h := HelloOf(ProbeBytes(sni));
      HostFits(h);
    }
  }

  lemma HostFits(h: Hello)
    requires Legal(h)
    ensures |h.host| < TWO_16
  {
  }

  lemma LongHostIsLost(sni: Bytes)
    requires MAX_HOST < |sni| < TWO_16
    ensures ExtractSni(ProbeBytes(sni)) == None
  {
    hide Low24, RecordHead, ProbeBody, HelloBody;
    HeadReads([0x03, 0x01], Low16(71 + |sni|), Low24(67 + |sni|), ProbeBody(sni));
  }
}
