/** Bytes, fixed-width numbers and optional values shared by the packet, TLS and DNS models. */
module Wire {
  type Byte = b: int | 0 <= b < 256
  type Bytes = seq<Byte>

  const TWO_16 := 0x1_0000
  const TWO_32 := 0x1_0000_0000

  type U16 = n: int | 0 <= n < TWO_16
  type U32 = n: int | 0 <= n < TWO_32

  datatype Option<+T> = None | Some(value: T)

  /** `n as u16`, and the low three bytes of a number: larger values are truncated. */
  function Low16(n: nat): (r: U16)
    ensures n < TWO_16 ==> r == n
  {
    n % TWO_16
  }

  function Low24(n: nat): (r: nat)
    ensures r < 0x100_0000 && (n < 0x100_0000 ==> r == n)
  {
    n % 0x100_0000
  }

  function Low32(n: nat): (r: U32)
    ensures n < TWO_32 ==> r == n
  {
    n % TWO_32
  }

  /** 32-bit addition modulo 2^32. */
  function WrapAdd(a: U32, b: U32): (r: U32)
  {
    if a + b < TWO_32 then a + b else a + b - TWO_32
  }

  function FromBe16(hi: Byte, lo: Byte): (n: U16)
  {
    256 * hi + lo
  }

  function Be16(n: U16): (b: Bytes)
    ensures |b| == 2 && FromBe16(b[0], b[1]) == n
  {
    [n / 256, n % 256]
  }

  function FromBe24(a: Byte, b: Byte, c: Byte): (n: nat)
  {
    TWO_16 * a + FromBe16(b, c)
  }

  function Be24(n: nat): (b: Bytes)
    requires n < 0x100_0000
    ensures |b| == 3 && FromBe24(b[0], b[1], b[2]) == n
  {
    [n / TWO_16] + Be16(n % TWO_16)
  }

  function FromBe32(a: Byte, b: Byte, c: Byte, d: Byte): (n: U32)
  {
    TWO_16 * FromBe16(a, b) + FromBe16(c, d)
  }

  function Be32(n: U32): (b: Bytes)
    ensures |b| == 4 && FromBe32(b[0], b[1], b[2], b[3]) == n
  {
    Be16(n / TWO_16) + Be16(n % TWO_16)
  }

  lemma Be16OfParts(hi: Byte, lo: Byte)
    ensures Be16(FromBe16(hi, lo)) == [hi, lo]
  {
  }

  lemma Be24OfParts(a: Byte, b: Byte, c: Byte)
    ensures FromBe24(a, b, c) < 0x100_0000 && Be24(FromBe24(a, b, c)) == [a, b, c]
  {
    hide Be16, FromBe16;
    SplitsAt16(a, FromBe16(b, c));
    Be16OfParts(b, c);
  }

  lemma SplitsAt16(high: nat, low: nat)
    requires low < TWO_16
    ensures (TWO_16 * high + low) / TWO_16 == high && (TWO_16 * high + low) % TWO_16 == low
  {
  }

  predicate Continuation(b: Byte)
  {
    0x80 <= b <= 0xBF
  }

  /** Well-formed UTF-8: the strings a validating byte-to-string conversion accepts. */
  predicate ValidUtf8(s: Bytes)
    decreases |s|
  {
    || |s| == 0
    || (s[0] < 0x80 && ValidUtf8(s[1..]))
    || (|s| >= 2 && 0xC2 <= s[0] <= 0xDF && Continuation(s[1]) && ValidUtf8(s[2..]))
    || (|s| >= 3 && ValidThree(s[0], s[1]) && Continuation(s[2]) && ValidUtf8(s[3..]))
    || (|s| >= 4 && ValidFour(s[0], s[1]) && Continuation(s[2]) && Continuation(s[3]) && ValidUtf8(s[4..]))
  }

  predicate ValidThree(a: Byte, b: Byte)
  {
    || (a == 0xE0 && 0xA0 <= b <= 0xBF)
    || (a == 0xED && 0x80 <= b <= 0x9F)
    || ((0xE1 <= a <= 0xEC || 0xEE <= a <= 0xEF) && Continuation(b))
  }

  predicate ValidFour(a: Byte, b: Byte)
  {
    || (a == 0xF0 && 0x90 <= b <= 0xBF)
    || (0xF1 <= a <= 0xF3 && Continuation(b))
    || (a == 0xF4 && 0x80 <= b <= 0x8F)
  }

  // ---- ASCII text in bytes ----

  const DOT: Byte := 46

  function LowerByte(b: Byte): Byte
  {
    if 65 <= b <= 90 then b + 32 else b
  }

  function Lower(s: Bytes): (r: Bytes)
    ensures |r| == |s| && forall i | 0 <= i < |s| :: r[i] == LowerByte(s[i])
  {
    seq(|s|, i requires 0 <= i < |s| => LowerByte(s[i]))
  }

  /** Without the run of `x` at its end. */
  function TrimLast<T(==)>(s: seq<T>, x: T): (r: seq<T>)
    ensures r <= s && (r == [] || r[|r| - 1] != x)
  {
    if |s| > 0 && s[|s| - 1] == x then TrimLast(s[..|s| - 1], x) else s
  }

  function TrimDots(s: Bytes): Bytes
  {
    TrimLast(s, DOT)
  }
}
