/**
 * The wire format shared by the four programs: 32-bit integers in network byte
 * order (most significant byte first, as `htonl`/`ntohl` produce and consume),
 * the 8-byte operand block, and text messages sent as raw ASCII bytes with no
 * length prefix and no terminator.
 */
module Wire {
  import opened Basics

  // ---------------------------------------------------------------------------
  // Text messages
  // ---------------------------------------------------------------------------

  predicate IsAscii(s: string) {
    forall i | 0 <= i < |s| :: s[i] as int < 0x80
  }

  /** The bytes `send` puts on the wire for an ASCII string (its `strlen` bytes, no NUL). */
  function Ascii(s: string): (r: seq<byte>)
    requires IsAscii(s)
    ensures |r| == |s|
    ensures forall i | 0 <= i < |s| :: r[i] as int == s[i] as int
  {
    seq(|s|, i requires 0 <= i < |s| => s[i] as int as byte)
  }

  /** Banner the stream server sends first on every accepted connection. */
  const GREETING: seq<byte> := Ascii("connessione avvenuta")

  /** The five operation tokens the servers answer a command with. */
  const ADDIZIONE: seq<byte> := Ascii("ADDIZIONE")
  const SOTTRAZIONE: seq<byte> := Ascii("SOTTRAZIONE")
  const MOLTIPLICAZIONE: seq<byte> := Ascii("MOLTIPLICAZIONE")
  const DIVISIONE: seq<byte> := Ascii("DIVISIONE")
  const TERMINE: seq<byte> := Ascii("TERMINE PROCESSO CLIENT")

  /** The four tokens that announce an arithmetic operation. */
  predicate IsArithmeticToken(t: seq<byte>) {
    t == ADDIZIONE || t == SOTTRAZIONE || t == MOLTIPLICAZIONE || t == DIVISIONE
  }

  /**
   * What `strcmp` sees in a receive buffer once a NUL has been stored after the
   * received bytes: the bytes before the first NUL.
   */
  function CString(s: seq<byte>): (r: seq<byte>)
    ensures r <= s
    ensures 0 !in r
    ensures |r| == |s| || s[|r|] == 0
  {
    if s == [] || s[0] == 0 then [] else [s[0]] + CString(s[1..])
  }

  /** A received text without NUL bytes is compared as it is. */
  lemma CStringOfText(s: seq<byte>)
    requires 0 !in s
    ensures CString(s) == s
  {
  }

  lemma TokensHaveNoNul()
    ensures 0 !in ADDIZIONE && 0 !in SOTTRAZIONE && 0 !in MOLTIPLICAZIONE
    ensures 0 !in DIVISIONE && 0 !in TERMINE && 0 !in GREETING
  {
  }

  // ---------------------------------------------------------------------------
  // 32-bit integers in network byte order
  // ---------------------------------------------------------------------------

  /** Reference reading of a byte string as an unsigned number, most significant byte first. */
  function BigEndian(s: seq<byte>): nat
  {
    if s == [] then 0 else BigEndian(s[..|s| - 1]) * 0x100 + s[|s| - 1] as int
  }

  lemma BigEndianOfFour(b: seq<byte>)
    requires |b| == 4
    ensures BigEndian(b) == ((b[0] as int * 0x100 + b[1] as int) * 0x100 + b[2] as int) * 0x100 + b[3] as int
  {
    assert BigEndian(b[..1]) == b[0] as int by { assert b[..1][..0] == []; }
    assert BigEndian(b[..2]) == BigEndian(b[..1]) * 0x100 + b[1] as int by { assert b[..2][..1] == b[..1]; }
    assert BigEndian(b[..3]) == BigEndian(b[..2]) * 0x100 + b[2] as int by { assert b[..3][..2] == b[..2]; }
    assert BigEndian(b) == BigEndian(b[..3]) * 0x100 + b[3] as int;
  }

  /** The two's-complement bit pattern of `n`, as an unsigned number. */
  function Unsigned(n: int32): (u: nat)
    ensures u < TWO32
    ensures n >= 0 ==> u == n as int
    ensures n < 0 ==> u == n as int + TWO32
  {
    if n < 0 then n as int + TWO32 else n as int
  }

  /** The `int32` whose bit pattern is `u`. */
  function Signed(u: nat): (n: int32)
    requires u < TWO32
    ensures Unsigned(n) == u
  {
    if u < 0x8000_0000 then u as int32 else (u - TWO32) as int32
  }

  lemma UnsignedInjective(m: int32, n: int32)
    requires Unsigned(m) == Unsigned(n)
    ensures m == n
  {
  }

  /** `htonl`: the four bytes of `n`, most significant first. */
  function EncodeInt32(n: int32): (r: seq<byte>)
    ensures |r| == 4
    ensures BigEndian(r) == Unsigned(n)
  {
    var u := Unsigned(n);
    var q1 := u / 0x100;
    var q2 := q1 / 0x100;
    var q3 := q2 / 0x100;
    var r := [q3 as byte, (q2 % 0x100) as byte, (q1 % 0x100) as byte, (u % 0x100) as byte];
    BigEndianOfFour(r);
    r
  }

  /** `ntohl`: the `int32` that four bytes in network order stand for. */
  function DecodeInt32(b: seq<byte>): (n: int32)
    requires |b| == 4
    ensures Unsigned(n) == BigEndian(b)
  {
    BigEndianOfFour(b);
    Signed(((b[0] as int * 0x100 + b[1] as int) * 0x100 + b[2] as int) * 0x100 + b[3] as int)
  }

  /** Two byte strings of one length with the same big-endian value are equal. */
  lemma {:induction false} BigEndianInjective(a: seq<byte>, b: seq<byte>)
    requires |a| == |b|
    requires BigEndian(a) == BigEndian(b)
    ensures a == b
  {
    if a != [] {
      var n := |a| - 1;
      assert BigEndian(a[..n]) * 0x100 + a[n] as int == BigEndian(b[..n]) * 0x100 + b[n] as int;
      assert a[n] == b[n];
      BigEndianInjective(a[..n], b[..n]);
      assert a == a[..n] + [a[n]] && b == b[..n] + [b[n]];
    }
  }

  /** The receiver recovers every integer the sender encodes. */
  lemma DecodeEncode(n: int32)
    ensures DecodeInt32(EncodeInt32(n)) == n
  {
    UnsignedInjective(DecodeInt32(EncodeInt32(n)), n);
  }

  /** Every 4-byte block is the encoding of exactly the integer it decodes to. */
  lemma EncodeDecode(b: seq<byte>)
    requires |b| == 4
    ensures EncodeInt32(DecodeInt32(b)) == b
  {
    BigEndianInjective(EncodeInt32(DecodeInt32(b)), b);
  }

  // ---------------------------------------------------------------------------
  // The operand block
  // ---------------------------------------------------------------------------

  /** `numeri_net`: both operands in one 8-byte message, first operand first. */
  function EncodePair(n1: int32, n2: int32): (r: seq<byte>)
    ensures |r| == 8
    ensures DecodeInt32(r[..4]) == n1 && DecodeInt32(r[4..]) == n2
  {
    DecodeEncode(n1);
    DecodeEncode(n2);
    var r := EncodeInt32(n1) + EncodeInt32(n2);
    assert r[..4] == EncodeInt32(n1) && r[4..] == EncodeInt32(n2);
    r
  }

  /** `ntohl(numeri_net[0])`, `ntohl(numeri_net[1])`. */
  function DecodePair(b: seq<byte>): (r: (int32, int32))
    requires |b| == 8
    ensures EncodeInt32(r.0) == b[..4] && EncodeInt32(r.1) == b[4..]
  {
    EncodeDecode(b[..4]);
    EncodeDecode(b[4..]);
    (DecodeInt32(b[..4]), DecodeInt32(b[4..]))
  }

  /** The server reads back exactly the client's operands, in order. */
  lemma PairRoundTrip(n1: int32, n2: int32)
    ensures DecodePair(EncodePair(n1, n2)) == (n1, n2)
  {
  }

  /** Every 8-byte block is the encoding of the pair it decodes to. */
  lemma PairDecodeEncode(b: seq<byte>)
    requires |b| == 8
    ensures EncodePair(DecodePair(b).0, DecodePair(b).1) == b
  {
    EncodeDecode(b[..4]);
    EncodeDecode(b[4..]);
    assert b == b[..4] + b[4..];
  }
}
