/** Bytes, options and the little-endian encodings shared by every component. */
module Bytes {

  type byte = bv8

  datatype Option<+T> = None | Some(value: T)

  type u8 = n: nat | n < 256
  type u16 = n: nat | n < 0x1_0000
  type u32 = n: nat | n < 0x1_0000_0000

  /** Byte value of a number below 256, and back. */
  function ToByte(n: nat): byte
    requires n < 256
  {
    n as bv8
  }

  function ByteValue(b: byte): (n: nat)
    ensures n < 256
  {
    b as int
  }

  lemma ByteSuccessor(b: byte)
    requires b != 0xff
    ensures (b + 1) as int == b as int + 1
  {
  }

  /** Every number below 256 is the value of some byte, found by counting up to it. */
  lemma {:induction false} ByteWithValue(n: nat) returns (b: byte)
    requires n < 256
    ensures b as int == n && (n < 255 ==> b != 0xff)
  {
    b := 0;
    if n > 0 {
      var c := ByteWithValue(n - 1);
      ByteSuccessor(c);
      b := c + 1;
    }
  }

  lemma ByteUnique(b: byte, n: nat)
    requires ByteValue(b) == n
    ensures n < 256 && ToByte(n) == b
  {
    assert (b as int) as bv8 == b;
  }

  lemma ByteRoundTrip(n: nat)
    requires n < 256
    ensures ByteValue(ToByte(n)) == n
  {
    var b := ByteWithValue(n);
    ByteUnique(b, n);
    hide ToByte, ByteValue;
  }

  /** Unsigned numbers travel as four little-endian bytes. */
  function U32Bytes(n: u32): (r: seq<byte>)
    ensures |r| == 4
  {
    [ToByte(n % 256), ToByte(n / 256 % 256), ToByte(n / 65536 % 256), ToByte(n / 16777216)]
  }

  function U32Of(s: seq<byte>): u32
    requires |s| == 4
  {
    ByteValue(s[0]) + 256 * ByteValue(s[1]) + 65536 * ByteValue(s[2]) + 16777216 * ByteValue(s[3])
  }

  lemma U32Digits(n: u32)
    ensures n % 256 + 256 * (n / 256 % 256) + 65536 * (n / 65536 % 256) + 16777216 * (n / 16777216) == n
  {
  }

  lemma U32RoundTrip(n: u32)
    ensures U32Of(U32Bytes(n)) == n
  {
    hide ToByte, ByteValue;
    ByteRoundTrip(n % 256);
    ByteRoundTrip(n / 256 % 256);
    ByteRoundTrip(n / 65536 % 256);
    ByteRoundTrip(n / 16777216);
    U32Digits(n);
  }

  lemma U32Unique(s: seq<byte>)
    requires |s| == 4
    ensures U32Bytes(U32Of(s)) == s
  {
    hide ToByte, ByteValue;
    FourDigits(ByteValue(s[0]), ByteValue(s[1]), ByteValue(s[2]), ByteValue(s[3]));
    ByteUnique(s[0], ByteValue(s[0]));
    ByteUnique(s[1], ByteValue(s[1]));
    ByteUnique(s[2], ByteValue(s[2]));
    ByteUnique(s[3], ByteValue(s[3]));
  }

  lemma FourDigits(a: u8, b: u8, c: u8, d: u8)
    ensures var n := a + 256 * b + 65536 * c + 16777216 * d;
      n % 256 == a && n / 256 % 256 == b && n / 65536 % 256 == c && n / 16777216 == d
  {
    var n := a + 256 * b + 65536 * c + 16777216 * d;
    assert n == a + 256 * (b + 256 * c + 65536 * d);
    assert n / 256 == b + 256 * (c + 256 * d);
    assert n == a + 256 * b + 65536 * (c + 256 * d);
    assert n / 65536 == c + 256 * d;
    assert n == a + 256 * b + 65536 * c + 16777216 * d && a + 256 * b + 65536 * c < 16777216;
  }

  /** Message fields travel with the high byte first. */
  function High(n: u16): byte { ToByte(n / 256) }
  function Low(n: u16): byte { ToByte(n % 256) }

  function U16Of(hi: byte, lo: byte): u16 { 256 * ByteValue(hi) + ByteValue(lo) }

  lemma U16RoundTrip(n: u16)
    ensures U16Of(High(n), Low(n)) == n
  {
    hide ToByte, ByteValue;
    ByteRoundTrip(n / 256);
    ByteRoundTrip(n % 256);
  }

  lemma U16Unique(hi: byte, lo: byte)
    ensures High(U16Of(hi, lo)) == hi && Low(U16Of(hi, lo)) == lo
  {
    hide ToByte, ByteValue;
    ByteUnique(hi, ByteValue(hi));
    ByteUnique(lo, ByteValue(lo));
  }

  function BigEndian(n: u32): (r: seq<byte>)
    ensures |r| == 4
  {
    var s := U32Bytes(n);
    [s[3], s[2], s[1], s[0]]
  }

  function FromBigEndian(s: seq<byte>): u32
    requires |s| == 4
  {
    U32Of([s[3], s[2], s[1], s[0]])
  }

  lemma BigEndianRoundTrip(n: u32)
    ensures FromBigEndian(BigEndian(n)) == n
  {
    U32RoundTrip(n);
    var s := U32Bytes(n);
    assert s == [s[0], s[1], s[2], s[3]];
  }

  /** Machine words in little-endian order. */
  function Word16Bytes(x: bv16): (r: seq<byte>)
    ensures |r| == 2
  {
    [(x & 0xff) as bv8, (x >> 8) as bv8]
  }

  function Word16(s: seq<byte>): bv16
    requires |s| == 2
  {
    (s[0] as bv16) | ((s[1] as bv16) << 8)
  }

  lemma Word16RoundTrip(x: bv16)
    ensures Word16(Word16Bytes(x)) == x
  {
  }

  function Word32Bytes(x: bv32): (r: seq<byte>)
    ensures |r| == 4
  {
    [(x & 0xff) as bv8, ((x >> 8) & 0xff) as bv8, ((x >> 16) & 0xff) as bv8, (x >> 24) as bv8]
  }

  function Word32(s: seq<byte>): bv32
    requires |s| == 4
  {
    (s[0] as bv32) | ((s[1] as bv32) << 8) | ((s[2] as bv32) << 16) | ((s[3] as bv32) << 24)
  }

  lemma Word32RoundTrip(x: bv32)
    ensures Word32(Word32Bytes(x)) == x
  {
  }
}
