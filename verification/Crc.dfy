/** The two reflected CRC families of the repository, bit by bit, and what they detect. */
module Crc16 {
  import opened Bytes

  function Xor(a: bv16, b: bv16): bv16 { a ^ b }

  /** One shift of the register with generator g, and the eight shifts of a byte. */
  function Shift1(g: bv16, x: bv16): bv16
  {
    if x & 1 == 1 then (x >> 1) ^ g else x >> 1
  }

  function Shift2(g: bv16, x: bv16): bv16 { Shift1(g, Shift1(g, x)) }
  function Shift4(g: bv16, x: bv16): bv16 { Shift2(g, Shift2(g, x)) }
  function Shift8(g: bv16, x: bv16): bv16 { Shift4(g, Shift4(g, x)) }

  function Step(g: bv16, crc: bv16, b: byte): bv16
  {
    Shift8(g, Xor(crc, b as bv16))
  }

  /** Register after feeding data to it. */
  function Fold(g: bv16, crc: bv16, data: seq<byte>): bv16
  {
    if data == [] then crc else Step(g, Fold(g, crc, data[..|data| - 1]), data[|data| - 1])
  }

  /** A block is sealed when its last two bytes are the CRC of the others. */
  predicate Sealed(g: bv16, s: seq<byte>)
  {
    |s| >= 2 && s[|s| - 2..] == Word16Bytes(Fold(g, 0xFFFF, s[..|s| - 2]))
  }

  // ----- the shift is linear and, when g keeps its top bit, invertible -----

  lemma MaskedShift(g: bv16, x: bv16)
    ensures Shift1(g, x) == (x >> 1) ^ ((0 - (x & 1)) & g)
  {
  }

  lemma Linear1(g: bv16, x: bv16, y: bv16)
    ensures Shift1(g, Xor(x, y)) == Xor(Shift1(g, x), Shift1(g, y))
  {
    MaskedShift(g, x);
    MaskedShift(g, y);
    MaskedShift(g, x ^ y);
  }

  lemma Linear2(g: bv16, x: bv16, y: bv16)
    ensures Shift2(g, Xor(x, y)) == Xor(Shift2(g, x), Shift2(g, y))
  {
    hide Xor, Shift1;
    Linear1(g, x, y);
    Linear1(g, Shift1(g, x), Shift1(g, y));
  }

  lemma Linear4(g: bv16, x: bv16, y: bv16)
    ensures Shift4(g, Xor(x, y)) == Xor(Shift4(g, x), Shift4(g, y))
  {
    hide Xor, Shift2;
    Linear2(g, x, y);
    Linear2(g, Shift2(g, x), Shift2(g, y));
  }

  lemma Linear8(g: bv16, x: bv16, y: bv16)
    ensures Shift8(g, Xor(x, y)) == Xor(Shift8(g, x), Shift8(g, y))
  {
    hide Xor, Shift4;
    Linear4(g, x, y);
    Linear4(g, Shift4(g, x), Shift4(g, y));
  }

  lemma LowByteFree(g: bv16, x: bv16)
    requires x & 0xff == 0
    ensures Shift8(g, x) == x >> 8
  {
  }

  lemma Halves(x: bv16)
    ensures Xor(x & 0xff, x & 0xff00) == x && (x & 0xff00) & 0xff == 0 && (x & 0xff00) >> 8 == x >> 8
  {
  }

  /** The identity behind every table-driven CRC: only the low byte needs a lookup. */
  lemma ByteAtOnce(g: bv16, x: bv16)
    ensures Shift8(g, x) == Xor(Shift8(g, x & 0xff), x >> 8)
  {
    Halves(x);
    LowByteFree(g, x & 0xff00);
    Linear8(g, x & 0xff, x & 0xff00);
    hide Xor, Shift8;
  }

  lemma Invertible1(g: bv16, x: bv16, y: bv16)
    requires g & 0x8000 != 0 && x != y
    ensures Shift1(g, x) != Shift1(g, y)
  {
  }

  lemma Invertible8(g: bv16, x: bv16, y: bv16)
    requires g & 0x8000 != 0 && x != y
    ensures Shift8(g, x) != Shift8(g, y)
  {
    hide Shift1;
    Invertible2(g, x, y);
    Invertible2(g, Shift2(g, x), Shift2(g, y));
    Invertible2(g, Shift4(g, x), Shift4(g, y));
    Invertible2(g, Shift2(g, Shift4(g, x)), Shift2(g, Shift4(g, y)));
  }

  lemma Invertible2(g: bv16, x: bv16, y: bv16)
    requires g & 0x8000 != 0 && x != y
    ensures Shift2(g, x) != Shift2(g, y)
  {
    hide Shift1;
    Invertible1(g, x, y);
    Invertible1(g, Shift1(g, x), Shift1(g, y));
  }

  /** A nonzero byte always reaches the upper half of the register. */
  lemma ReachesHigh(g: bv16, d: bv16)
    requires g & 0x8000 != 0 && 0 < d < 256
    ensures Shift8(g, d) & 0xff00 != 0
  {
  }

  // ----- what a fold detects -----

  /** Different registers stay different under the same data. */
  lemma {:induction false} FoldInjective(g: bv16, c: bv16, d: bv16, data: seq<byte>)
    requires g & 0x8000 != 0 && c != d
    ensures Fold(g, c, data) != Fold(g, d, data)
    decreases |data|
  {
    if data != [] {
      FoldInjective(g, c, d, data[..|data| - 1]);
      StepInjective(g, Fold(g, c, data[..|data| - 1]), Fold(g, d, data[..|data| - 1]), data[|data| - 1]);
    }
  }

  lemma StepInjective(g: bv16, c: bv16, d: bv16, b: byte)
    requires g & 0x8000 != 0 && c != d
    ensures Step(g, c, b) != Step(g, d, b)
  {
    XorOtherWord(c, d, b);
    hide Shift8, Xor;
    Invertible8(g, Xor(c, b as bv16), Xor(d, b as bv16));
  }

  lemma XorOtherByte(c: bv16, a: byte, b: byte)
    requires a != b
    ensures Xor(c, a as bv16) != Xor(c, b as bv16)
  {
  }

  lemma XorOtherWord(c: bv16, d: bv16, a: byte)
    requires c != d
    ensures Xor(c, a as bv16) != Xor(d, a as bv16)
  {
  }

  lemma XorOtherHalf(c: bv16, d: bv16, a: byte, b: byte)
    requires (c ^ d) & 0xff00 != 0
    ensures Xor(c, a as bv16) != Xor(d, b as bv16)
  {
    assert (c ^ (a as bv16)) & 0xff00 == c & 0xff00;
    assert (d ^ (b as bv16)) & 0xff00 == d & 0xff00;
    assert (c ^ d) & 0xff00 == (c & 0xff00) ^ (d & 0xff00);
  }

  lemma {:induction false} FoldAppend(g: bv16, c: bv16, a: seq<byte>, b: seq<byte>)
    ensures Fold(g, c, a + b) == Fold(g, Fold(g, c, a), b)
    decreases |b|
  {
    if b == [] {
      assert a + b == a;
    } else {
      assert (a + b)[..|a + b| - 1] == a + b[..|b| - 1];
      FoldAppend(g, c, a, b[..|b| - 1]);
      hide Step;
    }
  }

  /** After different bytes the upper halves of the register differ. */
  lemma StepSeparates(g: bv16, c: bv16, a: byte, b: byte)
    requires g & 0x8000 != 0 && a != b
    ensures (Step(g, c, a) ^ Step(g, c, b)) & 0xff00 != 0
  {
    var x, y := Xor(c, a as bv16), Xor(c, b as bv16);
    var d := Xor(a as bv16, b as bv16);
    assert Xor(x, y) == d && 0 < d < 256;
    hide Shift8;
    Linear8(g, x, y);
    ReachesHigh(g, d);
  }

  /** Any change confined to two adjacent bytes changes the register. */
  lemma PairDetected(g: bv16, c: bv16, a: byte, a': byte, b: byte, b': byte)
    requires g & 0x8000 != 0 && (a != b || a' != b')
    ensures Step(g, Step(g, c, a), a') != Step(g, Step(g, c, b), b')
  {
    var p, q := Step(g, c, a), Step(g, c, b);
    assert a != b ==> (p ^ q) & 0xff00 != 0 by {
      if a != b {
        StepSeparates(g, c, a, b);
      }
    }
    SecondByte(g, p, q, a', b');
  }

  lemma SecondByte(g: bv16, p: bv16, q: bv16, a: byte, b: byte)
    requires g & 0x8000 != 0 && ((p ^ q) & 0xff00 != 0 || (p == q && a != b))
    ensures Step(g, p, a) != Step(g, q, b)
  {
    if p == q {
      XorOtherByte(p, a, b);
    } else {
      XorOtherHalf(p, q, a, b);
    }
    hide Shift8, Xor;
    Invertible8(g, Xor(p, a as bv16), Xor(q, b as bv16));
  }

  /** Two blocks that agree outside the adjacent positions i and i + 1. */
  predicate AgreeOutside(s: seq<byte>, t: seq<byte>, i: nat)
  {
    |s| == |t| && forall j :: 0 <= j < |s| && j != i && j != i + 1 ==> s[j] == t[j]
  }

  /** Blocks of equal length that differ, but only in two adjacent bytes, have different CRCs. */
  lemma BurstDetected(g: bv16, c: bv16, s: seq<byte>, t: seq<byte>, i: nat)
    requires g & 0x8000 != 0
    requires AgreeOutside(s, t, i) && s != t
    ensures Fold(g, c, s) != Fold(g, c, t)
  {
    if i + 1 < |s| {
      PairInside(g, c, s, t, i);
      var n := i + 2;
      Joined(g, c, s, n);
      Joined(g, c, t, n);
      FoldInjective(g, Fold(g, c, s[..n]), Fold(g, c, t[..n]), s[n..]);
    } else {
      LastByte(g, c, s, t, i);
    }
  }

  lemma PairInside(g: bv16, c: bv16, s: seq<byte>, t: seq<byte>, i: nat)
    requires g & 0x8000 != 0
    requires AgreeOutside(s, t, i) && s != t && i + 1 < |s|
    ensures Fold(g, c, s[..i + 2]) != Fold(g, c, t[..i + 2]) && s[i + 2..] == t[i + 2..]
  {
    hide Fold, Step;
    var n := i + 2;
    assert s[..n] == s[..i] + [s[i], s[i + 1]] && t[..n] == s[..i] + [t[i], t[i + 1]];
    FoldPair(g, c, s[..i], s[i], s[i + 1]);
    FoldPair(g, c, s[..i], t[i], t[i + 1]);
    assert s[n..] == t[n..];
    assert s[i] != t[i] || s[i + 1] != t[i + 1] by {
      assert s == s[..i] + [s[i], s[i + 1]] + s[n..];
      assert t == s[..i] + [t[i], t[i + 1]] + s[n..];
    }
    PairDetected(g, Fold(g, c, s[..i]), s[i], s[i + 1], t[i], t[i + 1]);
  }

  /** The last byte alone already separates the upper halves. */
  lemma LastByte(g: bv16, c: bv16, s: seq<byte>, t: seq<byte>, i: nat)
    requires g & 0x8000 != 0
    requires AgreeOutside(s, t, i) && s != t && |s| <= i + 1
    ensures (Fold(g, c, s) ^ Fold(g, c, t)) & 0xff00 != 0 && Fold(g, c, s) != Fold(g, c, t)
  {
    hide Step;
    assert i + 1 == |s| && s[..i] == t[..i];
    StepSeparates(g, Fold(g, c, s[..i]), s[i], t[i]);
  }

  lemma Joined(g: bv16, c: bv16, s: seq<byte>, n: nat)
    requires n <= |s|
    ensures Fold(g, c, s) == Fold(g, Fold(g, c, s[..n]), s[n..])
  {
    assert s == s[..n] + s[n..];
    FoldAppend(g, c, s[..n], s[n..]);
  }

  lemma FoldPair(g: bv16, c: bv16, s: seq<byte>, a: byte, b: byte)
    ensures Fold(g, c, s + [a, b]) == Step(g, Step(g, Fold(g, c, s), a), b)
  {
    hide Step;
    assert (s + [a, b])[..|s| + 1] == s + [a];
    assert (s + [a])[..|s|] == s;
  }

  /** Damage confined to two adjacent bytes, CRC bytes included, never leaves a sealed block sealed. */
  lemma SealBroken(g: bv16, s: seq<byte>, t: seq<byte>, i: nat)
    requires g & 0x8000 != 0
    requires Sealed(g, s) && AgreeOutside(s, t, i) && s != t
    ensures !Sealed(g, t)
  {
    hide Fold, Word16Bytes;
    var n := |s| - 2;
    var x, y := Fold(g, 0xFFFF, s[..n]), Fold(g, 0xFFFF, t[..n]);
    assert s[n..] == [s[n], s[n + 1]] && t[n..] == [t[n], t[n + 1]];
    if s[..n] == t[..n] {
      assert s == s[..n] + s[n..] && t == t[..n] + t[n..];
    } else {
      BurstDetected(g, 0xFFFF, s[..n], t[..n], i);
      if i + 1 < n {
        assert s[n..] == t[n..];
        WordBytesDiffer(x, y);
      } else {
        LastByte(g, 0xFFFF, s[..n], t[..n], i);
        WordBytesDiffer(x, y);
        assert s[n + 1] == t[n + 1];
      }
    }
  }

  lemma WordBytesDiffer(x: bv16, y: bv16)
    ensures x != y ==> Word16Bytes(x) != Word16Bytes(y)
    ensures (x ^ y) & 0xff00 != 0 ==> Word16Bytes(x)[1] != Word16Bytes(y)[1]
  {
    Word16RoundTrip(x);
    Word16RoundTrip(y);
  }
}

module Crc32 {
  import opened Bytes

  function Xor(a: bv32, b: bv32): bv32 { a ^ b }

  /** One shift of the register with generator g, and the eight shifts of a byte. */
  function Shift1(g: bv32, x: bv32): bv32
  {
    if x & 1 == 1 then (x >> 1) ^ g else x >> 1
  }

  function Shift2(g: bv32, x: bv32): bv32 { Shift1(g, Shift1(g, x)) }
  function Shift4(g: bv32, x: bv32): bv32 { Shift2(g, Shift2(g, x)) }
  function Shift8(g: bv32, x: bv32): bv32 { Shift4(g, Shift4(g, x)) }

  function Step(g: bv32, crc: bv32, b: byte): bv32
  {
    Shift8(g, Xor(crc, b as bv32))
  }

  /** Register after feeding data to it. */
  function Fold(g: bv32, crc: bv32, data: seq<byte>): bv32
  {
    if data == [] then crc else Step(g, Fold(g, crc, data[..|data| - 1]), data[|data| - 1])
  }

  // ----- the shift is linear -----

  lemma MaskedShift(g: bv32, x: bv32)
    ensures Shift1(g, x) == (x >> 1) ^ ((0 - (x & 1)) & g)
  {
  }

  lemma Linear1(g: bv32, x: bv32, y: bv32)
    ensures Shift1(g, Xor(x, y)) == Xor(Shift1(g, x), Shift1(g, y))
  {
    MaskedShift(g, x);
    MaskedShift(g, y);
    MaskedShift(g, x ^ y);
  }

  lemma Linear2(g: bv32, x: bv32, y: bv32)
    ensures Shift2(g, Xor(x, y)) == Xor(Shift2(g, x), Shift2(g, y))
  {
    hide Xor, Shift1;
    Linear1(g, x, y);
    Linear1(g, Shift1(g, x), Shift1(g, y));
  }

  lemma Linear4(g: bv32, x: bv32, y: bv32)
    ensures Shift4(g, Xor(x, y)) == Xor(Shift4(g, x), Shift4(g, y))
  {
    hide Xor, Shift2;
    Linear2(g, x, y);
    Linear2(g, Shift2(g, x), Shift2(g, y));
  }

  lemma Linear8(g: bv32, x: bv32, y: bv32)
    ensures Shift8(g, Xor(x, y)) == Xor(Shift8(g, x), Shift8(g, y))
  {
    hide Xor, Shift4;
    Linear4(g, x, y);
    Linear4(g, Shift4(g, x), Shift4(g, y));
  }

  lemma LowByteFree(g: bv32, x: bv32)
    requires x & 0xff == 0
    ensures Shift8(g, x) == x >> 8
  {
  }

  lemma Halves(x: bv32)
    ensures Xor(x & 0xff, x & 0xffffff00) == x && (x & 0xffffff00) & 0xff == 0 && (x & 0xffffff00) >> 8 == x >> 8
  {
  }

  /** The identity behind every table-driven CRC: only the low byte needs a lookup. */
  lemma ByteAtOnce(g: bv32, x: bv32)
    ensures Shift8(g, x) == Xor(Shift8(g, x & 0xff), x >> 8)
  {
    Halves(x);
    LowByteFree(g, x & 0xffffff00);
    Linear8(g, x & 0xff, x & 0xffffff00);
    hide Xor, Shift8;
  }

  lemma {:induction false} FoldAppend(g: bv32, c: bv32, a: seq<byte>, b: seq<byte>)
    ensures Fold(g, c, a + b) == Fold(g, Fold(g, c, a), b)
    decreases |b|
  {
    if b == [] {
      assert a + b == a;
    } else {
      assert (a + b)[..|a + b| - 1] == a + b[..|b| - 1];
      FoldAppend(g, c, a, b[..|b| - 1]);
      hide Step;
    }
  }

  // ----- what a fold detects -----

  lemma Invertible1(g: bv32, x: bv32, y: bv32)
    requires g & 0x80000000 != 0 && x != y
    ensures Shift1(g, x) != Shift1(g, y)
  {
  }

  lemma Invertible2(g: bv32, x: bv32, y: bv32)
    requires g & 0x80000000 != 0 && x != y
    ensures Shift2(g, x) != Shift2(g, y)
  {
    hide Shift1;
    Invertible1(g, x, y);
    Invertible1(g, Shift1(g, x), Shift1(g, y));
  }

  lemma Invertible8(g: bv32, x: bv32, y: bv32)
    requires g & 0x80000000 != 0 && x != y
    ensures Shift8(g, x) != Shift8(g, y)
  {
    hide Shift1, Shift2;
    Invertible2(g, x, y);
    Invertible2(g, Shift2(g, x), Shift2(g, y));
    Invertible2(g, Shift4(g, x), Shift4(g, y));
    Invertible2(g, Shift2(g, Shift4(g, x)), Shift2(g, Shift4(g, y)));
  }

  /** Four bytes at once: the register takes in a whole word. */
  function Shift32(g: bv32, x: bv32): bv32 { Shift8(g, Shift8(g, Shift8(g, Shift8(g, x)))) }

  lemma Invertible32(g: bv32, x: bv32, y: bv32)
    requires g & 0x80000000 != 0 && x != y
    ensures Shift32(g, x) != Shift32(g, y)
  {
    hide Shift8;
    Invertible8(g, x, y);
    Invertible8(g, Shift8(g, x), Shift8(g, y));
    Invertible8(g, Shift8(g, Shift8(g, x)), Shift8(g, Shift8(g, y)));
    Invertible8(g, Shift8(g, Shift8(g, Shift8(g, x))), Shift8(g, Shift8(g, Shift8(g, y))));
  }

  function Wide(b: byte): bv32 { b as bv32 }
  function Up(x: bv32): bv32 { x << 8 }

  /** What enters behind eight shifts could have entered before them. */
  lemma Lift(g: bv32, x: bv32, w: bv32)
    requires w <= 0xffffff
    ensures Xor(Shift8(g, x), w) == Shift8(g, Xor(x, Up(w)))
  {
    MovedUp(w);
    LowByteFree(g, Up(w));
    Linear8(g, x, Up(w));
    hide Shift8, Xor, Up;
  }

  lemma MovedUp(w: bv32)
    requires w <= 0xffffff
    ensures Up(w) & 0xff == 0 && Up(w) >> 8 == w
  {
  }

  lemma Bounds(b: byte)
    ensures Wide(b) <= 0xff && Up(Wide(b)) <= 0xffff && Up(Up(Wide(b))) <= 0xffffff
  {
  }

  lemma FourSteps(g: bv32, c: bv32, a: byte, b: byte, d: byte, e: byte)
    ensures Step(g, Step(g, Step(g, Step(g, c, a), b), d), e) == Shift32(g, Xor(c, Word32([a, b, d, e])))
  {
    WordIsXor(a, b, d, e);
    Bounds(b);
    Bounds(d);
    Bounds(e);
    WideSteps(g, c, a, b, d, e);
    hide Word32, Xor, Up, Wide, Shift8;
    FourXors(c, Wide(a), Up(Wide(b)), Up(Up(Wide(d))), Up(Up(Up(Wide(e)))));
    var x := Xor(c, Wide(a));
    Lift(g, x, Wide(b));
    var y := Xor(x, Up(Wide(b)));
    Lift(g, Shift8(g, y), Wide(d));
    Lift(g, y, Up(Wide(d)));
    var z := Xor(y, Up(Up(Wide(d))));
    Lift(g, Shift8(g, Shift8(g, z)), Wide(e));
    Lift(g, Shift8(g, z), Up(Wide(e)));
    Lift(g, z, Up(Up(Wide(e))));
  }

  lemma WideSteps(g: bv32, c: bv32, a: byte, b: byte, d: byte, e: byte)
    ensures Step(g, Step(g, Step(g, Step(g, c, a), b), d), e)
         == Shift8(g, Xor(Shift8(g, Xor(Shift8(g, Xor(Shift8(g, Xor(c, Wide(a))), Wide(b))), Wide(d))), Wide(e)))
  {
    hide Shift8, Xor;
  }

  lemma WordIsXor(a: byte, b: byte, d: byte, e: byte)
    ensures Word32([a, b, d, e])
         == Xor(Xor(Xor(Wide(a), Up(Wide(b))), Up(Up(Wide(d)))), Up(Up(Up(Wide(e)))))
  {
    WordIsOr(a, b, d, e);
    OrIsXor(a, b, d, e);
    hide Word32;
    XorOfUps(a, b, d, e);
  }

  lemma WordIsOr(a: byte, b: byte, d: byte, e: byte)
    ensures Word32([a, b, d, e]) == (a as bv32) | ((b as bv32) << 8) | ((d as bv32) << 16) | ((e as bv32) << 24)
  {
  }

  lemma OrIsXor(a: byte, b: byte, d: byte, e: byte)
    ensures (a as bv32) | ((b as bv32) << 8) | ((d as bv32) << 16) | ((e as bv32) << 24)
         == (a as bv32) ^ ((b as bv32) << 8) ^ ((d as bv32) << 16) ^ ((e as bv32) << 24)
  {
  }

  lemma XorOfUps(a: byte, b: byte, d: byte, e: byte)
    ensures (a as bv32) ^ ((b as bv32) << 8) ^ ((d as bv32) << 16) ^ ((e as bv32) << 24)
         == Xor(Xor(Xor(Wide(a), Up(Wide(b))), Up(Up(Wide(d)))), Up(Up(Up(Wide(e)))))
  {
    ShiftsAdd(d as bv32);
    ShiftsAdd(e as bv32);
  }

  lemma ShiftsAdd(x: bv32)
    ensures Up(Up(x)) == x << 16 && Up(Up(Up(x))) == x << 24
  {
  }

  lemma FourXors(c: bv32, p: bv32, q: bv32, r: bv32, s: bv32)
    ensures Xor(Xor(Xor(Xor(c, p), q), r), s) == Xor(c, Xor(Xor(Xor(p, q), r), s))
  {
    hide Xor;
    Associates(c, p, q);
    Associates(c, Xor(p, q), r);
    Associates(c, Xor(Xor(p, q), r), s);
  }

  lemma Associates(a: bv32, b: bv32, c: bv32)
    ensures Xor(Xor(a, b), c) == Xor(a, Xor(b, c))
  {
  }

  lemma FoldOne(g: bv32, c: bv32, s: seq<byte>, b: byte)
    ensures Fold(g, c, s + [b]) == Step(g, Fold(g, c, s), b)
  {
    hide Step;
    assert (s + [b])[..|s|] == s;
  }

  lemma FoldWord(g: bv32, c: bv32, s: seq<byte>, w: seq<byte>)
    requires |w| == 4
    ensures Fold(g, c, s + w) == Shift32(g, Xor(Fold(g, c, s), Word32(w)))
  {
    hide Step, Word32, Xor, Shift32, Fold;
    assert w == [w[0], w[1], w[2], w[3]];
    assert s + w == s + [w[0]] + [w[1]] + [w[2]] + [w[3]];
    FoldOne(g, c, s, w[0]);
    FoldOne(g, c, s + [w[0]], w[1]);
    FoldOne(g, c, s + [w[0]] + [w[1]], w[2]);
    FoldOne(g, c, s + [w[0]] + [w[1]] + [w[2]], w[3]);
    FourSteps(g, Fold(g, c, s), w[0], w[1], w[2], w[3]);
  }

  lemma XorOnce(c: bv32)
    ensures Xor(c, c) == 0 && Xor(c, 0) == c && Xor(0, c) == c
  {
  }

  lemma XorCancels(c: bv32, v: bv32)
    ensures Xor(c, Xor(c, v)) == v && Xor(Xor(c, v), v) == c && (Xor(c, v) == 0 <==> c == v)
  {
    hide Xor;
    XorOnce(c);
    XorOnce(v);
    Associates(c, c, v);
    Associates(c, v, v);
  }

  lemma XorDiffers(c: bv32, d: bv32, v: bv32, w: bv32)
    ensures v != w ==> Xor(c, v) != Xor(c, w)
    ensures c != d ==> Xor(c, v) != Xor(d, v)
    ensures Xor(c, v) == 0 <==> c == v
  {
    hide Xor;
    XorCancels(c, v);
    XorCancels(c, w);
    XorCancels(d, v);
  }

  lemma Word32Injective(v: seq<byte>, w: seq<byte>)
    requires |v| == |w| == 4 && v != w
    ensures Word32(v) != Word32(w)
  {
    hide Word32;
    assert v == [v[0], v[1], v[2], v[3]] && w == [w[0], w[1], w[2], w[3]];
    if Word32(v) == Word32(w) {
      WordsDiffer(v[0], v[1], v[2], v[3], w[0], w[1], w[2], w[3]);
      assert false;
    }
  }

  lemma WordsDiffer(a: byte, b: byte, c: byte, d: byte, a': byte, b': byte, c': byte, d': byte)
    requires Word32([a, b, c, d]) == Word32([a', b', c', d'])
    ensures a == a' && b == b' && c == c' && d == d'
  {
  }

  /** Different registers stay different under the same data. */
  lemma {:induction false} FoldInjective(g: bv32, c: bv32, d: bv32, data: seq<byte>)
    requires g & 0x80000000 != 0 && c != d
    ensures Fold(g, c, data) != Fold(g, d, data)
    decreases |data|
  {
    hide Xor, Shift8;
    if data != [] {
      var init, b := data[..|data| - 1], data[|data| - 1];
      FoldInjective(g, c, d, init);
      XorDiffers(Fold(g, c, init), Fold(g, d, init), b as bv32, b as bv32);
      Invertible8(g, Xor(Fold(g, c, init), b as bv32), Xor(Fold(g, d, init), b as bv32));
    }
  }

  /** Two blocks that agree outside four adjacent positions. */
  predicate AgreeOutside(s: seq<byte>, t: seq<byte>, i: nat)
  {
    |s| == |t| && forall j :: 0 <= j < |s| && !(i <= j < i + 4) ==> s[j] == t[j]
  }

  /** Blocks of equal length that differ, but only in four adjacent bytes, have different CRCs. */
  lemma BurstDetected(g: bv32, c: bv32, s: seq<byte>, t: seq<byte>, i: nat)
    requires g & 0x80000000 != 0 && AgreeOutside(s, t, i) && s != t && 4 <= |s|
    ensures Fold(g, c, s) != Fold(g, c, t)
  {
    hide Fold, Xor, Word32, Shift32;
    var k := if i + 4 <= |s| then i else |s| - 4;
    var n := k + 4;
    assert s == s[..k] + s[k..n] + s[n..] && t == t[..k] + t[k..n] + t[n..];
    assert s[..k] == t[..k] && s[n..] == t[n..] && s[k..n] != t[k..n];
    FoldWord(g, c, s[..k], s[k..n]);
    FoldWord(g, c, t[..k], t[k..n]);
    Word32Injective(s[k..n], t[k..n]);
    var x := Fold(g, c, s[..k]);
    XorDiffers(x, x, Word32(s[k..n]), Word32(t[k..n]));
    Invertible32(g, Xor(x, Word32(s[k..n])), Xor(x, Word32(t[k..n])));
    FoldAppend(g, c, s[..k] + s[k..n], s[n..]);
    FoldAppend(g, c, t[..k] + t[k..n], t[n..]);
    FoldInjective(g, Fold(g, c, s[..k] + s[k..n]), Fold(g, c, t[..k] + t[k..n]), s[n..]);
  }

  /** A block is sealed when its last four bytes are the CRC of the others. */
  predicate Sealed(g: bv32, s: seq<byte>)
  {
    |s| >= 4 && Word32(s[|s| - 4..]) == Fold(g, 0xffffffff, s[..|s| - 4])
  }

  /** Exactly then the register ends at zero. */
  lemma SealedIffZero(g: bv32, s: seq<byte>)
    requires g & 0x80000000 != 0 && |s| >= 4
    ensures Sealed(g, s) <==> Fold(g, 0xffffffff, s) == 0
  {
    hide Fold, Xor, Word32;
    var n := |s| - 4;
    var x, w := Fold(g, 0xffffffff, s[..n]), Word32(s[n..]);
    assert s == s[..n] + s[n..];
    FoldWord(g, 0xffffffff, s[..n], s[n..]);
    XorDiffers(x, x, w, w);
    ZeroStays(g);
    if x != w {
      Invertible32(g, Xor(x, w), 0);
    }
    hide Shift32;
  }

  lemma ZeroStays(g: bv32)
    ensures Shift32(g, 0) == 0
  {
  }

  /** Damage confined to four adjacent bytes, CRC bytes included, never leaves a sealed block sealed. */
  lemma SealBroken(g: bv32, s: seq<byte>, t: seq<byte>, i: nat)
    requires g & 0x80000000 != 0 && Sealed(g, s) && AgreeOutside(s, t, i) && s != t
    ensures !Sealed(g, t)
  {
    hide Fold, Word32;
    SealedIffZero(g, s);
    SealedIffZero(g, t);
    BurstDetected(g, 0xffffffff, s, t, i);
  }
}
