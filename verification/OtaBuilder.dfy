/** tools/make_ota.py: patching a firmware image and wrapping it in an OTA file. */
module OtaBuilder {
  import opened Bytes
  import Crc32
  import Crc32Table

  const MAGIC: seq<byte> := [0x5d, 0x02]
  const HEADER_SIZE: nat := 56

  // ----- the slices of Python -----

  function Clamp(i: nat, s: seq<byte>): (r: nat)
    ensures r <= |s|
  {
    if i < |s| then i else |s|
  }

  function Slice(s: seq<byte>, a: nat, b: nat): seq<byte>
    requires a <= b
  {
    s[Clamp(a, s)..Clamp(b, s)]
  }

  function SliceAssign(s: seq<byte>, a: nat, b: nat, v: seq<byte>): seq<byte>
    requires a <= b
  {
    s[..Clamp(a, s)] + v + s[Clamp(b, s)..]
  }

  /** int.from_bytes, little-endian. */
  function FromBytes(s: seq<byte>): nat
  {
    if s == [] then 0 else ByteValue(s[0]) + 256 * FromBytes(s[1..])
  }

  // ----- the patch -----

  predicate HasMagic(firmware: seq<byte>)
  {
    Slice(firmware, 6, 8) == MAGIC
  }

  function RoundUp16(n: nat): nat { n + (16 - n % 16) % 16 }

  function Padded(input: seq<byte>): (r: seq<byte>)
    ensures |r| == RoundUp16(|input|)
  {
    input + seq(RoundUp16(|input|) - |input|, i => 0xff)
  }

  /** binascii.crc32 */
  function PyCrc32(data: seq<byte>): bv32
  {
    Crc32.Xor(Crc32.Fold(Crc32Table.POLYNOMIAL, 0xffffffff, data), 0xffffffff)
  }

  /** Padded firmware with its size and the magic written in. */
  function Marked(padded: seq<byte>): seq<byte>
    requires |padded| + 4 < 0x1_0000_0000
  {
    SliceAssign(SliceAssign(padded, 0x18, 0x1c, U32Bytes(|padded| + 4)), 6, 8, MAGIC)
  }

  /** The patch step; sizes that do not fit four bytes raise an error. */
  function Patched(input: seq<byte>): Option<seq<byte>>
  {
    if HasMagic(input) then Some(input)
    else if RoundUp16(|input|) + 4 >= 0x1_0000_0000 then None
    else
      var marked := Marked(Padded(input));
      Some(marked + Word32Bytes(Crc32.Xor(PyCrc32(marked), 0xffffffff)))
  }

  method Patch(input: seq<byte>) returns (r: Option<seq<byte>>)
    ensures r == Patched(input)
  {
    hide U32Bytes, Word32Bytes, Crc32.Xor, PyCrc32, SliceAssign;
    var firmware := input;
    if Slice(firmware, 6, 8) != MAGIC {
      var padding := 16 - |firmware| % 16;
      if padding < 16 {
        firmware := firmware + seq(padding, i => 0xff);
      }
      assert firmware == Padded(input);
      if |firmware| + 4 >= 0x1_0000_0000 {
        return None;
      }
      firmware := SliceAssign(firmware, 0x18, 0x1c, U32Bytes(|firmware| + 4));
      firmware := SliceAssign(firmware, 6, 8, MAGIC);
      var crc := Crc32.Xor(PyCrc32(firmware), 0xffffffff);
      firmware := firmware + Word32Bytes(crc);
    }
    r := Some(firmware);
  }

  lemma XorTwice(x: bv32)
    ensures Crc32.Xor(Crc32.Xor(x, 0xffffffff), 0xffffffff) == x
  {
  }

  /** What a patched image looks like, byte for byte. */
  predicate IsImageOf(image: seq<byte>, input: seq<byte>)
  {
    var n := RoundUp16(|input|);
    |image| == n + 4 && 0x1c <= n && |image| < 0x1_0000_0000
    && image[6..8] == MAGIC
    && image[0x18..0x1c] == U32Bytes(|image|)
    && image[n..] == Word32Bytes(Crc32.Fold(Crc32Table.POLYNOMIAL, 0xffffffff, image[..n]))
    && (forall i :: 0 <= i < n && !(6 <= i < 8) && !(0x18 <= i < 0x1c) ==>
          image[i] == if i < |input| then input[i] else 0xff)
  }

  lemma MarkedBytes(padded: seq<byte>)
    requires 0x1c <= |padded| && |padded| + 4 < 0x1_0000_0000
    ensures var m := Marked(padded);
      |m| == |padded| && m[6..8] == MAGIC && m[0x18..0x1c] == U32Bytes(|padded| + 4)
      && forall i :: 0 <= i < |padded| && !(6 <= i < 8) && !(0x18 <= i < 0x1c) ==> m[i] == padded[i]
  {
    hide U32Bytes;
    var size := U32Bytes(|padded| + 4);
    var sized := SliceAssign(padded, 0x18, 0x1c, size);
    assert sized[0x18..0x1c] == size;
    var m := SliceAssign(sized, 6, 8, MAGIC);
    assert m[0x18..0x1c] == sized[0x18..0x1c];
    assert forall i :: 0 <= i < |padded| && !(6 <= i < 8) ==> m[i] == sized[i];
  }

  /** Every unpatched input of more than 16 bytes becomes such an image; its size field is its own length. */
  lemma PatchBuildsImage(input: seq<byte>)
    requires !HasMagic(input) && 16 < |input| && RoundUp16(|input|) + 4 < 0x1_0000_0000
    ensures Patched(input).Some? && IsImageOf(Patched(input).value, input)
    ensures var n := |Patched(input).value| - 4; n % 16 == 0 && |input| <= n < |input| + 16
  {
    hide U32Bytes, Word32Bytes, Crc32.Xor, Crc32.Fold, Marked;
    var padded := Padded(input);
    var m := Marked(padded);
    MarkedBytes(padded);
    XorTwice(Crc32.Fold(Crc32Table.POLYNOMIAL, 0xffffffff, m));
    var image := Patched(input).value;
    assert image[..|m|] == m;
    assert image[6..8] == m[6..8] && image[0x18..0x1c] == m[0x18..0x1c];
  }

  /** Shorter inputs grow instead: the size and the magic are inserted, and the size field is wrong. */
  lemma ShortInputGrows(input: seq<byte>)
    requires !HasMagic(input) && |input| <= 16
    ensures Patched(input).Some? && |Patched(input).value| == if input == [] then 10 else 24
  {
    hide U32Bytes, Word32Bytes, PyCrc32, Crc32.Xor, Marked;
    assert RoundUp16(|input|) == if input == [] then 0 else 16;
    MarkedLength(Padded(input));
  }

  lemma MarkedLength(padded: seq<byte>)
    requires |padded| == 0 || |padded| == 16
    ensures |Marked(padded)| == if padded == [] then 6 else 20
  {
    hide U32Bytes;
  }

  /** Patching again changes nothing, except that an empty input only gets its marks one patch later. */
  lemma PatchIdempotent(input: seq<byte>)
    requires Patched(input).Some?
    ensures Patched(Patched(input).value) == Patched(input) <==> input != []
  {
    hide U32Bytes, Word32Bytes, Crc32.Xor, Crc32.Fold;
    var image := Patched(input).value;
    if input == [] {
      EmptyStaysUnmarked();
    } else if !HasMagic(input) {
      if |input| > 16 {
        hide Marked;
        PatchBuildsImage(input);
        assert Slice(image, 6, 8) == image[6..8];
      } else {
        assert HasMagic(image);
      }
    }
  }

  lemma EmptyStaysUnmarked()
    ensures Patched([]).Some? && |Patched([]).value| == 10 && !HasMagic(Patched([]).value)
    ensures Patched(Patched([]).value).Some? && |Patched(Patched([]).value).value| == 24
  {
    hide U32Bytes, Word32Bytes, Crc32.Xor, Crc32.Fold;
    var marked: seq<byte> := [4, 0, 0, 0, 0x5d, 0x02];
    assert Marked([]) == marked by {
      FourBytes();
    }
    CrcOfMarks(marked);
    XorTwice(Crc32.Fold(Crc32Table.POLYNOMIAL, 0xffffffff, marked));
    LowBytes();
    assert Padded([]) == [];
    ShortInputGrows([]);
    var image := Patched([]).value;
    assert image == marked + Word32Bytes(0x34b75e7f);
    assert Slice(image, 6, 8)[0] == image[6] == Word32Bytes(0x34b75e7f)[0];
    ShortInputGrows(Patched([]).value);
  }

  lemma FourBytes()
    ensures U32Bytes(4) == [4, 0, 0, 0]
  {
  }

  lemma LowBytes()
    ensures Word32Bytes(0x34b75e7f)[0] != 0x5d
  {
  }

  lemma CrcOfMarks(marks: seq<byte>)
    requires marks == [4, 0, 0, 0, 0x5d, 0x02]
    ensures Crc32.Fold(Crc32Table.POLYNOMIAL, 0xffffffff, marks) == 0x34b75e7f
  {
    hide Crc32.Step, Crc32.Fold;
    EmptyFold();
    var s0: seq<byte> := [];
    var s1 := s0 + [0x4];
    FoldOne(s0, 0x4);
    Step0();
    var s2 := s1 + [0x0];
    FoldOne(s1, 0x0);
    Step1();
    var s3 := s2 + [0x0];
    FoldOne(s2, 0x0);
    Step2();
    var s4 := s3 + [0x0];
    FoldOne(s3, 0x0);
    Step3();
    var s5 := s4 + [0x5d];
    FoldOne(s4, 0x5d);
    Step4();
    var s6 := s5 + [0x2];
    FoldOne(s5, 0x2);
    Step5();
    assert s6 == marks;
  }

  lemma EmptyFold()
    ensures Crc32.Fold(Crc32Table.POLYNOMIAL, 0xffffffff, []) == 0xffffffff
  {
  }

  lemma FoldOne(s: seq<byte>, b: byte)
    ensures Crc32.Fold(Crc32Table.POLYNOMIAL, 0xffffffff, s + [b])
         == Crc32.Step(Crc32Table.POLYNOMIAL, Crc32.Fold(Crc32Table.POLYNOMIAL, 0xffffffff, s), b)
  {
    hide Crc32.Step;
    assert (s + [b])[..|s|] == s;
  }

  lemma Step0()
    ensures Crc32.Step(Crc32Table.POLYNOMIAL, 0xffffffff, 0x4) == 0x2a90d46b
  {
  }

  lemma Step1()
    ensures Crc32.Step(Crc32Table.POLYNOMIAL, 0x2a90d46b, 0x0) == 0xda4a2804
  {
  }

  lemma Step2()
    ensures Crc32.Step(Crc32Table.POLYNOMIAL, 0xda4a2804, 0x0) == 0x7b78e31
  {
  }

  lemma Step3()
    ensures Crc32.Step(Crc32Table.POLYNOMIAL, 0x7b78e31, 0x0) == 0x51d9b7b4
  {
  }

  lemma Step4()
    ensures Crc32.Step(Crc32Table.POLYNOMIAL, 0x51d9b7b4, 0x5d) == 0xd987836b
  {
  }

  lemma Step5()
    ensures Crc32.Step(Crc32Table.POLYNOMIAL, 0xd987836b, 0x2) == 0x34b75e7f
  {
  }

  // ----- the outer header (section 11.4 of the Zigbee Cluster Library specification) -----

  datatype Header = Header(
    manufacturer: u16, imageType: u16, fileVersion: u32, stackVersion: u16, totalImageSize: u32, chunkLen: u32)

  function U16Bytes(n: u16): (r: seq<byte>)
    ensures |r| == 2
  {
    [Low(n), High(n)]
  }

  function Zeros(n: nat): (r: seq<byte>)
    ensures |r| == n
  {
    seq(n, i => 0)
  }

  /** The packed header and the header of its single chunk. */
  function Packed(h: Header): (r: seq<byte>)
    ensures |r| == HEADER_SIZE + 6
  {
    U32Bytes(0x0beef11e) + U16Bytes(0x100) + U16Bytes(56) + U16Bytes(0)
    + U16Bytes(h.manufacturer) + U16Bytes(h.imageType) + U32Bytes(h.fileVersion) + U16Bytes(h.stackVersion)
    + Zeros(32) + U32Bytes(h.totalImageSize)
    + U16Bytes(0) + U32Bytes(h.chunkLen)
  }

  function U16At(s: seq<byte>, i: nat): u16
    requires i + 2 <= |s|
  {
    U16Of(s[i + 1], s[i])
  }

  function Parsed(s: seq<byte>): Header
    requires |s| >= 62
  {
    Header(U16At(s, 10), U16At(s, 12), U32Of(s[14..18]), U16At(s, 18), U32Of(s[52..56]), U32Of(s[58..62]))
  }

  /** The header main packs for a patched image; values too wide for their field raise an error. */
  function HeaderFor(firmware: seq<byte>, setVersion: Option<nat>, otaVersion: nat): Option<Header>
  {
    var version := if setVersion.None? || setVersion.value == 0 then FromBytes(Slice(firmware, 2, 6))
                   else setVersion.value;
    if version >= 0x1_0000_0000 || otaVersion >= 0x1_0000 || |firmware| + 62 >= 0x1_0000_0000 then None
    else
      ShortFromBytes(Slice(firmware, 18, 20));
      ShortFromBytes(Slice(firmware, 20, 22));
      Some(Header(FromBytes(Slice(firmware, 18, 20)), FromBytes(Slice(firmware, 20, 22)),
                  version, otaVersion, |firmware| + 62, |firmware|))
  }

  lemma ShortFromBytes(s: seq<byte>)
    requires |s| <= 2
    ensures FromBytes(s) < 0x1_0000
  {
    if s != [] {
      assert FromBytes(s[1..]) < 256 by {
        if |s| == 2 {
          assert s[1..][1..] == [];
        }
      }
    }
  }

  /** main: patch, then write header, chunk header and firmware. */
  method Build(input: seq<byte>, setVersion: Option<nat>, otaVersion: nat) returns (file: Option<seq<byte>>)
    ensures file.Some? <==>
              Patched(input).Some? && HeaderFor(Patched(input).value, setVersion, otaVersion).Some?
    ensures file.Some? ==>
              |file.value| == 62 + |Patched(input).value| && file.value[62..] == Patched(input).value
              && Parsed(file.value) == HeaderFor(Patched(input).value, setVersion, otaVersion).value
              && Parsed(file.value).totalImageSize == |file.value|
              && Parsed(file.value).chunkLen == |file.value| - 62
    ensures file.Some? ==> Labelled(file.value, Patched(input).value, setVersion, otaVersion)
  {
    hide Packed;
    var firmware := Patch(input);
    if firmware.None? {
      return None;
    }
    var header := HeaderFor(firmware.value, setVersion, otaVersion);
    if header.None? {
      return None;
    }
    file := Some(Packed(header.value) + firmware.value);
    HeaderRoundTrip(header.value, firmware.value);
    HeaderLabels(firmware.value, setVersion, otaVersion);
  }

  /** What an upgrade server reads in the file, in bytes: file identifier, header version and length, no optional
      fields, the manufacturer, image type and version bytes of the firmware, or the version asked for, the stack
      version, an empty name, and one chunk of tag 0 with the firmware. */
  predicate Labelled(file: seq<byte>, firmware: seq<byte>, setVersion: Option<nat>, otaVersion: nat)
  {
    |file| == 62 + |firmware| < 0x1_0000_0000 && otaVersion < 0x1_0000 && file[62..] == firmware
    && file[0..10] == [0x1e, 0xf1, 0xee, 0x0b, 0x00, 0x01, 56, 0, 0, 0]
    && (|firmware| >= 22 ==>
          file[10..12] == firmware[18..20] && file[12..14] == firmware[20..22]
          && (setVersion.None? || setVersion.value == 0 ==> file[14..18] == firmware[2..6]))
    && (setVersion.Some? && setVersion.value != 0 ==>
          setVersion.value < 0x1_0000_0000 && file[14..18] == U32Bytes(setVersion.value))
    && file[18..20] == [Low(otaVersion), High(otaVersion)]
    && (forall i :: 20 <= i < 52 ==> file[i] == 0)
    && file[52..56] == U32Bytes(|file|) && file[56..58] == [0, 0] && file[58..62] == U32Bytes(|firmware|)
  }

  lemma HeaderLabels(firmware: seq<byte>, setVersion: Option<nat>, otaVersion: nat)
    requires HeaderFor(firmware, setVersion, otaVersion).Some?
    ensures var header := HeaderFor(firmware, setVersion, otaVersion).value;
      Labelled(Packed(header) + firmware, firmware, setVersion, otaVersion)
  {
    hide U32Bytes, High, Low, FromBytes;
    var h := HeaderFor(firmware, setVersion, otaVersion).value;
    var p := Packed(h);
    PackedFields(h);
    FixedFields(h);
    if |firmware| >= 22 {
      ShortField(firmware, 18);
      ShortField(firmware, 20);
      if setVersion.None? || setVersion.value == 0 {
        VersionField(firmware);
      }
    }
    hide Packed, U16Bytes;
    FrontKept(p, firmware);
  }

  lemma FrontKept(p: seq<byte>, firmware: seq<byte>)
    requires |p| == 62
    ensures var file := p + firmware;
      file[62..] == firmware && (forall i :: 0 <= i < 62 ==> file[i] == p[i])
      && file[0..10] == p[0..10] && file[10..12] == p[10..12] && file[12..14] == p[12..14] && file[14..18] == p[14..18]
      && file[18..20] == p[18..20] && file[52..56] == p[52..56] && file[56..58] == p[56..58] && file[58..62] == p[58..62]
  {
  }

  lemma FixedFields(h: Header)
    ensures var p := Packed(h);
      p[0..10] == [0x1e, 0xf1, 0xee, 0x0b, 0x00, 0x01, 56, 0, 0, 0] && p[56..58] == [0, 0]
      && forall i :: 20 <= i < 52 ==> p[i] == 0
  {
    hide U32Bytes, U16Bytes;
    FixedNumbers();
    var fixed: seq<byte> := [0x1e, 0xf1, 0xee, 0x0b, 0x00, 0x01, 56, 0, 0, 0];
    assert U32Bytes(0x0beef11e) + U16Bytes(0x100) + U16Bytes(56) + U16Bytes(0) == fixed;
    var rest := U16Bytes(h.manufacturer) + U16Bytes(h.imageType) + U32Bytes(h.fileVersion) + U16Bytes(h.stackVersion)
                + Zeros(32) + U32Bytes(h.totalImageSize) + U16Bytes(0) + U32Bytes(h.chunkLen);
    assert Packed(h) == fixed + rest;
    assert rest[46..48] == U16Bytes(0);
    assert forall i :: 10 <= i < 42 ==> rest[i] == 0;
  }

  lemma FixedNumbers()
    ensures U32Bytes(0x0beef11e) == [0x1e, 0xf1, 0xee, 0x0b]
    ensures U16Bytes(0x100) == [0, 1] && U16Bytes(56) == [56, 0] && U16Bytes(0) == [0, 0]
  {
    hide ToByte;
    FixedBytes();
    assert 0x0beef11e % 256 == 0x1e && 0x0beef11e / 256 % 256 == 0xf1;
    assert 0x0beef11e / 65536 % 256 == 0xee && 0x0beef11e / 16777216 == 0x0b;
  }

  lemma FixedBytes()
    ensures ToByte(0x1e) == 0x1e && ToByte(0xf1) == 0xf1 && ToByte(0xee) == 0xee && ToByte(0x0b) == 0x0b
    ensures ToByte(0) == 0 && ToByte(1) == 1 && ToByte(56) == 56
  {
  }

  lemma ShortField(firmware: seq<byte>, i: nat)
    requires i + 2 <= |firmware|
    ensures FromBytes(firmware[i..i + 2]) < 0x1_0000 && U16Bytes(FromBytes(firmware[i..i + 2])) == firmware[i..i + 2]
  {
    hide High, Low, ByteValue;
    var s := firmware[i..i + 2];
    assert s[1..][1..] == [];
    assert FromBytes(s[1..]) == ByteValue(s[1]);
    assert FromBytes(s) == U16Of(s[1], s[0]);
    U16Unique(s[1], s[0]);
  }

  lemma VersionField(firmware: seq<byte>)
    requires 6 <= |firmware|
    ensures FromBytes(firmware[2..6]) < 0x1_0000_0000 && U32Bytes(FromBytes(firmware[2..6])) == firmware[2..6]
  {
    hide U32Bytes, ByteValue;
    var s := firmware[2..6];
    assert s[1..][1..] == s[2..] && s[2..][1..] == s[3..] && s[3..][1..] == [];
    assert FromBytes(s[3..]) == ByteValue(s[3]);
    assert FromBytes(s[2..]) == ByteValue(s[2]) + 256 * FromBytes(s[3..]);
    assert FromBytes(s[1..]) == ByteValue(s[1]) + 256 * FromBytes(s[2..]);
    assert FromBytes(s) == U32Of(s);
    U32Unique(s);
  }

  /** What was packed can be read back, with the firmware right behind it. */
  lemma HeaderRoundTrip(h: Header, firmware: seq<byte>)
    ensures Parsed(Packed(h) + firmware) == h
  {
    hide U32Bytes, U32Of, U16Of, High, Low;
    var file := Packed(h) + firmware;
    PackedFields(h);
    U16RoundTrip(h.manufacturer);
    U16RoundTrip(h.imageType);
    U16RoundTrip(h.stackVersion);
    U32RoundTrip(h.fileVersion);
    U32RoundTrip(h.totalImageSize);
    U32RoundTrip(h.chunkLen);
    hide Packed;
    assert file[10..12] == Packed(h)[10..12] && file[12..14] == Packed(h)[12..14] && file[18..20] == Packed(h)[18..20];
    assert file[14..18] == Packed(h)[14..18] && file[52..56] == Packed(h)[52..56] && file[58..62] == Packed(h)[58..62];
    assert file[10] == file[10..12][0] && file[11] == file[10..12][1];
    assert file[12] == file[12..14][0] && file[13] == file[12..14][1];
    assert file[18] == file[18..20][0] && file[19] == file[18..20][1];
  }

  lemma PackedFields(h: Header)
    ensures var p := Packed(h);
      p[10..12] == U16Bytes(h.manufacturer) && p[12..14] == U16Bytes(h.imageType)
      && p[14..18] == U32Bytes(h.fileVersion) && p[18..20] == U16Bytes(h.stackVersion)
      && p[52..56] == U32Bytes(h.totalImageSize) && p[58..62] == U32Bytes(h.chunkLen)
  {
    hide U32Bytes, U16Bytes;
  }
}
