/** The programmer tool's table-driven CRC-16 refines the bitwise one (tools/TlsrPgm.py). */
module Crc16Table {
  import opened Bytes
  import opened Crc16

  const POLYNOMIAL: bv16 := 0xA001
  const INITIAL: bv16 := 0xFFFF

  /** The literal table of the tool, eight entries a row. */
  const ROW_00: seq<bv16> := [0x0000, 0xC0C1, 0xC181, 0x0140, 0xC301, 0x03C0, 0x0280, 0xC241]
  const ROW_01: seq<bv16> := [0xC601, 0x06C0, 0x0780, 0xC741, 0x0500, 0xC5C1, 0xC481, 0x0440]
  const ROW_02: seq<bv16> := [0xCC01, 0x0CC0, 0x0D80, 0xCD41, 0x0F00, 0xCFC1, 0xCE81, 0x0E40]
  const ROW_03: seq<bv16> := [0x0A00, 0xCAC1, 0xCB81, 0x0B40, 0xC901, 0x09C0, 0x0880, 0xC841]
  const ROW_04: seq<bv16> := [0xD801, 0x18C0, 0x1980, 0xD941, 0x1B00, 0xDBC1, 0xDA81, 0x1A40]
  const ROW_05: seq<bv16> := [0x1E00, 0xDEC1, 0xDF81, 0x1F40, 0xDD01, 0x1DC0, 0x1C80, 0xDC41]
  const ROW_06: seq<bv16> := [0x1400, 0xD4C1, 0xD581, 0x1540, 0xD701, 0x17C0, 0x1680, 0xD641]
  const ROW_07: seq<bv16> := [0xD201, 0x12C0, 0x1380, 0xD341, 0x1100, 0xD1C1, 0xD081, 0x1040]
  const ROW_08: seq<bv16> := [0xF001, 0x30C0, 0x3180, 0xF141, 0x3300, 0xF3C1, 0xF281, 0x3240]
  const ROW_09: seq<bv16> := [0x3600, 0xF6C1, 0xF781, 0x3740, 0xF501, 0x35C0, 0x3480, 0xF441]
  const ROW_10: seq<bv16> := [0x3C00, 0xFCC1, 0xFD81, 0x3D40, 0xFF01, 0x3FC0, 0x3E80, 0xFE41]
  const ROW_11: seq<bv16> := [0xFA01, 0x3AC0, 0x3B80, 0xFB41, 0x3900, 0xF9C1, 0xF881, 0x3840]
  const ROW_12: seq<bv16> := [0x2800, 0xE8C1, 0xE981, 0x2940, 0xEB01, 0x2BC0, 0x2A80, 0xEA41]
  const ROW_13: seq<bv16> := [0xEE01, 0x2EC0, 0x2F80, 0xEF41, 0x2D00, 0xEDC1, 0xEC81, 0x2C40]
  const ROW_14: seq<bv16> := [0xE401, 0x24C0, 0x2580, 0xE541, 0x2700, 0xE7C1, 0xE681, 0x2640]
  const ROW_15: seq<bv16> := [0x2200, 0xE2C1, 0xE381, 0x2340, 0xE101, 0x21C0, 0x2080, 0xE041]
  const ROW_16: seq<bv16> := [0xA001, 0x60C0, 0x6180, 0xA141, 0x6300, 0xA3C1, 0xA281, 0x6240]
  const ROW_17: seq<bv16> := [0x6600, 0xA6C1, 0xA781, 0x6740, 0xA501, 0x65C0, 0x6480, 0xA441]
  const ROW_18: seq<bv16> := [0x6C00, 0xACC1, 0xAD81, 0x6D40, 0xAF01, 0x6FC0, 0x6E80, 0xAE41]
  const ROW_19: seq<bv16> := [0xAA01, 0x6AC0, 0x6B80, 0xAB41, 0x6900, 0xA9C1, 0xA881, 0x6840]
  const ROW_20: seq<bv16> := [0x7800, 0xB8C1, 0xB981, 0x7940, 0xBB01, 0x7BC0, 0x7A80, 0xBA41]
  const ROW_21: seq<bv16> := [0xBE01, 0x7EC0, 0x7F80, 0xBF41, 0x7D00, 0xBDC1, 0xBC81, 0x7C40]
  const ROW_22: seq<bv16> := [0xB401, 0x74C0, 0x7580, 0xB541, 0x7700, 0xB7C1, 0xB681, 0x7640]
  const ROW_23: seq<bv16> := [0x7200, 0xB2C1, 0xB381, 0x7340, 0xB101, 0x71C0, 0x7080, 0xB041]
  const ROW_24: seq<bv16> := [0x5000, 0x90C1, 0x9181, 0x5140, 0x9301, 0x53C0, 0x5280, 0x9241]
  const ROW_25: seq<bv16> := [0x9601, 0x56C0, 0x5780, 0x9741, 0x5500, 0x95C1, 0x9481, 0x5440]
  const ROW_26: seq<bv16> := [0x9C01, 0x5CC0, 0x5D80, 0x9D41, 0x5F00, 0x9FC1, 0x9E81, 0x5E40]
  const ROW_27: seq<bv16> := [0x5A00, 0x9AC1, 0x9B81, 0x5B40, 0x9901, 0x59C0, 0x5880, 0x9841]
  const ROW_28: seq<bv16> := [0x8801, 0x48C0, 0x4980, 0x8941, 0x4B00, 0x8BC1, 0x8A81, 0x4A40]
  const ROW_29: seq<bv16> := [0x4E00, 0x8EC1, 0x8F81, 0x4F40, 0x8D01, 0x4DC0, 0x4C80, 0x8C41]
  const ROW_30: seq<bv16> := [0x4400, 0x84C1, 0x8581, 0x4540, 0x8701, 0x47C0, 0x4680, 0x8641]
  const ROW_31: seq<bv16> := [0x8201, 0x42C0, 0x4380, 0x8341, 0x4100, 0x81C1, 0x8081, 0x4040]

  function Row(r: bv16): (row: seq<bv16>)
    ensures |row| == 8
  {
    if r == 0 then ROW_00 else if r == 1 then ROW_01 else if r == 2 then ROW_02 else if r == 3 then ROW_03 else
    if r == 4 then ROW_04 else if r == 5 then ROW_05 else if r == 6 then ROW_06 else if r == 7 then ROW_07 else
    if r == 8 then ROW_08 else if r == 9 then ROW_09 else if r == 10 then ROW_10 else if r == 11 then ROW_11 else
    if r == 12 then ROW_12 else if r == 13 then ROW_13 else if r == 14 then ROW_14 else if r == 15 then ROW_15 else
    if r == 16 then ROW_16 else if r == 17 then ROW_17 else if r == 18 then ROW_18 else if r == 19 then ROW_19 else
    if r == 20 then ROW_20 else if r == 21 then ROW_21 else if r == 22 then ROW_22 else if r == 23 then ROW_23 else
    if r == 24 then ROW_24 else if r == 25 then ROW_25 else if r == 26 then ROW_26 else if r == 27 then ROW_27 else
    if r == 28 then ROW_28 else if r == 29 then ROW_29 else if r == 30 then ROW_30 else ROW_31
  }

  function Lookup(i: bv16): bv16
    requires i < 256
  {
    Row(i >> 3)[(i & 7) as nat]
  }

  /** The shifts are linear, so eight of them are the sum of what they make of single bits. */
  function Bits(i: bv16): bv16
  {
    (if i & 1 == 0 then 0 else 0xC0C1) ^ (if i & 2 == 0 then 0 else 0xC181)
    ^ (if i & 4 == 0 then 0 else 0xC301) ^ (if i & 8 == 0 then 0 else 0xC601)
    ^ (if i & 16 == 0 then 0 else 0xCC01) ^ (if i & 32 == 0 then 0 else 0xD801)
    ^ (if i & 64 == 0 then 0 else 0xF001) ^ (if i & 128 == 0 then 0 else 0xA001)
  }

  lemma BitsCorrect(i: bv16)
    requires i < 256
    ensures Bits(i) == Shift8(POLYNOMIAL, i)
  {
  }

  function RowOf(b: bv16): seq<bv16>
  {
    [Bits(b), Bits(b + 1), Bits(b + 2), Bits(b + 3), Bits(b + 4), Bits(b + 5), Bits(b + 6), Bits(b + 7)]
  }

  lemma Rows0()
    ensures ROW_00 == RowOf(0) && ROW_01 == RowOf(8) && ROW_02 == RowOf(16) && ROW_03 == RowOf(24)
  {
  }

  lemma Rows1()
    ensures ROW_04 == RowOf(32) && ROW_05 == RowOf(40) && ROW_06 == RowOf(48) && ROW_07 == RowOf(56)
  {
  }

  lemma Rows2()
    ensures ROW_08 == RowOf(64) && ROW_09 == RowOf(72) && ROW_10 == RowOf(80) && ROW_11 == RowOf(88)
  {
  }

  lemma Rows3()
    ensures ROW_12 == RowOf(96) && ROW_13 == RowOf(104) && ROW_14 == RowOf(112) && ROW_15 == RowOf(120)
  {
  }

  lemma Rows4()
    ensures ROW_16 == RowOf(128) && ROW_17 == RowOf(136) && ROW_18 == RowOf(144) && ROW_19 == RowOf(152)
  {
  }

  lemma Rows5()
    ensures ROW_20 == RowOf(160) && ROW_21 == RowOf(168) && ROW_22 == RowOf(176) && ROW_23 == RowOf(184)
  {
  }

  lemma Rows6()
    ensures ROW_24 == RowOf(192) && ROW_25 == RowOf(200) && ROW_26 == RowOf(208) && ROW_27 == RowOf(216)
  {
  }

  lemma Rows7()
    ensures ROW_28 == RowOf(224) && ROW_29 == RowOf(232) && ROW_30 == RowOf(240) && ROW_31 == RowOf(248)
  {
  }

  lemma AllRows(r: bv16)
    requires r < 32
    ensures Row(r) == RowOf(r << 3)
  {
    hide RowOf;
    if r < 4 { Rows0(); if r == 0 {} else if r == 1 {} else if r == 2 {} else {} }
    else if r < 8 { Rows1(); if r == 4 {} else if r == 5 {} else if r == 6 {} else {} }
    else if r < 12 { Rows2(); if r == 8 {} else if r == 9 {} else if r == 10 {} else {} }
    else if r < 16 { Rows3(); if r == 12 {} else if r == 13 {} else if r == 14 {} else {} }
    else if r < 20 { Rows4(); if r == 16 {} else if r == 17 {} else if r == 18 {} else {} }
    else if r < 24 { Rows5(); if r == 20 {} else if r == 21 {} else if r == 22 {} else {} }
    else if r < 28 { Rows6(); if r == 24 {} else if r == 25 {} else if r == 26 {} else {} }
    else { Rows7(); if r == 28 {} else if r == 29 {} else if r == 30 {} else {} }
  }

  /** Every table entry is what eight single-bit shifts make of its index. */
  lemma LookupCorrect(i: bv16)
    requires i < 256
    ensures Lookup(i) == Shift8(POLYNOMIAL, i)
  {
    hide Shift8, Row, Bits;
    BitsCorrect(i);
    AllRows(i >> 3);
    RowEntry(i, (i >> 3) << 3);
  }

  lemma RowEntry(i: bv16, b: bv16)
    requires i < 256 && b == (i >> 3) << 3
    ensures RowOf(b)[(i & 7) as nat] == Bits(i)
  {
    hide Bits;
    if i & 7 == 0 {} else if i & 7 == 1 {} else if i & 7 == 2 {} else if i & 7 == 3 {}
    else if i & 7 == 4 {} else if i & 7 == 5 {} else if i & 7 == 6 {} else {}
  }

  /** One table lookup does the work of eight bit shifts. */
  lemma TableStep(crc: bv16, b: byte)
    ensures Xor(crc >> 8, Lookup(Xor(crc, b as bv16) & 0xff)) == Step(POLYNOMIAL, crc, b)
  {
    hide Xor, Shift8, Lookup;
    var x := Xor(crc, b as bv16);
    ByteDropped(crc, b);
    LookupCorrect(x & 0xff);
    ByteAtOnce(POLYNOMIAL, x);
    XorCommutes(crc >> 8, Shift8(POLYNOMIAL, x & 0xff));
  }

  lemma ByteDropped(crc: bv16, b: byte)
    ensures Xor(crc, b as bv16) >> 8 == crc >> 8
  {
  }

  lemma XorCommutes(a: bv16, b: bv16)
    ensures Xor(a, b) == Xor(b, a)
  {
  }

  /** The tool's crc16: a loop over the table. */
  method TableCrc16(data: seq<byte>, length: nat) returns (r: seq<byte>)
    requires length <= |data|
    ensures r == Word16Bytes(Fold(POLYNOMIAL, INITIAL, data[..length]))
  {
    var crc := INITIAL;
    for i := 0 to length
      invariant crc == Fold(POLYNOMIAL, INITIAL, data[..i])
    {
      TableStep(crc, data[i]);
      assert data[..i + 1][..i] == data[..i];
      crc := Xor(crc >> 8, Lookup(Xor(crc, data[i] as bv16) & 0xff));
    }
    r := [(crc & 0xff) as bv8, ((crc >> 8) & 0xff) as bv8];
  }

  function CrcBlk(data: seq<byte>): seq<byte>
  {
    data + Word16Bytes(Fold(POLYNOMIAL, INITIAL, data))
  }

  /** Blocks shorter than a CRC are compared with the CRC of nothing, which is two bytes long. */
  predicate CrcChk(data: seq<byte>)
  {
    if |data| < 2 then data == Word16Bytes(INITIAL)
    else data[|data| - 2..] == Word16Bytes(Fold(POLYNOMIAL, INITIAL, data[..|data| - 2]))
  }

  /** The check accepts exactly the blocks that crc_blk builds. */
  lemma ChkIffBlk(data: seq<byte>)
    ensures CrcChk(data) <==> exists d :: data == CrcBlk(d)
    ensures CrcChk(CrcBlk(data))
  {
    BlkAccepted(data);
    if CrcChk(data) {
      var d := data[..|data| - 2];
      assert data == CrcBlk(d);
    }
    if d :| data == CrcBlk(d) {
      BlkAccepted(d);
    }
  }

  lemma BlkAccepted(d: seq<byte>)
    ensures CrcChk(CrcBlk(d))
  {
    assert CrcBlk(d)[..|d|] == d;
  }

  /** Changing at most two adjacent bytes of an accepted block, anywhere, is always noticed. */
  lemma ChkRejectsBursts(d: seq<byte>, t: seq<byte>, i: nat)
    requires AgreeOutside(CrcBlk(d), t, i) && t != CrcBlk(d)
    ensures !CrcChk(t)
  {
    BlkAccepted(d);
    SealBroken(POLYNOMIAL, CrcBlk(d), t, i);
  }
}

/** The SDK's table-driven xcrc32 refines the bitwise CRC-32 (tl_zigbee_sdk/proj/common/utility.c). */
module Crc32Table {
  import opened Bytes
  import opened Crc32

  const POLYNOMIAL: bv32 := 0xEDB88320
  const INITIAL: bv32 := 0xFFFFFFFF

  /** The literal table of the SDK, eight entries a row. */
  const ROW_00: seq<bv32> := [0x00000000, 0x77073096, 0xEE0E612C, 0x990951BA, 0x076DC419, 0x706AF48F, 0xE963A535, 0x9E6495A3]
  const ROW_01: seq<bv32> := [0x0EDB8832, 0x79DCB8A4, 0xE0D5E91E, 0x97D2D988, 0x09B64C2B, 0x7EB17CBD, 0xE7B82D07, 0x90BF1D91]
  const ROW_02: seq<bv32> := [0x1DB71064, 0x6AB020F2, 0xF3B97148, 0x84BE41DE, 0x1ADAD47D, 0x6DDDE4EB, 0xF4D4B551, 0x83D385C7]
  const ROW_03: seq<bv32> := [0x136C9856, 0x646BA8C0, 0xFD62F97A, 0x8A65C9EC, 0x14015C4F, 0x63066CD9, 0xFA0F3D63, 0x8D080DF5]
  const ROW_04: seq<bv32> := [0x3B6E20C8, 0x4C69105E, 0xD56041E4, 0xA2677172, 0x3C03E4D1, 0x4B04D447, 0xD20D85FD, 0xA50AB56B]
  const ROW_05: seq<bv32> := [0x35B5A8FA, 0x42B2986C, 0xDBBBC9D6, 0xACBCF940, 0x32D86CE3, 0x45DF5C75, 0xDCD60DCF, 0xABD13D59]
  const ROW_06: seq<bv32> := [0x26D930AC, 0x51DE003A, 0xC8D75180, 0xBFD06116, 0x21B4F4B5, 0x56B3C423, 0xCFBA9599, 0xB8BDA50F]
  const ROW_07: seq<bv32> := [0x2802B89E, 0x5F058808, 0xC60CD9B2, 0xB10BE924, 0x2F6F7C87, 0x58684C11, 0xC1611DAB, 0xB6662D3D]
  const ROW_08: seq<bv32> := [0x76DC4190, 0x01DB7106, 0x98D220BC, 0xEFD5102A, 0x71B18589, 0x06B6B51F, 0x9FBFE4A5, 0xE8B8D433]
  const ROW_09: seq<bv32> := [0x7807C9A2, 0x0F00F934, 0x9609A88E, 0xE10E9818, 0x7F6A0DBB, 0x086D3D2D, 0x91646C97, 0xE6635C01]
  const ROW_10: seq<bv32> := [0x6B6B51F4, 0x1C6C6162, 0x856530D8, 0xF262004E, 0x6C0695ED, 0x1B01A57B, 0x8208F4C1, 0xF50FC457]
  const ROW_11: seq<bv32> := [0x65B0D9C6, 0x12B7E950, 0x8BBEB8EA, 0xFCB9887C, 0x62DD1DDF, 0x15DA2D49, 0x8CD37CF3, 0xFBD44C65]
  const ROW_12: seq<bv32> := [0x4DB26158, 0x3AB551CE, 0xA3BC0074, 0xD4BB30E2, 0x4ADFA541, 0x3DD895D7, 0xA4D1C46D, 0xD3D6F4FB]
  const ROW_13: seq<bv32> := [0x4369E96A, 0x346ED9FC, 0xAD678846, 0xDA60B8D0, 0x44042D73, 0x33031DE5, 0xAA0A4C5F, 0xDD0D7CC9]
  const ROW_14: seq<bv32> := [0x5005713C, 0x270241AA, 0xBE0B1010, 0xC90C2086, 0x5768B525, 0x206F85B3, 0xB966D409, 0xCE61E49F]
  const ROW_15: seq<bv32> := [0x5EDEF90E, 0x29D9C998, 0xB0D09822, 0xC7D7A8B4, 0x59B33D17, 0x2EB40D81, 0xB7BD5C3B, 0xC0BA6CAD]
  const ROW_16: seq<bv32> := [0xEDB88320, 0x9ABFB3B6, 0x03B6E20C, 0x74B1D29A, 0xEAD54739, 0x9DD277AF, 0x04DB2615, 0x73DC1683]
  const ROW_17: seq<bv32> := [0xE3630B12, 0x94643B84, 0x0D6D6A3E, 0x7A6A5AA8, 0xE40ECF0B, 0x9309FF9D, 0x0A00AE27, 0x7D079EB1]
  const ROW_18: seq<bv32> := [0xF00F9344, 0x8708A3D2, 0x1E01F268, 0x6906C2FE, 0xF762575D, 0x806567CB, 0x196C3671, 0x6E6B06E7]
  const ROW_19: seq<bv32> := [0xFED41B76, 0x89D32BE0, 0x10DA7A5A, 0x67DD4ACC, 0xF9B9DF6F, 0x8EBEEFF9, 0x17B7BE43, 0x60B08ED5]
  const ROW_20: seq<bv32> := [0xD6D6A3E8, 0xA1D1937E, 0x38D8C2C4, 0x4FDFF252, 0xD1BB67F1, 0xA6BC5767, 0x3FB506DD, 0x48B2364B]
  const ROW_21: seq<bv32> := [0xD80D2BDA, 0xAF0A1B4C, 0x36034AF6, 0x41047A60, 0xDF60EFC3, 0xA867DF55, 0x316E8EEF, 0x4669BE79]
  const ROW_22: seq<bv32> := [0xCB61B38C, 0xBC66831A, 0x256FD2A0, 0x5268E236, 0xCC0C7795, 0xBB0B4703, 0x220216B9, 0x5505262F]
  const ROW_23: seq<bv32> := [0xC5BA3BBE, 0xB2BD0B28, 0x2BB45A92, 0x5CB36A04, 0xC2D7FFA7, 0xB5D0CF31, 0x2CD99E8B, 0x5BDEAE1D]
  const ROW_24: seq<bv32> := [0x9B64C2B0, 0xEC63F226, 0x756AA39C, 0x026D930A, 0x9C0906A9, 0xEB0E363F, 0x72076785, 0x05005713]
  const ROW_25: seq<bv32> := [0x95BF4A82, 0xE2B87A14, 0x7BB12BAE, 0x0CB61B38, 0x92D28E9B, 0xE5D5BE0D, 0x7CDCEFB7, 0x0BDBDF21]
  const ROW_26: seq<bv32> := [0x86D3D2D4, 0xF1D4E242, 0x68DDB3F8, 0x1FDA836E, 0x81BE16CD, 0xF6B9265B, 0x6FB077E1, 0x18B74777]
  const ROW_27: seq<bv32> := [0x88085AE6, 0xFF0F6A70, 0x66063BCA, 0x11010B5C, 0x8F659EFF, 0xF862AE69, 0x616BFFD3, 0x166CCF45]
  const ROW_28: seq<bv32> := [0xA00AE278, 0xD70DD2EE, 0x4E048354, 0x3903B3C2, 0xA7672661, 0xD06016F7, 0x4969474D, 0x3E6E77DB]
  const ROW_29: seq<bv32> := [0xAED16A4A, 0xD9D65ADC, 0x40DF0B66, 0x37D83BF0, 0xA9BCAE53, 0xDEBB9EC5, 0x47B2CF7F, 0x30B5FFE9]
  const ROW_30: seq<bv32> := [0xBDBDF21C, 0xCABAC28A, 0x53B39330, 0x24B4A3A6, 0xBAD03605, 0xCDD70693, 0x54DE5729, 0x23D967BF]
  const ROW_31: seq<bv32> := [0xB3667A2E, 0xC4614AB8, 0x5D681B02, 0x2A6F2B94, 0xB40BBE37, 0xC30C8EA1, 0x5A05DF1B, 0x2D02EF8D]

  function Row(r: bv32): (row: seq<bv32>)
    ensures |row| == 8
  {
    if r == 0 then ROW_00 else if r == 1 then ROW_01 else if r == 2 then ROW_02 else if r == 3 then ROW_03 else
    if r == 4 then ROW_04 else if r == 5 then ROW_05 else if r == 6 then ROW_06 else if r == 7 then ROW_07 else
    if r == 8 then ROW_08 else if r == 9 then ROW_09 else if r == 10 then ROW_10 else if r == 11 then ROW_11 else
    if r == 12 then ROW_12 else if r == 13 then ROW_13 else if r == 14 then ROW_14 else if r == 15 then ROW_15 else
    if r == 16 then ROW_16 else if r == 17 then ROW_17 else if r == 18 then ROW_18 else if r == 19 then ROW_19 else
    if r == 20 then ROW_20 else if r == 21 then ROW_21 else if r == 22 then ROW_22 else if r == 23 then ROW_23 else
    if r == 24 then ROW_24 else if r == 25 then ROW_25 else if r == 26 then ROW_26 else if r == 27 then ROW_27 else
    if r == 28 then ROW_28 else if r == 29 then ROW_29 else if r == 30 then ROW_30 else ROW_31
  }

  function Lookup(i: bv32): bv32
    requires i < 256
  {
    Row(i >> 3)[(i & 7) as nat]
  }

  /** The shifts are linear, so eight of them are the sum of what they make of single bits. */
  function Bits(i: bv32): bv32
  {
    (if i & 1 == 0 then 0 else 0x77073096) ^ (if i & 2 == 0 then 0 else 0xEE0E612C)
    ^ (if i & 4 == 0 then 0 else 0x076DC419) ^ (if i & 8 == 0 then 0 else 0x0EDB8832)
    ^ (if i & 16 == 0 then 0 else 0x1DB71064) ^ (if i & 32 == 0 then 0 else 0x3B6E20C8)
    ^ (if i & 64 == 0 then 0 else 0x76DC4190) ^ (if i & 128 == 0 then 0 else 0xEDB88320)
  }

  lemma BitsCorrect(i: bv32)
    requires i < 256
    ensures Bits(i) == Shift8(POLYNOMIAL, i)
  {
  }

  function RowOf(b: bv32): seq<bv32>
  {
    [Bits(b), Bits(b + 1), Bits(b + 2), Bits(b + 3), Bits(b + 4), Bits(b + 5), Bits(b + 6), Bits(b + 7)]
  }

  lemma Rows0()
    ensures ROW_00 == RowOf(0) && ROW_01 == RowOf(8) && ROW_02 == RowOf(16) && ROW_03 == RowOf(24)
  {
  }

  lemma Rows1()
    ensures ROW_04 == RowOf(32) && ROW_05 == RowOf(40) && ROW_06 == RowOf(48) && ROW_07 == RowOf(56)
  {
  }

  lemma Rows2()
    ensures ROW_08 == RowOf(64) && ROW_09 == RowOf(72) && ROW_10 == RowOf(80) && ROW_11 == RowOf(88)
  {
  }

  lemma Rows3()
    ensures ROW_12 == RowOf(96) && ROW_13 == RowOf(104) && ROW_14 == RowOf(112) && ROW_15 == RowOf(120)
  {
  }

  lemma Rows4()
    ensures ROW_16 == RowOf(128) && ROW_17 == RowOf(136) && ROW_18 == RowOf(144) && ROW_19 == RowOf(152)
  {
  }

  lemma Rows5()
    ensures ROW_20 == RowOf(160) && ROW_21 == RowOf(168) && ROW_22 == RowOf(176) && ROW_23 == RowOf(184)
  {
  }

  lemma Rows6()
    ensures ROW_24 == RowOf(192) && ROW_25 == RowOf(200) && ROW_26 == RowOf(208) && ROW_27 == RowOf(216)
  {
  }

  lemma Rows7()
    ensures ROW_28 == RowOf(224) && ROW_29 == RowOf(232) && ROW_30 == RowOf(240) && ROW_31 == RowOf(248)
  {
  }

  lemma AllRows(r: bv32)
    requires r < 32
    ensures Row(r) == RowOf(r << 3)
  {
    hide RowOf;
    if r < 4 { Rows0(); if r == 0 {} else if r == 1 {} else if r == 2 {} else {} }
    else if r < 8 { Rows1(); if r == 4 {} else if r == 5 {} else if r == 6 {} else {} }
    else if r < 12 { Rows2(); if r == 8 {} else if r == 9 {} else if r == 10 {} else {} }
    else if r < 16 { Rows3(); if r == 12 {} else if r == 13 {} else if r == 14 {} else {} }
    else if r < 20 { Rows4(); if r == 16 {} else if r == 17 {} else if r == 18 {} else {} }
    else if r < 24 { Rows5(); if r == 20 {} else if r == 21 {} else if r == 22 {} else {} }
    else if r < 28 { Rows6(); if r == 24 {} else if r == 25 {} else if r == 26 {} else {} }
    else { Rows7(); if r == 28 {} else if r == 29 {} else if r == 30 {} else {} }
  }

  /** Every table entry is what eight single-bit shifts make of its index. */
  lemma LookupCorrect(i: bv32)
    requires i < 256
    ensures Lookup(i) == Shift8(POLYNOMIAL, i)
  {
    hide Shift8, Row, Bits;
    BitsCorrect(i);
    AllRows(i >> 3);
    RowEntry(i, (i >> 3) << 3);
  }

  lemma RowEntry(i: bv32, b: bv32)
    requires i < 256 && b == (i >> 3) << 3
    ensures RowOf(b)[(i & 7) as nat] == Bits(i)
  {
    hide Bits;
    if i & 7 == 0 {} else if i & 7 == 1 {} else if i & 7 == 2 {} else if i & 7 == 3 {}
    else if i & 7 == 4 {} else if i & 7 == 5 {} else if i & 7 == 6 {} else {}
  }

  /** One table lookup does the work of eight bit shifts. */
  lemma TableStep(crc: bv32, b: byte)
    ensures Xor(crc >> 8, Lookup(Xor(crc, b as bv32) & 0xff)) == Step(POLYNOMIAL, crc, b)
  {
    hide Xor, Shift8, Lookup;
    var x := Xor(crc, b as bv32);
    ByteDropped(crc, b);
    LookupCorrect(x & 0xff);
    ByteAtOnce(POLYNOMIAL, x);
    XorCommutes(crc >> 8, Shift8(POLYNOMIAL, x & 0xff));
  }

  lemma ByteDropped(crc: bv32, b: byte)
    ensures Xor(crc, b as bv32) >> 8 == crc >> 8
  {
  }

  lemma XorCommutes(a: bv32, b: bv32)
    ensures Xor(a, b) == Xor(b, a)
  {
  }

  /** xcrc32: a loop over the table, continuing from any starting value. */
  method Xcrc32(buf: seq<byte>, init: bv32) returns (crc: bv32)
    ensures crc == Fold(POLYNOMIAL, init, buf)
  {
    crc := init;
    for i := 0 to |buf|
      invariant crc == Fold(POLYNOMIAL, init, buf[..i])
    {
      TableStep(crc, buf[i]);
      assert buf[..i + 1][..i] == buf[..i];
      crc := Xor(crc >> 8, Lookup(Xor(crc, buf[i] as bv32) & 0xff));
    }
    assert buf[..|buf|] == buf;
  }
}
