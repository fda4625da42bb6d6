/** Frames on the serial line: start flag, type, length, checksum, payload, end flag. */
module Frame {
  import opened Bytes
  import Upload

  const START_REQUEST: u16 := 0x0210
  const BLOCK_RESPONSE: u16 := 0x0211
  const TX_BUF_SIZE: nat := 64
  const RX_BUF_SIZE: nat := 64

  datatype Fault = StartChar | EndChar | BadMsg | CrcError
  datatype Outcome = Delivered(msgType: u16, msgLen: u16) | Rejected(sta: Fault)

  /** The bytes from the start of a message on; a length field can point anywhere in them. */
  type Memory = s: seq<byte> | |s| >= 65542 witness seq(65542, _ => 0)

  function Mix(a: byte, b: byte): byte { a ^ b }

  function XorAll(data: seq<byte>): byte
  {
    if data == [] then 0 else Mix(XorAll(data[..|data| - 1]), data[|data| - 1])
  }

  function HeaderSum(msgType: u16, len: u16): byte
  {
    Mix(Mix(Mix(Low(msgType), High(msgType)), Low(len)), High(len))
  }

  function CheckSum(msgType: u16, data: seq<byte>): byte
    requires |data| < 0x1_0000
  {
    Mix(HeaderSum(msgType, |data|), XorAll(data))
  }

  function Framed(msgType: u16, data: seq<byte>): (r: seq<byte>)
    requires |data| < 0x1_0000
    ensures |r| == |data| + 7
  {
    [0x55, High(msgType), Low(msgType), High(|data|), Low(|data|), CheckSum(msgType, data)] + data + [0xAA]
  }

  predicate Known(msgType: u16)
  {
    msgType == START_REQUEST || msgType == BLOCK_RESPONSE
  }

  lemma MixAssociates(a: byte, b: byte, c: byte)
    ensures Mix(Mix(a, b), c) == Mix(a, Mix(b, c))
  {
  }

  lemma MixCancels(a: byte, b: byte, c: byte)
    ensures Mix(a, c) == Mix(b, c) ==> a == b
    ensures Mix(c, a) == Mix(c, b) ==> a == b
    ensures Mix(a, 0) == a
  {
  }

  // ----- the three functions of the driver -----

  /** crc8Calc */
  method Crc8Calc(msgType: u16, len: u16, data: seq<byte>) returns (crc8: byte)
    requires len <= |data|
    ensures crc8 == CheckSum(msgType, data[..len])
  {
    hide Mix, High, Low;
    crc8 := Mix(Mix(Mix(Low(msgType), High(msgType)), Low(len)), High(len));
    MixCancels(crc8, 0, 0);
    var i := 0;
    while i < len
      invariant i <= len && crc8 == Mix(HeaderSum(msgType, len), XorAll(data[..i]))
    {
      MixAssociates(HeaderSum(msgType, len), XorAll(data[..i]), data[i]);
      assert data[..i + 1][..i] == data[..i];
      crc8 := Mix(crc8, data[i]);
      i := i + 1;
    }
  }

  /** bootloader_uartTx: fills the transmit buffer from its start. */
  method UartTx(uartTxBuf: array<byte>, msgType: u16, len: u16, data: seq<byte>) returns (sent: nat)
    requires uartTxBuf.Length == TX_BUF_SIZE && len <= |data| && len + 7 <= TX_BUF_SIZE
    modifies uartTxBuf
    ensures sent == len + 7 && uartTxBuf[..sent] == Framed(msgType, data[..len])
    ensures forall k :: sent <= k < TX_BUF_SIZE ==> uartTxBuf[k] == old(uartTxBuf[k])
  {
    hide CheckSum, High, Low;
    var crc8 := Crc8Calc(msgType, len, data);
    PutHeader(uartTxBuf, msgType, len, crc8);
    sent := 6;
    ghost var head := uartTxBuf[..6];
    for i := 0 to len
      invariant sent == 6 + i && uartTxBuf[..sent] == head + data[..i]
      invariant forall k :: sent <= k < TX_BUF_SIZE ==> uartTxBuf[k] == old(uartTxBuf[k])
    {
      Put(uartTxBuf, sent, data[i]);
      assert head + data[..i + 1] == head + data[..i] + [data[i]];
      sent := sent + 1;
    }
    Put(uartTxBuf, sent, 0xAA);
    sent := sent + 1;
  }

  method PutHeader(uartTxBuf: array<byte>, msgType: u16, len: u16, crc8: byte)
    requires uartTxBuf.Length == TX_BUF_SIZE
    modifies uartTxBuf
    ensures uartTxBuf[..6] == [0x55, High(msgType), Low(msgType), High(len), Low(len), crc8]
    ensures forall k :: 6 <= k < TX_BUF_SIZE ==> uartTxBuf[k] == old(uartTxBuf[k])
  {
    uartTxBuf[0], uartTxBuf[1], uartTxBuf[2] := 0x55, High(msgType), Low(msgType);
    uartTxBuf[3], uartTxBuf[4], uartTxBuf[5] := High(len), Low(len), crc8;
  }

  method Put(uartTxBuf: array<byte>, at: nat, b: byte)
    requires at < uartTxBuf.Length
    modifies uartTxBuf
    ensures uartTxBuf[..at + 1] == old(uartTxBuf[..at]) + [b]
    ensures forall k :: at < k < uartTxBuf.Length ==> uartTxBuf[k] == old(uartTxBuf[k])
  {
    uartTxBuf[at] := b;
  }

  /** bootloader_uartRxDataProc: a message is handed on exactly if it is what the sender would have built
      for an accepted type. */
  method UartRxDataProc(buf: Memory) returns (out: Outcome)
    ensures forall t: u16, n: u16 :: Carries(buf, t, n) <==> out == Delivered(t, n)
    ensures out == Rejected(StartChar) <==> buf[0] != 0x55
    ensures out == Rejected(EndChar) <==> buf[0] == 0x55 && buf[6 + U16Of(buf[3], buf[4])] != 0xAA
    ensures out == Rejected(BadMsg) <==>
              buf[0] == 0x55 && buf[6 + U16Of(buf[3], buf[4])] == 0xAA && !Known(U16Of(buf[1], buf[2]))
  {
    hide Mix, High, Low, XorAll, HeaderSum, U16Of, CheckSum, Carries;
    forall t: u16, n: u16
      ensures Carries(buf, t, n) <==> Arrives(buf, t, n)
    {
      CarriesArrives(buf, t, n);
    }
    if buf[0] != 0x55 {
      return Rejected(StartChar);
    }
    var msgType := U16Of(buf[1], buf[2]);
    var msgLen := U16Of(buf[3], buf[4]);
    if buf[6 + msgLen] != 0xAA {
      return Rejected(EndChar);
    }
    if !(msgType == START_REQUEST || msgType == BLOCK_RESPONSE) {
      return Rejected(BadMsg);
    }
    var crc8 := Crc8Calc(msgType, msgLen, buf[6..]);
    assert buf[6..][..msgLen] == buf[6..6 + msgLen];
    if buf[5] == crc8 {
      out := Delivered(msgType, msgLen);
    } else {
      out := Rejected(CrcError);
    }
  }

  /** The buffer starts with a frame that the sender would have built for an accepted type. */
  predicate Carries(buf: Memory, t: u16, n: u16)
  {
    Known(t) && buf[..n + 7] == Framed(t, buf[6..6 + n])
  }

  /** The comparisons of the receiver, which add up to the same. */
  predicate Arrives(buf: Memory, t: u16, n: u16)
  {
    buf[0] == 0x55 && t == U16Of(buf[1], buf[2]) && n == U16Of(buf[3], buf[4]) && buf[6 + n] == 0xAA && Known(t)
    && buf[5] == CheckSum(t, buf[6..6 + n])
  }

  lemma CarriesArrives(buf: Memory, t: u16, n: u16)
    ensures Carries(buf, t, n) <==> Arrives(buf, t, n)
  {
    hide High, Low, CheckSum, U16Of;
    if Carries(buf, t, n) {
      FramedArrives(buf, t, n);
    }
    if Arrives(buf, t, n) {
      ArrivesFramed(buf, t, n);
    }
  }

  lemma FramedArrives(buf: Memory, t: u16, n: u16)
    requires Carries(buf, t, n)
    ensures Arrives(buf, t, n)
  {
    hide High, Low, CheckSum, U16Of;
    U16RoundTrip(t);
    U16RoundTrip(n);
    var f := buf[..n + 7];
    assert buf[0] == f[0] && buf[1] == f[1] && buf[2] == f[2] && buf[3] == f[3] && buf[4] == f[4] && buf[5] == f[5];
    assert buf[6 + n] == f[6 + n];
  }

  lemma ArrivesFramed(buf: Memory, t: u16, n: u16)
    requires Arrives(buf, t, n)
    ensures buf[..n + 7] == Framed(t, buf[6..6 + n])
  {
    hide High, Low, CheckSum, U16Of;
    U16Unique(buf[1], buf[2]);
    U16Unique(buf[3], buf[4]);
    var f, g := buf[..n + 7], Framed(t, buf[6..6 + n]);
    forall i | 0 <= i < n + 7
      ensures f[i] == g[i]
    {
      if 6 <= i < 6 + n {
        assert g[i] == buf[6..6 + n][i - 6];
      }
    }
  }

  // ----- round trip and damage -----

  /** A frame at the head of the buffer arrives with its type and payload, and nothing else does. */
  lemma FrameRoundTrip(t: u16, data: seq<byte>, buf: Memory)
    requires Known(t) && |data| < 0x1_0000 && buf[..|data| + 7] == Framed(t, data)
    ensures buf[6..6 + |data|] == data
    ensures forall t': u16, n: u16 :: Carries(buf, t', n) <==> t' == t && n == |data|
  {
    hide High, Low, CheckSum, U16Of;
    var f := buf[..|data| + 7];
    forall i | 0 <= i < |data|
      ensures buf[6..6 + |data|][i] == data[i]
    {
      assert buf[6 + i] == f[6 + i];
    }
    assert buf[6..6 + |data|] == data;
    assert Carries(buf, t, |data|);
    FramedArrives(buf, t, |data|);
    forall t': u16, n: u16 | Carries(buf, t', n)
      ensures t' == t && n == |data|
    {
      FramedArrives(buf, t', n);
    }
  }

  lemma {:induction false} XorAllChanged(s: seq<byte>, t: seq<byte>, i: nat)
    requires |s| == |t| && i < |s| && s[i] != t[i] && s[..i] == t[..i] && s[i + 1..] == t[i + 1..]
    ensures XorAll(s) != XorAll(t)
    decreases |s|
  {
    hide Mix;
    var n := |s| - 1;
    MixCancels(s[n], t[n], XorAll(s[..n]));
    MixCancels(XorAll(s[..n]), XorAll(t[..n]), s[n]);
    if i < n {
      assert s[n] == s[i + 1..][n - i - 1] && t[n] == t[i + 1..][n - i - 1];
      SuffixSame(s, t, i);
      assert s[..n][..i] == s[..i] && t[..n][..i] == t[..i];
      XorAllChanged(s[..n], t[..n], i);
    } else {
      assert s[..n] == t[..n];
    }
  }

  lemma SuffixSame(s: seq<byte>, t: seq<byte>, i: nat)
    requires |s| == |t| && i < |s| - 1 && s[i + 1..] == t[i + 1..]
    ensures s[..|s| - 1][i + 1..] == t[..|t| - 1][i + 1..]
  {
    var n := |s| - 1;
    assert s[..n][i + 1..] == s[i + 1..][..n - i - 1] && t[..n][i + 1..] == t[i + 1..][..n - i - 1];
  }

  /** Any single damaged byte is noticed, wherever it falls outside the two length bytes. */
  lemma DamageRejected(t: u16, data: seq<byte>, buf: Memory, i: nat, bad: Memory)
    requires Known(t) && |data| < 0x1_0000 && buf[..|data| + 7] == Framed(t, data)
    requires i < |data| + 7 && i != 3 && i != 4 && bad == buf[i := bad[i]] && bad[i] != buf[i]
    ensures forall t': u16, n: u16 :: !Carries(bad, t', n)
  {
    hide High, Low, U16Of, Mix, Known, XorAll, Carries, CheckSum;
    FrameRoundTrip(t, data, buf);
    FramedArrives(buf, t, |data|);
    forall t': u16, n: u16 | Carries(bad, t', n)
      ensures false
    {
      FramedArrives(bad, t', n);
      if 6 <= i < 6 + n {
        assert bad[6..6 + n] == data[i - 6 := bad[i]];
        PayloadDamage(t, data, bad[6..6 + n], i - 6, bad[i]);
      } else {
        HeaderDamage(t, t', data, buf, i, bad);
      }
    }
  }

  lemma HeaderDamage(t: u16, t': u16, data: seq<byte>, buf: Memory, i: nat, bad: Memory)
    requires |data| < 0x1_0000 && buf[6..6 + |data|] == data && Arrives(buf, t, |data|)
    requires (i in {0, 1, 2, 5} || i == 6 + |data|) && bad == buf[i := bad[i]] && bad[i] != buf[i]
    ensures !Arrives(bad, t', |data|)
  {
    hide High, Low, U16Of, Mix, Known, XorAll, CheckSum;
    assert bad[6..6 + |data|] == data;
    if (i == 1 || i == 2) && t' == U16Of(bad[1], bad[2]) {
      TypeDamage(t, t', data, buf[1], buf[2], bad[1], bad[2]);
    }
  }

  lemma PayloadDamage(t: u16, data: seq<byte>, bad: seq<byte>, i: nat, b: byte)
    requires |data| < 0x1_0000 && i < |data| && b != data[i] && bad == data[i := b]
    ensures CheckSum(t, data) != CheckSum(t, bad)
  {
    hide Mix, XorAll, High, Low;
    XorAllChanged(data, bad, i);
    MixCancels(XorAll(data), XorAll(bad), HeaderSum(t, |data|));
  }

  lemma TypeDamage(t: u16, t': u16, data: seq<byte>, hi: byte, lo: byte, hi': byte, lo': byte)
    requires t == U16Of(hi, lo) && t' == U16Of(hi', lo') && |data| < 0x1_0000
    requires (hi == hi') != (lo == lo')
    ensures CheckSum(t, data) != CheckSum(t', data)
  {
    hide XorAll, High, Low, U16Of, Mix;
    U16Unique(hi, lo);
    U16Unique(hi', lo');
    var l, h := Low(|data|), High(|data|);
    MixCancels(lo, lo', hi);
    MixCancels(hi, hi', lo);
    MixCancels(Mix(lo, hi), Mix(lo', hi'), l);
    MixCancels(Mix(Mix(lo, hi), l), Mix(Mix(lo', hi'), l), h);
    MixCancels(HeaderSum(t, |data|), HeaderSum(t', |data|), XorAll(data));
  }

  /** What a length field adds to the checksum. */
  function LengthSum(n: u16): byte { Mix(Low(n), High(n)) }

  /** The bytes that a wrong length n takes out of the payload, or takes into it from the memory behind it. */
  function Between(data: seq<byte>, buf: Memory, n: u16): seq<byte>
    requires |data| < 0x1_0000
  {
    if n <= |data| then data[n..] else buf[6 + |data|..6 + n]
  }

  /** Damage to the length bytes goes unnoticed exactly if the byte at the new end is an end flag and the bytes lost
      or gained mix up to the difference of the two lengths. */
  lemma LengthDamageIff(t: u16, data: seq<byte>, buf: Memory, n: u16, bad: Memory)
    requires Known(t) && |data| < 0x1_0000 && buf[..|data| + 7] == Framed(t, data)
    requires bad == buf[3 := High(n)][4 := Low(n)]
    ensures forall t': u16, m: u16 :: Carries(bad, t', m) <==>
              t' == t && m == n && buf[6 + n] == 0xAA
              && XorAll(Between(data, buf, n)) == Mix(LengthSum(|data|), LengthSum(n))
  {
    hide High, Low, U16Of, Mix, XorAll, Carries, CheckSum, LengthSum, Between;
    FrameRoundTrip(t, data, buf);
    FramedArrives(buf, t, |data|);
    U16RoundTrip(n);
    assert bad[6..6 + n] == buf[6..6 + n];
    LengthBalance(t, data, buf, n);
    forall t': u16, m: u16
      ensures Carries(bad, t', m) <==> Arrives(bad, t', m)
    {
      CarriesArrives(bad, t', m);
    }
  }

  lemma LengthBalance(t: u16, data: seq<byte>, buf: Memory, n: u16)
    requires |data| < 0x1_0000 && buf[6..6 + |data|] == data
    ensures CheckSum(t, data) == CheckSum(t, buf[6..6 + n]) <==>
              XorAll(Between(data, buf, n)) == Mix(LengthSum(|data|), LengthSum(n))
  {
    hide High, Low, Mix, XorAll;
    var other := buf[6..6 + n];
    var x := Mix(Low(t), High(t));
    if n <= |data| {
      assert other == data[..n] && data == other + data[n..];
      XorAllAppend(other, data[n..]);
      Balanced(x, Low(|data|), High(|data|), Low(n), High(n), XorAll(other), XorAll(data[n..]));
    } else {
      var more := buf[6 + |data|..6 + n];
      assert other == data + more;
      XorAllAppend(data, more);
      Balanced(x, Low(n), High(n), Low(|data|), High(|data|), XorAll(data), XorAll(more));
      MixCommutes(LengthSum(n), LengthSum(|data|));
    }
  }

  /** The checksum of a longer payload equals that of its first part exactly if the rest makes up for the lengths. */
  lemma Balanced(x: byte, l: byte, h: byte, l': byte, h': byte, part: byte, rest: byte)
    ensures Mix(Mix(Mix(x, l), h), Mix(part, rest)) == Mix(Mix(Mix(x, l'), h'), part)
       <==> rest == Mix(Mix(l, h), Mix(l', h'))
  {
    hide Mix;
    Gathered(x, l, h, part, rest);
    Gathered(x, l', h', part, 0);
    MixCancels(part, part, 0);
    MixCancels(Mix(Mix(x, part), Mix(l', h')), 0, 0);
    Solved(Mix(x, part), Mix(l, h), Mix(l', h'), rest);
  }

  lemma Gathered(x: byte, l: byte, h: byte, part: byte, rest: byte)
    ensures Mix(Mix(Mix(x, l), h), Mix(part, rest)) == Mix(Mix(Mix(x, part), Mix(l, h)), rest)
  {
    hide Mix;
    var a := Mix(l, h);
    MixAssociates(x, l, h);
    MixAssociates(Mix(x, a), part, rest);
    MixAssociates(x, a, part);
    MixCommutes(a, part);
    MixAssociates(x, part, a);
  }

  lemma Solved(p: byte, a: byte, b: byte, rest: byte)
    ensures Mix(Mix(p, a), rest) == Mix(p, b) <==> rest == Mix(a, b)
  {
    hide Mix;
    MixAssociates(p, a, rest);
    MixCancels(Mix(a, rest), b, p);
    MixTwice(a, rest);
    MixTwice(a, b);
  }

  lemma MixTwice(a: byte, b: byte)
    ensures Mix(a, Mix(a, b)) == b
  {
  }

  lemma MixCommutes(a: byte, b: byte)
    ensures Mix(a, b) == Mix(b, a)
  {
  }

  lemma {:induction false} XorAllAppend(a: seq<byte>, b: seq<byte>)
    ensures XorAll(a + b) == Mix(XorAll(a), XorAll(b))
    decreases |b|
  {
    hide Mix;
    if b == [] {
      assert a + b == a;
      MixCancels(XorAll(a), 0, 0);
    } else {
      var n := |b| - 1;
      assert (a + b)[..|a| + n] == a + b[..n];
      XorAllAppend(a, b[..n]);
      MixAssociates(XorAll(a), XorAll(b[..n]), b[n]);
    }
  }

  /** For a shorter length the condition is about the payload alone, so a sender could check it. */
  lemma ShorterLengthAccepted(t: u16, data: seq<byte>, buf: Memory, n: u16, bad: Memory)
    requires Known(t) && |data| < 0x1_0000 && buf[..|data| + 7] == Framed(t, data)
    requires bad == buf[3 := High(n)][4 := Low(n)] && n < |data|
    ensures Carries(bad, t, n) <==>
              data[n] == 0xAA && XorAll(data[n..]) == Mix(LengthSum(|data|), LengthSum(n))
  {
    hide High, Low, U16Of, Mix, XorAll, Carries, CheckSum, LengthSum, Framed;
    LengthDamageIff(t, data, buf, n, bad);
    FrameRoundTrip(t, data, buf);
    assert buf[6 + n] == buf[6..6 + |data|][n];
  }

  /** Such frames exist: this frame, its length damaged to zero, still arrives. */
  lemma LengthDamageAccepted(buf: Memory, bad: Memory)
    requires buf[..9] == Framed(START_REQUEST, [0xAA, 0xA8]) && bad == buf[4 := 0]
    ensures Carries(buf, START_REQUEST, 2) && Carries(bad, START_REQUEST, 0)
  {
    hide XorAll, High, Low, U16Of, Mix, CheckSum, Framed;
    FrameRoundTrip(START_REQUEST, [0xAA, 0xA8], buf);
    FramedArrives(buf, START_REQUEST, 2);
    assert bad[6..6] == [] && buf[6] == buf[6..8][0];
    SameSum();
    U16RoundTrip(2);
    U16Unique(buf[3], buf[4]);
    LowTwo();
    U16RoundTrip(0);
    CarriesArrives(bad, START_REQUEST, 0);
  }

  lemma SameSum()
    ensures CheckSum(START_REQUEST, [0xAA, 0xA8]) == CheckSum(START_REQUEST, [])
  {
    var data: seq<byte> := [0xAA, 0xA8];
    assert XorAll(data) == 0x02 by {
      assert data[..1] == [0xAA] && [0xAA][..0] == [];
      hide CheckSum;
    }
    hide XorAll, START_REQUEST;
    EmptySum();
    LowTwo();
    Regroup(Mix(Low(START_REQUEST), High(START_REQUEST)), High(0));
    hide Low, High;
  }

  lemma EmptySum()
    ensures XorAll([]) == 0
  {
  }

  lemma LowTwo()
    ensures High(2) == High(0) && Low(0) == 0 && Low(2) == 2
  {
  }

  lemma Regroup(h: byte, z: byte)
    ensures Mix(Mix(Mix(h, 2), z), 2) == Mix(Mix(Mix(h, 0), z), 0)
  {
  }

  // ----- what the driver's buffer lets through -----

  /** bootloader_uartRxHandler: the length filter on received data. */
  method UartRxHandler(rx: seq<byte>) returns (queued: Option<seq<byte>>)
    ensures queued.Some? ==> queued.value == rx
    ensures queued.Some? <==> 0 < |rx| <= 60
  {
    if |rx| != 0 && |rx| <= RX_BUF_SIZE - 4 {
      queued := Some(rx);
    } else {
      queued := None;
    }
  }

  /** The sender can frame 57 bytes, the receiver's filter passes frames of up to 53. */
  lemma LongFramesDropped(t: u16, data: seq<byte>)
    requires |data| <= 57
    ensures 0 < |Framed(t, data)| <= RX_BUF_SIZE - 4 <==> |data| <= 53
    ensures |Framed(t, data)| <= TX_BUF_SIZE
  {
  }

  // ----- messages of the upload -----

  function BlockMessage(status: u8, o: u32, block: seq<byte>): (r: seq<byte>)
    requires |block| < 256
    ensures |r| == 6 + |block|
  {
    [ToByte(status)] + BigEndian(o) + [ToByte(|block|)] + block
  }

  /** How bootloader_upgrade reads a delivered message; fields it reads past the payload come from the memory behind. */
  function EventOf(msgType: u16, buf: Memory): Upload.Event
  {
    if msgType == START_REQUEST then Upload.Start(FromBigEndian(buf[6..10]))
    else Upload.Response(ByteValue(buf[6]), FromBigEndian(buf[7..11]), ByteValue(buf[11]), buf[12..52])
  }

  /** A block response arrives with its status, good or bad, and with everything else the sender put into it. */
  lemma BlockArrives(status: u8, o: u32, block: seq<byte>, buf: Memory)
    requires |block| <= 40
    requires buf[..|block| + 13] == Framed(BLOCK_RESPONSE, BlockMessage(status, o, block))
    ensures Carries(buf, BLOCK_RESPONSE, |block| + 6)
    ensures var e := EventOf(BLOCK_RESPONSE, buf);
      e.status == status && e.offset == o && e.len == |block| && e.payload[..|block|] == block
  {
    hide ToByte, ByteValue, CheckSum, High, Low, U16Of, FromBigEndian;
    var data := BlockMessage(status, o, block);
    FrameRoundTrip(BLOCK_RESPONSE, data, buf);
    ByteRoundTrip(|block|);
    ByteRoundTrip(status);
    BigEndianRoundTrip(o);
    assert buf[6] == data[0];
    assert buf[7..11] == data[1..5] == BigEndian(o);
    assert buf[12..52][..|block|] == data[6..] == block;
  }

  lemma StartArrives(size: u32, buf: Memory)
    requires buf[..11] == Framed(START_REQUEST, BigEndian(size))
    ensures Carries(buf, START_REQUEST, 4) && EventOf(START_REQUEST, buf) == Upload.Start(size)
  {
    hide CheckSum, High, Low, U16Of, FromBigEndian, BigEndian;
    FrameRoundTrip(START_REQUEST, BigEndian(size), buf);
    BigEndianRoundTrip(size);
  }
}
