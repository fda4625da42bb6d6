/** Whole sessions of the host-interface receiver: the result does not depend on how the image is cut up. */
module HciRuns {
  import opened Bytes
  import opened Flash
  import opened HciOta
  import Crc32
  import Crc32Table

  datatype Chunk = Chunk(len: u8, payload: Payload)

  /** A block from the sender, or the timer that asks for one again. */
  datatype Item = Sent(c: Chunk) | Tick

  function Content(items: seq<Item>): seq<byte>
  {
    if items == [] then []
    else
      Content(items[..|items| - 1])
      + if items[|items| - 1].Sent? then items[|items| - 1].c.payload[..items[|items| - 1].c.len] else []
  }

  /** Ticks since the last block. */
  function Waiting(items: seq<Item>): nat
  {
    if items == [] || items[|items| - 1].Sent? then 0 else Waiting(items[..|items| - 1]) + 1
  }

  /** A sender's next block; the sender counts its own offset. */
  function Deliver(s: State, o: nat, c: Chunk): State
  {
    if Sound(s) && o < 0x1_0000_0000 then Received(s, 0, o, c.len, c.payload).to else s
  }

  /** The block timer runs out, if it is running. */
  function Ticks(s: State): State
  {
    if Sound(s) && s.timer == BlockTimer then Ticked(s).to else s
  }

  function Fed(s: State, items: seq<Item>): State
    decreases |items|
  {
    if items == [] then s
    else
      var before := Fed(s, items[..|items| - 1]);
      match items[|items| - 1]
      case Sent(c) => Deliver(before, |Content(items[..|items| - 1])|, c)
      case Tick => Ticks(before)
  }

  lemma {:induction false} FedSameSize(s: State, items: seq<Item>)
    ensures |Fed(s, items).cells| == |s.cells|
    decreases |items|
  {
    hide Deliver;
    if items != [] {
      var init := items[..|items| - 1];
      FedSameSize(s, init);
      if items[|items| - 1].Sent? {
        DeliverSameSize(Fed(s, init), |Content(init)|, items[|items| - 1].c);
      }
    }
  }

  lemma DeliverSameSize(s: State, o: nat, c: Chunk)
    ensures |Deliver(s, o, c).cells| == |s.cells|
  {
    hide Verified, Kept, Crc32.Fold;
  }

  function Masked(img: seq<byte>): (r: seq<byte>)
    ensures |r| == |img|
  {
    if |img| > 8 then img[8 := 0xff] else img
  }

  function CrcOf(data: seq<byte>): bv32
  {
    Crc32.Fold(Crc32Table.POLYNOMIAL, 0xffffffff, data)
  }

  /** Bytes that the running CRC has taken in after o bytes of a file of the given size. */
  function Covered(size: nat, o: nat): (r: nat)
    requires o <= size
    ensures r <= size
  {
    if o + 4 <= size then o else if size < 4 then 0 else size - 4
  }

  /** A file that ends with the CRC of the rest and carries the start-up flag, as stored with the flag held back. */
  predicate Good(img: seq<byte>)
  {
    12 <= |img| && img[8..12] == [0x4b, 0x4e, 0x4c, 0x54]
    && Word32(Masked(img)[|img| - 4..]) == CrcOf(img[..|img| - 4])
  }

  function Room(size: nat): (r: nat)
    ensures r >= 4096 && size < r
  {
    4096 * (size / 4096 + 1)
  }

  /** Storage of a session after o bytes: what was received, erased behind it. */
  predicate Holds(s: State, start: nat, stored: seq<byte>, o: nat)
  {
    start + Room(|stored|) <= |s.cells| && o <= |stored| && |stored| < 0x1000000 && start % 4096 == 0
    && s.cells[start..start + o] == stored[..o]
    && Blank(s.cells, start + o, start + Room(|stored|))
  }

  /** A session under way. */
  predicate Under(s: State, start: nat, size: nat, o: nat)
  {
    s.info.start == start && s.info.total == size && s.info.offset == o && o < size && s.timer == BlockTimer
  }

  /** A local session: the running CRC covers exactly the bytes received, short of the last four of the file. */
  predicate LocalShape(s: State, start: nat, img: seq<byte>, o: nat)
  {
    Under(s, start, |img|, o) && s.info.binType == LOCAL_BIN && Holds(s, start, Masked(img), o)
    && s.info.crc == CrcOf(img[..Covered(|img|, o)])
    && (o > 8 ==> img[8] == 0x4b)
  }

  predicate Failed(t: State, start: nat)
  {
    t.info == IDLE && t.timer == Off && Blank(t.cells, start, start + 4096)
  }

  /** Where a local session stands after o bytes, however they were cut. */
  predicate LocalOutcome(t: State, start: nat, img: seq<byte>, o: nat)
    requires o <= |img|
  {
    if o > 8 && img[8] != 0x4b then Failed(t, start)
    else if o < |img| then LocalShape(t, start, img, o)
    else if Good(img) then t.info == IDLE && t.timer == RebootTimer && Holds(t, start, Masked(img), |img|)
    else Failed(t, start)
  }

  lemma CrcAdvances(img: seq<byte>, o: nat, c: Chunk)
    requires |img| < 0x1000000 && 0 < c.len && o + c.len <= |img| && c.payload[..c.len] == img[o..o + c.len]
    ensures Crc32.Fold(Crc32Table.POLYNOMIAL, CrcOf(img[..Covered(|img|, o)]), c.payload[..CrcLen(|img|, o, c.len)])
         == CrcOf(img[..Covered(|img|, o + c.len)])
  {
    hide Crc32.Fold;
    var n := CrcLen(|img|, o, c.len);
    assert c.payload[..n] == c.payload[..c.len][..n] == img[o..o + c.len][..n] == img[o..o + n];
    assert img[..Covered(|img|, o)] + c.payload[..n] == img[..Covered(|img|, o + c.len)];
    Crc32.FoldAppend(Crc32Table.POLYNOMIAL, 0xffffffff, img[..Covered(|img|, o)], c.payload[..n]);
  }

  lemma PieceStored(s: State, start: nat, stored: seq<byte>, o: nat, piece: seq<byte>)
    requires Holds(s, start, stored, o) && o + |piece| <= |stored| && piece == stored[o..o + |piece|]
    ensures Holds(s.(cells := Programmed(s.cells, start + o, piece)), start, stored, o + |piece|)
  {
    hide Programmed, Blank;
    PrefixExtends(s.cells, start, start + o, piece, start + Room(|stored|));
    assert stored[..o] + piece == stored[..o + |piece|];
  }

  lemma MaskedPiece(img: seq<byte>, o: nat, c: Chunk)
    requires o + c.len <= |img| && c.payload[..c.len] == img[o..o + c.len]
    ensures o <= 8 < o + c.len ==>
              c.payload[8 - o] == img[8] && c.payload[8 - o := 0xff][..c.len] == Masked(img)[o..o + c.len]
    ensures o <= 8 == o + c.len ==> c.payload[8 - o := 0xff][..c.len] == Masked(img)[o..o + c.len]
    ensures !(o <= 8 < o + c.len) ==> c.payload[..c.len] == Masked(img)[o..o + c.len]
  {
    if o <= 8 < o + c.len {
      assert c.payload[..c.len][8 - o] == img[8];
    }
  }

  lemma EndOfImage(t: State, start: nat, img: seq<byte>)
    requires Holds(t, start, Masked(img), |img|) && t.info.start == start && t.info.total == |img| > 0
    requires t.info.crc == CrcOf(img[..Covered(|img|, |img|)]) && (|img| > 8 ==> img[8] == 0x4b)
    ensures Verified(t) <==> Good(img)
  {
    hide Word32, CrcOf, Masked;
    if |img| < 12 {
      assert t.cells[start + 8..start + 12][3] == 0xff;
    } else {
      TailStored(t.cells, start, Masked(img));
      FlagBytes(img);
      hide Holds;
      assert Covered(|img|, |img|) == |img| - 4;
    }
  }

  lemma TailStored(cells: seq<byte>, start: nat, stored: seq<byte>)
    requires start + |stored| <= |cells| && |stored| >= 12 && cells[start..start + |stored|] == stored[..|stored|]
    ensures cells[start + 8..start + 12] == stored[8..12]
    ensures cells[start + |stored| - 4..start + |stored|] == stored[|stored| - 4..]
  {
    var n := |stored|;
    SubSlice(cells, start, start + n, start + 8, start + 12);
    SubSlice(cells, start, start + n, start + n - 4, start + n);
    assert stored[..n] == stored;
  }

  lemma FlagBytes(img: seq<byte>)
    requires |img| >= 12 && img[8] == 0x4b
    ensures Masked(img)[8..12] == [0xff, 0x4e, 0x4c, 0x54] <==> img[8..12] == [0x4b, 0x4e, 0x4c, 0x54]
  {
    assert Masked(img)[8..12] == [0xff, img[9], img[10], img[11]];
    assert img[8..12] == [img[8], img[9], img[10], img[11]];
  }

  lemma FailedWiped(cells: seq<byte>, start: nat, o: nat)
    requires start + 4096 <= |cells| && o < 0x1000000
    ensures Blank(Wiped(cells, start, 4096 * ((o / 4096 + 1) % 65536)), start, start + 4096)
  {
  }

  lemma LocalStored(v: State, start: nat, img: seq<byte>, o: nat, len: u8, piece: seq<byte>)
    requires v.info.start == start && v.info.total == |img| && v.info.offset == o && v.info.binType == LOCAL_BIN
    requires v.timer == Off && Holds(v, start, Masked(img), o)
    requires 0 < len && o + len <= |img| && piece == Masked(img)[o..o + len]
    requires v.info.crc == CrcOf(img[..Covered(|img|, o + len)]) && (o + len > 8 ==> img[8] == 0x4b)
    ensures LocalOutcome(Stored(v, len, piece).to, start, img, o + len)
  {
    hide Stored, Programmed, Wiped, Blank, Verified, Good, CrcOf, Masked;
    PieceStored(v, start, Masked(img), o, piece);
    StoredChecked(v, len, piece);
    if o + len == |img| {
      var t := v.(info := v.info.(offset := |img|), cells := Programmed(v.cells, start + o, piece));
      EndOfImage(t, start, img);
      FailedWiped(t.cells, start, |img|);
    }
  }

  lemma StoredChecked(v: State, len: u8, piece: seq<byte>)
    requires v.info.offset + len <= v.info.total && v.info.binType == LOCAL_BIN
    ensures var o := v.info.offset + len;
      var t := v.(info := v.info.(offset := o), cells := Programmed(v.cells, v.info.start + v.info.offset, piece));
      Stored(v, len, piece).to
        == if o < v.info.total then t.(info := t.info.(requestCnt := 0), timer := BlockTimer)
           else if Verified(t) then State(IDLE, RebootTimer, t.cells)
           else State(IDLE, v.timer, Wiped(t.cells, v.info.start, 4096 * ((o / 4096 + 1) % 65536)))
  {
    hide Verified, Wiped, Programmed;
  }

  /** One block, by cases: refused for its flag byte, or stored masked. */
  lemma LocalReceived(s: State, start: nat, img: seq<byte>, o: nat, c: Chunk)
    requires LocalShape(s, start, img, o) && 0 < c.len && o + c.len <= |img|
    requires c.payload[..c.len] == img[o..o + c.len]
    requires o + c.len == 8 ==> c.payload[c.len] == 0x4b
    ensures var v := State(s.info.(crc := CrcOf(img[..Covered(|img|, o + c.len)])), Off, s.cells);
      Deliver(s, o, c) == Received(s, 0, o, c.len, c.payload).to
      && Received(s, 0, o, c.len, c.payload)
           == if o <= 8 < o + c.len && img[8] != 0x4b then Ended(v, IncorrectData)
              else Stored(v, c.len, Masked(img)[o..o + c.len])
  {
    hide Crc32.Fold, Stored, Ended, Blank, CrcOf;
    MaskedPiece(img, o, c);
    CrcAdvances(img, o, c);
    hide Masked;
  }

  lemma LocalStep(s: State, start: nat, img: seq<byte>, o: nat, c: Chunk)
    requires LocalShape(s, start, img, o) && 0 < c.len && o + c.len <= |img|
    requires c.payload[..c.len] == img[o..o + c.len]
    requires o + c.len == 8 ==> c.payload[c.len] == 0x4b
    ensures LocalOutcome(Deliver(s, o, c), start, img, o + c.len)
  {
    hide Stored, Wiped, Blank, CrcOf, Deliver, Masked;
    LocalReceived(s, start, img, o, c);
    var v := State(s.info.(crc := CrcOf(img[..Covered(|img|, o + c.len)])), Off, s.cells);
    if o <= 8 < o + c.len && img[8] != 0x4b {
      FailedWiped(s.cells, start, o);
    } else {
      LocalStored(v, start, img, o, c.len, Masked(img)[o..o + c.len]);
    }
  }

  /** The other side is told of success with the last block of a good image, of a failure with the block that shows the
      wrong flag byte or the last one of a bad image, and nothing otherwise. */
  lemma LocalTold(s: State, start: nat, img: seq<byte>, o: nat, c: Chunk)
    requires LocalShape(s, start, img, o) && 0 < c.len && o + c.len <= |img|
    requires c.payload[..c.len] == img[o..o + c.len]
    requires o + c.len == 8 ==> c.payload[c.len] == 0x4b
    ensures var sent := Received(s, 0, o, c.len, c.payload).sent;
      sent == if o <= 8 < o + c.len && img[8] != 0x4b then OtaEnd(|img|, o, IncorrectData)
              else if o + c.len < |img| then Silent
              else OtaEnd(|img|, |img|, if Good(img) then Success else IncorrectData)
  {
    hide Stored, Wiped, Blank, CrcOf, Deliver, Masked, Programmed, Verified, Good;
    LocalReceived(s, start, img, o, c);
    var v := State(s.info.(crc := CrcOf(img[..Covered(|img|, o + c.len)])), Off, s.cells);
    if !(o <= 8 < o + c.len && img[8] != 0x4b) {
      var piece := Masked(img)[o..o + c.len];
      StoredTold(v, c.len, piece);
      if o + c.len == |img| {
        PieceStored(v, start, Masked(img), o, piece);
        EndOfImage(v.(info := v.info.(offset := |img|), cells := Programmed(v.cells, start + o, piece)), start, img);
      }
    }
  }

  lemma StoredTold(v: State, len: u8, piece: seq<byte>)
    requires v.info.offset + len <= v.info.total < 0x1_0000_0000 && v.info.binType == LOCAL_BIN
    ensures var o := v.info.offset + len;
      var t := v.(info := v.info.(offset := o), cells := Programmed(v.cells, v.info.start + v.info.offset, piece));
      Stored(v, len, piece).sent
        == if o < v.info.total then Silent
           else OtaEnd(v.info.total, o, if Verified(t) then Success else IncorrectData)
  {
    hide Verified, Wiped, Programmed;
  }

  lemma StartLocal(lay: Layout, s: State, boot: nat, img: seq<byte>)
    requires Fits(lay, s.cells) && !s.info.started && 0 < |img| < lay.max
    ensures var t := Started(lay, s, Some(boot), |img|, Some(LOCAL_BIN)).to;
      LocalShape(t, if boot != 0 then 0 else lay.otaAddr, img, 0) && t.info.requestCnt == 0
  {
    RoomFits(lay, |img|);
    assert img[..0] == [];
  }

  lemma RoomFits(lay: Layout, size: nat)
    requires size < lay.max && lay.max % 4096 == 0
    ensures Room(size) <= lay.max
  {
  }

  /** The blocks sent so far are a piece of the file from its start. */
  predicate Cuts(img: seq<byte>, items: seq<Item>)
  {
    |Content(items)| <= |img| && Content(items) == img[..|Content(items)|]
    && forall i :: 0 <= i < |items| && items[i].Sent? ==> 0 < items[i].c.len
  }

  /** The sender answers before the sixth tick in a row. */
  predicate Timely(items: seq<Item>)
  {
    forall i :: 0 <= i <= |items| ==> Waiting(items[..i]) <= RETRY_MAX
  }

  /** No block ends right before the flag byte, unless the byte behind it in memory looks like that flag byte. */
  predicate ClearOfFlag(items: seq<Item>)
  {
    forall i :: 0 <= i < |items| && items[i].Sent? && |Content(items[..i])| + items[i].c.len == 8 ==>
      items[i].c.payload[items[i].c.len] == 0x4b
  }

  lemma CutsPrefix(img: seq<byte>, items: seq<Item>)
    requires Cuts(img, items) && items != []
    ensures var init, last := items[..|items| - 1], items[|items| - 1]; var o := |Content(init)|;
      Cuts(img, init) && |Content(items)| <= |img|
      && (last.Tick? ==> Content(items) == Content(init))
      && (last.Sent? ==> o + last.c.len == |Content(items)| && 0 < last.c.len
                         && last.c.payload[..last.c.len] == img[o..o + last.c.len])
  {
    var init, last := items[..|items| - 1], items[|items| - 1];
    var o := |Content(init)|;
    var whole := Content(items);
    assert whole[..o] == Content(init) && img[..|whole|][..o] == img[..o];
    if last.Sent? {
      assert whole[o..] == last.c.payload[..last.c.len] && img[..|whole|][o..] == img[o..|whole|];
    } else {
      assert whole == Content(init);
    }
  }

  lemma ClearPrefix(items: seq<Item>)
    requires ClearOfFlag(items) && items != []
    ensures ClearOfFlag(items[..|items| - 1])
  {
    var init := items[..|items| - 1];
    forall i | 0 <= i < |init| && init[i].Sent? && |Content(init[..i])| + init[i].c.len == 8
      ensures init[i].c.payload[init[i].c.len] == 0x4b
    {
      assert init[..i] == items[..i];
    }
  }

  lemma TimelyPrefix(items: seq<Item>)
    requires Timely(items) && items != []
    ensures Timely(items[..|items| - 1]) && Waiting(items) <= RETRY_MAX
  {
    var init := items[..|items| - 1];
    assert items[..|items|] == items;
    forall i | 0 <= i <= |init|
      ensures Waiting(init[..i]) <= RETRY_MAX
    {
      assert init[..i] == items[..i];
    }
  }

  /** While the block timer runs it has asked once for each tick since the last block. */
  predicate Asked(s: State, items: seq<Item>)
  {
    s.timer == BlockTimer ==> s.info.requestCnt == Waiting(items)
  }

  /** A block restarts the count, or stops the timer, or is ignored. */
  lemma DeliverAsks(s: State, o: nat, c: Chunk)
    requires s.timer == BlockTimer ==> Sound(s) && s.info.offset == o < 0x1000000
    ensures Deliver(s, o, c).timer == BlockTimer ==> Deliver(s, o, c).info.requestCnt == 0
  {
    hide Verified, Kept, Crc32.Fold, Wiped, Programmed;
  }

  /** However a local image is cut into non-empty blocks, and however often the timer asks in between without giving
      up, the running CRC after o bytes covers exactly the first min(o, size - 4), and the session succeeds exactly
      if the image ends with the CRC of the rest and is flagged. */
  lemma {:induction false} SplitIndependent(
    lay: Layout, s: State, boot: nat, img: seq<byte>, items: seq<Item>)
    requires Fits(lay, s.cells) && !s.info.started && 0 < |img| < lay.max
    requires Cuts(img, items) && ClearOfFlag(items) && Timely(items)
    ensures var t := Fed(Started(lay, s, Some(boot), |img|, Some(LOCAL_BIN)).to, items);
      LocalOutcome(t, if boot != 0 then 0 else lay.otaAddr, img, |Content(items)|) && Asked(t, items)
    decreases |items|
  {
    hide LocalShape, Good, Started, Failed, Deliver, Ticks, Timely, Cuts, ClearOfFlag;
    var start := if boot != 0 then 0 else lay.otaAddr;
    var s0 := Started(lay, s, Some(boot), |img|, Some(LOCAL_BIN)).to;
    StartLocal(lay, s, boot, img);
    if items != [] {
      var init, last := items[..|items| - 1], items[|items| - 1];
      CutsPrefix(img, items);
      ClearPrefix(items);
      TimelyPrefix(items);
      SplitIndependent(lay, s, boot, img, init);
      var t, o := Fed(s0, init), |Content(init)|;
      LocalUnder(t, start, img, o);
      if last.Sent? {
        LastClear(items);
        LocalContinues(t, start, img, o, last.c);
        DeliverAsks(t, o, last.c);
      } else {
        LocalTicks(t, start, img, o);
      }
    }
  }

  lemma LastClear(items: seq<Item>)
    requires ClearOfFlag(items) && items != [] && items[|items| - 1].Sent?
    ensures var c := items[|items| - 1].c;
      |Content(items[..|items| - 1])| + c.len == 8 ==> c.payload[c.len] == 0x4b
  {
  }

  lemma LocalUnder(t: State, start: nat, img: seq<byte>, o: nat)
    requires o <= |img| && LocalOutcome(t, start, img, o)
    ensures t.timer == BlockTimer ==> Sound(t) && t.info.offset == o < 0x1000000 && o < |img|
    ensures t.timer != BlockTimer ==> t.info == IDLE
  {
    hide Good, CrcOf, Blank;
  }

  /** A tick before the sixth changes nothing but the count. */
  lemma LocalTicks(t: State, start: nat, img: seq<byte>, o: nat)
    requires o <= |img| && LocalOutcome(t, start, img, o) && (t.timer == BlockTimer ==> t.info.requestCnt < RETRY_MAX)
    ensures var u := Ticks(t);
      LocalOutcome(u, start, img, o) && u.timer == t.timer
      && (t.timer == BlockTimer ==> u.info.requestCnt == t.info.requestCnt + 1)
  {
    hide Good, CrcOf, Blank;
  }

  /** The sixth ends the session. */
  lemma SixthTickEnds(t: State, start: nat, img: seq<byte>, o: nat)
    requires LocalShape(t, start, img, o) && t.info.requestCnt >= RETRY_MAX
    ensures Failed(Ticks(t), start)
  {
    hide CrcOf;
    FailedWiped(t.cells, start, o);
  }

  lemma LocalContinues(s: State, start: nat, img: seq<byte>, o: nat, c: Chunk)
    requires o + c.len <= |img| && LocalOutcome(s, start, img, o)
    requires 0 < c.len && c.payload[..c.len] == img[o..o + c.len]
    requires o + c.len == 8 ==> c.payload[c.len] == 0x4b
    ensures LocalOutcome(Deliver(s, o, c), start, img, o + c.len)
  {
    hide LocalShape, Good;
    if o > 8 && img[8] != 0x4b {
      LateBlockIgnored(s, o, c);
    } else {
      LocalStep(s, start, img, o, c);
    }
  }

  lemma LateBlockIgnored(s: State, o: nat, c: Chunk)
    requires s.info == IDLE && o > 0
    ensures Deliver(s, o, c) == s
  {
  }

  /** From 13 bytes on the flag byte lies outside the compared four, and the check is about the file itself. */
  lemma GoodMeansSealed(img: seq<byte>)
    requires |img| >= 13
    ensures Good(img) <==>
              img[8..12] == [0x4b, 0x4e, 0x4c, 0x54] && Word32(img[|img| - 4..]) == CrcOf(img[..|img| - 4])
  {
    assert Masked(img)[|img| - 4..] == img[|img| - 4..];
  }

  /** A block that ends right before the flag byte makes the outcome depend on the memory behind the message. */
  lemma SplitAtFlagReadsBehind(s: State, start: nat, img: seq<byte>, o: nat, c: Chunk)
    requires LocalShape(s, start, img, o) && 0 < c.len && o + c.len == 8 < |img| && c.payload[..c.len] == img[o..8]
    ensures LocalShape(Deliver(s, o, c), start, img, 8) <==> c.payload[c.len] == 0x4b
    ensures Failed(Deliver(s, o, c), start) <==> c.payload[c.len] != 0x4b
  {
    hide Crc32.Fold, Programmed, Wiped, Blank, Verified, Word32, Good, CrcOf;
    if c.payload[c.len] == 0x4b {
      LocalStep(s, start, img, o, c);
    } else {
      FailedWiped(s.cells, start, o);
    }
  }

  /** Once the flag byte is programmed, the area holds the image as it was sent. */
  lemma RebootRestoresImage(t: State, start: nat, img: seq<byte>)
    requires Holds(t, start, Masked(img), |img|) && Good(img)
    ensures Programmed(t.cells, start + FLAG_OFFSET, [0x4b])[start..start + |img|] == img
  {
    hide Word32, CrcOf;
    var after := Programmed(t.cells, start + FLAG_OFFSET, [0x4b]);
    assert img[8..12][0] == img[8];
    forall i | 0 <= i < |img|
      ensures after[start..start + |img|][i] == img[i]
    {
      assert t.cells[start..start + |img|][i] == Masked(img)[..|img|][i] == Masked(img)[i];
    }
  }

  // ----- the check before the reset -----

  /** The check repeated before the reset is the same one, made on the stored image with its flag byte put in. */
  lemma NewImageIffGood(lay: Layout, cells: seq<byte>, addr: nat)
    requires addr + 256 <= |cells| && addr + lay.max <= |cells| && 13 <= SizeField(cells, addr)
    ensures NewImageValid(lay, cells, addr) <==>
              SizeField(cells, addr) <= lay.max
              && Good(cells[addr..addr + SizeField(cells, addr)][8 := 0x4b])
  {
    hide SizeField, Word32, Crc32.Fold, Good;
    var n := SizeField(cells, addr);
    if n <= lay.max {
      var img := cells[addr..addr + n][8 := 0x4b];
      GoodMeansSealed(img);
      SubSlice(cells, addr, addr + n, addr + 9, addr + 12);
      SubSlice(cells, addr, addr + n, addr + n - 4, addr + n);
      SubSlice(cells, addr, addr + n, addr, addr + n - 4);
      assert img[8..12] == [0x4b] + img[9..12] && img[9..12] == cells[addr + 9..addr + 12];
      assert img[n - 4..] == cells[addr + n - 4..addr + n];
      FrontCovered(cells, addr, n, img);
    }
  }

  lemma FrontCovered(cells: seq<byte>, addr: nat, n: nat, img: seq<byte>)
    requires addr + n <= |cells| && 13 <= n && img == cells[addr..addr + n][8 := 0x4b]
    ensures img[..n - 4] == CoveredBytes(cells, addr, n)
  {
  }

  /** It lets no stored image through that was damaged in up to four adjacent bytes behind the size field. */
  lemma DamagedNewImageRejected(lay: Layout, f: seq<byte>, g: seq<byte>, addr: nat, i: nat)
    requires |f| == |g| && addr + 256 <= |f| && addr + lay.max <= |f| && 32 <= SizeField(f, addr)
    requires NewImageValid(lay, f, addr) && 0x1c <= i && SameOutside(f, g, addr + i, addr + i + 4)
    requires f[addr..addr + SizeField(f, addr)] != g[addr..addr + SizeField(f, addr)]
    ensures !NewImageValid(lay, g, addr)
  {
    hide NewImageValid, U32Of, Word32, Crc32.Fold, CoveredBytes, Good;
    var n := SizeField(f, addr);
    assert f[addr + 0x18..addr + 0x1c] == g[addr + 0x18..addr + 0x1c];
    NewImageIffGood(lay, f, addr);
    NewImageIffGood(lay, g, addr);
    if NewImageValid(lay, g, addr) {
      var a, b := f[addr..addr + n][8 := 0x4b], g[addr..addr + n][8 := 0x4b];
      GoodMeansSealed(a);
      GoodMeansSealed(b);
      SameFront(f, g, addr, i, n);
      Crc32.SealBroken(Crc32Table.POLYNOMIAL, a, b, i);
      assert false;
    }
  }

  lemma SameFront(f: seq<byte>, g: seq<byte>, addr: nat, i: nat, n: nat)
    requires addr + n <= |f| == |g| && 32 <= n && 0x1c <= i && SameOutside(f, g, addr + i, addr + i + 4)
    requires f[addr..addr + n] != g[addr..addr + n]
    ensures var a, b := f[addr..addr + n][8 := 0x4b], g[addr..addr + n][8 := 0x4b];
      a != b && Crc32.AgreeOutside(a, b, i)
  {
    var k :| 0 <= k < n && f[addr..addr + n][k] != g[addr..addr + n][k];
    assert f[addr + k] != g[addr + k];
    var a, b := f[addr..addr + n][8 := 0x4b], g[addr..addr + n][8 := 0x4b];
    assert a[k] != b[k];
  }

  // ----- relayed files -----

  predicate RemoteShape(s: State, start: nat, file: seq<byte>, o: nat)
  {
    Under(s, start, |file|, o) && s.info.binType != LOCAL_BIN && Holds(s, start, file, o)
    && s.info.findBootFlag == (o >= 12)
    && (forall k :: 0 <= k < 4 && 8 + k < o ==> s.info.bootFlag[k] == file[8 + k])
    && (o >= 12 ==> file[8..12] != [0x4b, 0x4e, 0x4c, 0x54])
  }

  /** A relayed file must not itself be a bootable image. */
  predicate RemoteOutcome(t: State, start: nat, file: seq<byte>, o: nat)
    requires o <= |file|
  {
    if o >= 12 && file[8..12] == [0x4b, 0x4e, 0x4c, 0x54] then Failed(t, start)
    else if o < |file| then RemoteShape(t, start, file, o)
    else t.info == IDLE && t.timer == Off && Holds(t, start, file, |file|)
  }

  lemma KeptAdvances(s: State, file: seq<byte>, o: nat, c: Chunk)
    requires o + c.len <= |file| && c.payload[..c.len] == file[o..o + c.len] && s.info.offset == o
    requires forall k :: 0 <= k < 4 && 8 + k < o ==> s.info.bootFlag[k] == file[8 + k]
    ensures forall k :: 0 <= k < 4 && 8 + k < o + c.len ==> Kept(s.info, c.len, c.payload)[k] == file[8 + k]
    ensures o + c.len >= 12 ==> Kept(s.info, c.len, c.payload) == file[8..12]
  {
    forall k | 0 <= k < 4 && 8 + k < o + c.len
      ensures Kept(s.info, c.len, c.payload)[k] == file[8 + k]
    {
      if o <= 8 + k {
        assert c.payload[..c.len][8 + k - o] == file[o..o + c.len][8 + k - o];
      }
    }
    if o + c.len >= 12 {
      assert forall k :: 0 <= k < 4 ==> Kept(s.info, c.len, c.payload)[k] == file[8..12][k];
    }
  }

  lemma RemoteReceived(s: State, start: nat, file: seq<byte>, o: nat, c: Chunk)
    requires RemoteShape(s, start, file, o) && 0 < c.len && o + c.len <= |file|
    requires c.payload[..c.len] == file[o..o + c.len]
    ensures var v := State(s.info.(findBootFlag := o + c.len >= 12,
                                   bootFlag := if o >= 12 then s.info.bootFlag else Kept(s.info, c.len, c.payload)),
                           Off, s.cells);
      Deliver(s, o, c)
        == if o < 12 <= o + c.len && file[8..12] == [0x4b, 0x4e, 0x4c, 0x54] then Ended(v, MatchBootFlag).to
           else Stored(v, c.len, file[o..o + c.len]).to
  {
    hide Kept, Stored, Ended, Crc32.Fold, Holds;
    KeptAdvances(s, file, o, c);
  }

  lemma RemoteStored(v: State, start: nat, file: seq<byte>, o: nat, len: u8)
    requires v.info.start == start && v.info.total == |file| && v.info.offset == o && v.info.binType != LOCAL_BIN
    requires v.timer == Off && Holds(v, start, file, o) && 0 < len && o + len <= |file|
    requires v.info.findBootFlag == (o + len >= 12)
    requires forall k :: 0 <= k < 4 && 8 + k < o + len ==> v.info.bootFlag[k] == file[8 + k]
    requires o + len >= 12 ==> file[8..12] != [0x4b, 0x4e, 0x4c, 0x54]
    ensures RemoteOutcome(Stored(v, len, file[o..o + len]).to, start, file, o + len)
  {
    hide Stored, Programmed, Holds;
    var piece := file[o..o + len];
    RemoteRoom(v, start, file, o);
    PieceStored(v, start, file, o, piece);
    var cells := Programmed(v.cells, start + o, piece);
    var t := if o + len < |file| then State(v.info.(offset := o + len, requestCnt := 0), BlockTimer, cells)
             else State(IDLE, Off, cells);
    StoredPlain(v, len, piece);
    SameCellsHold(v.(cells := cells), t, start, file, o + len);
  }

  lemma StoredPlain(v: State, len: u8, piece: seq<byte>)
    requires v.info.offset + len <= v.info.total && v.info.binType != LOCAL_BIN
    ensures var o := v.info.offset + len; var cells := Programmed(v.cells, v.info.start + v.info.offset, piece);
      Stored(v, len, piece).to
        == if o < v.info.total then State(v.info.(offset := o, requestCnt := 0), BlockTimer, cells)
           else State(IDLE, v.timer, cells)
  {
  }

  lemma RemoteRoom(v: State, start: nat, file: seq<byte>, o: nat)
    requires Holds(v, start, file, o)
    ensures |file| < 0x1000000
  {
  }

  lemma SameCellsHold(v: State, t: State, start: nat, stored: seq<byte>, o: nat)
    requires Holds(v, start, stored, o) && t.cells == v.cells
    ensures Holds(t, start, stored, o)
  {
  }

  lemma RemoteStep(s: State, start: nat, file: seq<byte>, o: nat, c: Chunk)
    requires RemoteShape(s, start, file, o) && 0 < c.len && o + c.len <= |file|
    requires c.payload[..c.len] == file[o..o + c.len]
    ensures RemoteOutcome(Deliver(s, o, c), start, file, o + c.len)
  {
    hide Stored, Wiped, Blank, Kept, Deliver;
    KeptAdvances(s, file, o, c);
    RemoteReceived(s, start, file, o, c);
    var v := State(s.info.(findBootFlag := o + c.len >= 12,
                           bootFlag := if o >= 12 then s.info.bootFlag else Kept(s.info, c.len, c.payload)),
                   Off, s.cells);
    if o < 12 <= o + c.len && file[8..12] == [0x4b, 0x4e, 0x4c, 0x54] {
      FailedWiped(s.cells, start, o);
    } else {
      RemoteStored(v, start, file, o, c.len);
    }
  }

  lemma StartRemote(lay: Layout, s: State, boot: nat, file: seq<byte>, bin: Option<u8>)
    requires Fits(lay, s.cells) && !s.info.started && 0 < |file| < lay.max && bin != Some(LOCAL_BIN)
    ensures var t := Started(lay, s, Some(boot), |file|, bin).to;
      RemoteShape(t, if boot != 0 then 0 else lay.otaAddr, file, 0) && t.info.requestCnt == 0
  {
    RoomFits(lay, |file|);
  }

  /** However a relayed file is cut, and however often the timer asks in between without giving up, it is refused
      exactly if it carries the start-up flag itself, and stored unchanged otherwise; here blocks may also end right
      before the flag. */
  lemma {:induction false} RemoteSplitIndependent(
    lay: Layout, s: State, boot: nat, file: seq<byte>, bin: Option<u8>, items: seq<Item>)
    requires Fits(lay, s.cells) && !s.info.started && 0 < |file| < lay.max && bin != Some(LOCAL_BIN)
    requires Cuts(file, items) && Timely(items)
    ensures var t := Fed(Started(lay, s, Some(boot), |file|, bin).to, items);
      RemoteOutcome(t, if boot != 0 then 0 else lay.otaAddr, file, |Content(items)|) && Asked(t, items)
    decreases |items|
  {
    hide RemoteShape, Started, Failed, Deliver, Ticks, Timely, Cuts;
    var start := if boot != 0 then 0 else lay.otaAddr;
    var s0 := Started(lay, s, Some(boot), |file|, bin).to;
    StartRemote(lay, s, boot, file, bin);
    if items != [] {
      var init, last := items[..|items| - 1], items[|items| - 1];
      CutsPrefix(file, items);
      TimelyPrefix(items);
      RemoteSplitIndependent(lay, s, boot, file, bin, init);
      var t, o := Fed(s0, init), |Content(init)|;
      RemoteUnder(t, start, file, o);
      if last.Tick? {
        RemoteTicks(t, start, file, o);
      } else {
        RemoteContinues(t, start, file, o, last.c);
        DeliverAsks(t, o, last.c);
      }
    }
  }

  lemma RemoteUnder(t: State, start: nat, file: seq<byte>, o: nat)
    requires o <= |file| && RemoteOutcome(t, start, file, o)
    ensures t.timer == BlockTimer ==> Sound(t) && t.info.offset == o < 0x1000000
  {
    hide Blank;
  }

  lemma RemoteTicks(t: State, start: nat, file: seq<byte>, o: nat)
    requires o <= |file| && RemoteOutcome(t, start, file, o)
    requires t.timer == BlockTimer ==> t.info.requestCnt < RETRY_MAX
    ensures var u := Ticks(t);
      RemoteOutcome(u, start, file, o) && u.timer == t.timer
      && (t.timer == BlockTimer ==> u.info.requestCnt == t.info.requestCnt + 1)
  {
    hide Blank;
  }

  lemma RemoteContinues(s: State, start: nat, file: seq<byte>, o: nat, c: Chunk)
    requires o + c.len <= |file| && RemoteOutcome(s, start, file, o)
    requires 0 < c.len && c.payload[..c.len] == file[o..o + c.len]
    ensures RemoteOutcome(Deliver(s, o, c), start, file, o + c.len)
  {
    hide RemoteShape, Deliver;
    if o >= 12 && file[8..12] == [0x4b, 0x4e, 0x4c, 0x54] {
      FailedIdle(s, start);
      LateBlockIgnored(s, o, c);
    } else {
      RemoteStep(s, start, file, o, c);
    }
  }

  lemma FailedIdle(t: State, start: nat)
    requires Failed(t, start)
    ensures t.info == IDLE
  {
  }

  // ----- how long a session lasts -----

  /** Whatever the other side sends, or the timer. */
  datatype Event = Alarm | Response(status: u8, offset: u32, len: u8, payload: Payload)

  function Hear(s: State, e: Event): State
    requires Sound(s)
  {
    match e
    case Alarm => Ticks(s)
    case Response(status, offset, len, payload) => Received(s, status, offset, len, payload).to
  }

  /** A session whose timer runs, or none at all. */
  predicate Clear(s: State)
  {
    Sound(s) && s.info.total < 0x1000000
    && if s.timer == BlockTimer then s.info.requestCnt <= RETRY_MAX else s.info == IDLE
  }

  function After(s: State, es: seq<Event>): (r: State)
    requires Clear(s)
    ensures Clear(r)
    decreases |es|
  {
    if es == [] then s
    else
      HearClear(After(s, es[..|es| - 1]), es[|es| - 1]);
      Hear(After(s, es[..|es| - 1]), es[|es| - 1])
  }

  lemma StoredClear(v: State, len: u8, block: seq<byte>)
    requires Sound(v) && v.info.total < 0x1000000 && v.timer == Off
    ensures var t := Stored(v, len, block).to;
      Clear(t) && (t.timer == BlockTimer ==>
                     t.info.offset == v.info.offset + len < t.info.total == v.info.total && t.info.requestCnt == 0)
  {
    hide Verified, Wiped, Programmed;
  }

  lemma HearClear(s: State, e: Event)
    requires Clear(s)
    ensures Clear(Hear(s, e))
    ensures s.info == IDLE && s.timer != BlockTimer ==> Hear(s, e).timer != BlockTimer
  {
    HearSteps(s, e);
  }

  function Measure(s: State): int
  {
    if s.timer == BlockTimer then 7 * (s.info.total - s.info.offset) + 7 - s.info.requestCnt else 0
  }

  /** A tick, or a block with something in it at the right offset. */
  predicate Moves(s: State, e: Event)
  {
    s.timer == BlockTimer && (e.Alarm? || (e.status == 0 && e.offset == s.info.offset && e.len > 0))
  }

  /** A block of no bytes at the right offset. */
  predicate Empty(s: State, e: Event)
  {
    s.timer == BlockTimer && e.Response? && e.status == 0 && e.offset == s.info.offset && e.len == 0
  }

  lemma HearSteps(s: State, e: Event)
    requires Clear(s)
    ensures var t := Hear(s, e);
      Clear(t) && 0 <= Measure(s) && 0 <= Measure(t)
      && (s.timer != BlockTimer ==> t.timer != BlockTimer)
      && (!Empty(s, e) ==> Measure(t) <= Measure(s)) && (Moves(s, e) ==> Measure(t) < Measure(s))
  {
    hide Stored, Wiped, Kept, Crc32.Fold;
    if e.Response? {
      forall v: State, block: seq<byte> |
        v.info.total == s.info.total && v.info.offset == s.info.offset && v.timer == Off
        ensures var t := Stored(v, e.len, block).to;
          Clear(t) && (t.timer == BlockTimer ==>
                         t.info.offset == s.info.offset + e.len < t.info.total == s.info.total && t.info.requestCnt == 0)
      {
        StoredClear(v, e.len, block);
      }
    }
  }

  function Count(s: State, es: seq<Event>): nat
    requires Clear(s)
    decreases |es|
  {
    if es == [] then 0
    else Count(s, es[..|es| - 1]) + if Moves(After(s, es[..|es| - 1]), es[|es| - 1]) then 1 else 0
  }

  predicate NoneEmpty(s: State, es: seq<Event>)
    requires Clear(s)
  {
    forall i :: 0 <= i < |es| ==> !Empty(After(s, es[..i]), es[i])
  }

  /** Without empty blocks a session takes at most as many ticks and blocks as its measure. */
  lemma {:induction false} SessionEnds(s: State, es: seq<Event>)
    requires Clear(s) && NoneEmpty(s, es)
    ensures Count(s, es) + Measure(After(s, es)) <= Measure(s)
    ensures Measure(After(s, es)) >= 0
    decreases |es|
  {
    hide Hear, Moves, Empty, Clear, Measure;
    if es == [] {
      MeasureNat(s);
    } else {
      var init := es[..|es| - 1];
      forall i | 0 <= i < |init|
        ensures !Empty(After(s, init[..i]), init[i])
      {
        assert init[..i] == es[..i];
      }
      SessionEnds(s, init);
      HearSteps(After(s, init), es[|es| - 1]);
    }
  }

  lemma MeasureNat(s: State)
    requires Clear(s)
    ensures Measure(s) >= 0
  {
  }

  /** With them it can last for ever: a tick answered by an empty block leaves a relayed session as it was. */
  lemma EmptyBlockHolds(s: State, payload: Payload)
    requires Clear(s) && s.timer == BlockTimer && s.info.requestCnt == 0 && s.info.offset < s.info.total
    requires s.info.binType != LOCAL_BIN
    ensures Sound(Hear(s, Alarm)) && Hear(Hear(s, Alarm), Response(0, s.info.offset, 0, payload)) == s
  {
    assert Kept(s.info, 0, payload) == s.info.bootFlag;
    assert Programmed(s.cells, s.info.start + s.info.offset, []) == s.cells;
  }

  // ----- what a session can touch -----

  /** Outside a session a block response is not ignored: it erases the first sector of the device. */
  lemma StrayResponse(s: State, status: u8, o: u32, len: u8, payload: Payload)
    requires s.info == IDLE
    ensures Received(s, status, o, len, payload).to.cells
         == if status != 0 || (o == 0 && len > 0) then Wiped(s.cells, 0, 4096) else s.cells
  {
    if status == 0 && o == 0 && len > 0 {
      var block := payload[..len];
      ProgrammedThenWiped(s.cells, block);
    }
  }

  lemma ProgrammedThenWiped(cells: seq<byte>, block: seq<byte>)
    requires |block| <= 255
    ensures Wiped(Programmed(cells, 0, block), 0, 4096) == Wiped(cells, 0, 4096)
  {
  }

  predicate InSession(lay: Layout, s: State)
  {
    s.info.start in {0, lay.otaAddr} && s.info.total < lay.max && s.info.offset <= s.info.total
  }

  /** Inside one, only the download area and the sector behind it can change. */
  lemma SessionStaysInArea(lay: Layout, s: State, status: u8, o: u32, len: u8, payload: Payload)
    requires Fits(lay, s.cells) && InSession(lay, s)
    ensures var t := Received(s, status, o, len, payload).to;
      SameOutside(s.cells, t.cells, s.info.start, s.info.start + lay.max + 4096)
  {
    hide Crc32.Fold, Stored, Ended, Kept, SameOutside, Crc32Table.POLYNOMIAL;
    var lo, hi := s.info.start, s.info.start + lay.max + 4096;
    forall v: State, sta: Status | v.cells == s.cells && v.info.start == lo && v.info.offset == s.info.offset
      ensures SameOutside(s.cells, Ended(v, sta).to.cells, lo, hi)
    {
      EndedInside(lay, v, sta);
    }
    forall v: State, block: seq<byte> |
      v.cells == s.cells && v.info.start == lo && v.info.offset == s.info.offset
      && v.info.total == s.info.total && |block| == len
      ensures SameOutside(s.cells, Stored(v, len, block).to.cells, lo, hi)
    {
      StoredInside(lay, v, len, block);
    }
    SameEverywhere(s.cells, lo, hi);
  }

  lemma SameEverywhere(cells: seq<byte>, lo: nat, hi: nat)
    ensures SameOutside(cells, cells, lo, hi)
  {
  }

  lemma EndedInside(lay: Layout, v: State, sta: Status)
    requires lay.max % 4096 == 0 && v.info.offset < lay.max + 255
    ensures SameOutside(v.cells, Ended(v, sta).to.cells, v.info.start, v.info.start + lay.max + 4096)
  {
  }

  lemma StoredInside(lay: Layout, v: State, len: u8, block: seq<byte>)
    requires Fits(lay, v.cells) && InSession(lay, v) && |block| == len
    ensures SameOutside(v.cells, Stored(v, len, block).to.cells, v.info.start, v.info.start + lay.max + 4096)
  {
    hide Ended, Verified;
    var cells := Programmed(v.cells, v.info.start + v.info.offset, block);
    var o := v.info.offset + len;
    forall t: State, sta: Status | t.cells == cells && t.info.start == v.info.start && t.info.offset == o
      ensures SameOutside(v.cells, Ended(t, sta).to.cells, v.info.start, v.info.start + lay.max + 4096)
    {
      EndedInside(lay, t, sta);
    }
  }

  /** A response outside a session. */
  predicate Stray(s: State, e: Event)
  {
    s.timer != BlockTimer && e.Response?
  }

  /** Over every run from inside a session, to its end and after it, only that area can change, as long as no response
      comes outside the session. */
  lemma {:induction false} RunStaysInArea(lay: Layout, s: State, es: seq<Event>)
    requires Fits(lay, s.cells) && Clear(s) && s.timer == BlockTimer && InSession(lay, s)
    requires forall i :: 0 <= i < |es| ==> !Stray(After(s, es[..i]), es[i])
    ensures var t := After(s, es);
      SameOutside(s.cells, t.cells, s.info.start, s.info.start + lay.max + 4096)
      && (t.timer == BlockTimer ==> t.info.start == s.info.start && InSession(lay, t))
    decreases |es|
  {
    hide Hear, Clear, SameOutside, InSession;
    var lo, hi := s.info.start, s.info.start + lay.max + 4096;
    if es == [] {
      SameEverywhere(s.cells, lo, hi);
    } else {
      var init, e := es[..|es| - 1], es[|es| - 1];
      forall i | 0 <= i < |init|
        ensures !Stray(After(s, init[..i]), init[i])
      {
        assert init[..i] == es[..i];
      }
      RunStaysInArea(lay, s, init);
      var t := After(s, init);
      FitsStill(lay, s.cells, t.cells, lo, hi);
      if t.timer == BlockTimer {
        HearInArea(lay, t, e);
        OutsideTwice(s.cells, t.cells, After(s, es).cells, lo, hi);
      } else {
        SilentAlarm(t, e);
      }
    }
  }

  lemma FitsStill(lay: Layout, a: seq<byte>, b: seq<byte>, lo: nat, hi: nat)
    requires Fits(lay, a) && SameOutside(a, b, lo, hi)
    ensures Fits(lay, b)
  {
  }

  lemma OutsideTwice(a: seq<byte>, b: seq<byte>, c: seq<byte>, lo: nat, hi: nat)
    requires SameOutside(a, b, lo, hi) && SameOutside(b, c, lo, hi)
    ensures SameOutside(a, c, lo, hi)
  {
  }

  lemma SilentAlarm(s: State, e: Event)
    requires Clear(s) && s.timer != BlockTimer && !Stray(s, e)
    ensures Hear(s, e) == s
  {
  }

  /** One response or tick inside a session. */
  lemma HearInArea(lay: Layout, s: State, e: Event)
    requires Fits(lay, s.cells) && Clear(s) && s.timer == BlockTimer && InSession(lay, s)
    ensures var t := Hear(s, e);
      SameOutside(s.cells, t.cells, s.info.start, s.info.start + lay.max + 4096)
      && (t.timer == BlockTimer ==> t.info.start == s.info.start && InSession(lay, t))
  {
    hide SameOutside, Received, Crc32Table.POLYNOMIAL;
    match e
    case Alarm =>
      EndedInside(lay, s, GetBlockTimeout);
      SameEverywhere(s.cells, s.info.start, s.info.start + lay.max + 4096);
    case Response(status, o, len, payload) =>
      SessionStaysInArea(lay, s, status, o, len, payload);
      SessionStays(lay, s, status, o, len, payload);
  }

  lemma SessionStays(lay: Layout, s: State, status: u8, o: u32, len: u8, payload: Payload)
    requires Sound(s) && InSession(lay, s) && lay.max <= 0x1000000
    ensures var t := Received(s, status, o, len, payload).to;
      t.timer == BlockTimer ==> t.info.start == s.info.start && InSession(lay, t)
  {
    hide Crc32.Fold, Stored, Kept, Crc32Table.POLYNOMIAL, Wiped;
    forall v: State, block: seq<byte> |
      v.info.start == s.info.start && v.info.total == s.info.total && v.info.offset == s.info.offset && v.timer == Off
      ensures var t := Stored(v, len, block).to;
        t.timer == BlockTimer ==> t.info.start == s.info.start && InSession(lay, t)
    {
      StoredStays(lay, v, len, block);
    }
  }

  lemma StoredStays(lay: Layout, v: State, len: u8, block: seq<byte>)
    requires InSession(lay, v) && lay.max <= 0x1000000 && v.timer == Off
    ensures var t := Stored(v, len, block).to;
      t.timer == BlockTimer ==> t.info.start == v.info.start && InSession(lay, t)
  {
    hide Verified, Wiped, Programmed;
  }

  /** A start request is accepted exactly outside a session, with a boot address and for a size below the limit; then
      as much is erased in the area that does not run. A refused one erases nothing, but one that is too large leaves its
      numbers behind: a response with a bad status then erases the first sector of that area. */
  lemma StartAnswered(lay: Layout, s: State, boot: Option<nat>, size: u32, bin: Option<u8>)
    requires Fits(lay, s.cells)
    ensures var r := Started(lay, s, boot, size, bin);
      var start := if boot.Some? && boot.value != 0 then 0 else lay.otaAddr;
      if s.info.started then r == Step(s, StartRsp(InProgress))
      else if boot.None? then r == Step(s, StartRsp(BootAddrError))
      else if size >= lay.max then
        r.sent == StartRsp(FileOversize) && r.to.cells == s.cells && r.to.timer == s.timer
        && (s.info == IDLE ==>
              Sound(r.to) && forall status: u8, o: u32, len: u8, payload: Payload :: status != 0 ==>
                Received(r.to, status, o, len, payload).to.cells == Wiped(s.cells, start, 4096))
      else
        r.sent == StartRsp(Success) && r.to.timer == BlockTimer && r.to.info.start == start && r.to.info.total == size
        && r.to.info.offset == 0 && Blank(r.to.cells, start, start + size)
        && SameOutside(s.cells, r.to.cells, start, start + size + 4096)
  {
  }

  // ----- what a failed session leaves -----

  /** What the other side is told. */
  function Told(s: State, e: Event): Reply
    requires Sound(s)
  {
    match e
    case Alarm => if s.timer == BlockTimer then Ticked(s).sent else Silent
    case Response(status, offset, len, payload) => Received(s, status, offset, len, payload).sent
  }

  predicate TellsFailure(r: Reply) { r.OtaEnd? && r.sta != Success }

  /** A session whose area is erased behind what it has received. */
  ghost predicate ErasedBehind(lay: Layout, s: State, start: nat, total: nat)
  {
    Fits(lay, s.cells) && InSession(lay, s) && s.info.start == start && s.info.total == total
    && Blank(s.cells, start + s.info.offset, start + Room(total))
  }

  lemma EndedErases(lay: Layout, v: State, sta: Status, start: nat, total: nat)
    requires Fits(lay, v.cells) && v.info.start == start && start in {0, lay.otaAddr} && total < lay.max
    requires v.info.offset <= total + 255 && sta != Success
    requires Blank(v.cells, start + v.info.offset, start + Room(total)) || v.info.offset > Room(total)
    ensures Blank(Ended(v, sta).to.cells, start, start + Room(total))
    ensures start + v.info.offset <= |v.cells| && Blank(Ended(v, sta).to.cells, start, start + v.info.offset)
  {
    RoomFits(lay, total);
  }

  lemma StoredErases(lay: Layout, v: State, len: u8, block: seq<byte>, start: nat, total: nat)
    requires ErasedBehind(lay, v, start, total) && v.timer == Off && |block| == len
    ensures var r := Stored(v, len, block);
      (r.to.timer == BlockTimer ==> ErasedBehind(lay, r.to, start, total))
      && (TellsFailure(r.sent) ==> Blank(r.to.cells, start, start + Room(total)))
  {
    hide Ended, Verified;
    var o := v.info.offset + len;
    var t := v.(info := v.info.(offset := o), cells := Programmed(v.cells, start + v.info.offset, block));
    StillBlank(v.cells, t.cells, start, v.info.offset, o, Room(total));
    forall u: State, sta: Status | u.cells == t.cells && u.info.start == start && u.info.offset == o && sta != Success
      ensures Blank(Ended(u, sta).to.cells, start, start + Room(total))
    {
      EndedErases(lay, u, sta, start, total);
    }
    EndedReply(t);
  }

  lemma EndedReply(t: State)
    ensures forall u: State, sta: Status :: Ended(u, sta).to.timer == u.timer && Ended(u, sta).sent.OtaEnd?
                                            && Ended(u, sta).sent.sta == sta
  {
  }

  lemma StillBlank(a: seq<byte>, b: seq<byte>, start: nat, from: nat, o: nat, room: nat)
    requires from <= o && Blank(a, start + from, start + room) && |a| == |b|
    requires forall i :: 0 <= i < |a| && !(start + from <= i < start + o) ==> a[i] == b[i]
    ensures Blank(b, start + o, start + room) || o > room
  {
  }

  /** One tick or response inside a session. */
  lemma HearErases(lay: Layout, s: State, e: Event, start: nat, total: nat)
    requires Clear(s) && s.timer == BlockTimer && ErasedBehind(lay, s, start, total)
    ensures var t := Hear(s, e);
      (t.timer == BlockTimer ==> ErasedBehind(lay, t, start, total))
      && (TellsFailure(Told(s, e)) ==> Blank(t.cells, start, start + Room(total)))
  {
    hide Received, Blank, Room;
    match e
    case Alarm =>
      EndedErases(lay, s, GetBlockTimeout, start, total);
    case Response(status, o, len, payload) =>
      ReceivedErases(lay, s, status, o, len, payload, start, total);
  }

  lemma ReceivedErases(
    lay: Layout, s: State, status: u8, o: u32, len: u8, payload: Payload, start: nat, total: nat)
    requires Sound(s) && ErasedBehind(lay, s, start, total)
    ensures var r := Received(s, status, o, len, payload);
      (r.to.timer == BlockTimer ==> ErasedBehind(lay, r.to, start, total))
      && (TellsFailure(r.sent) ==> Blank(r.to.cells, start, start + Room(total)))
  {
    hide Crc32.Fold, Stored, Ended, Kept, Crc32Table.POLYNOMIAL, Room;
    forall v: State, block: seq<byte> |
      v.cells == s.cells && v.info.start == start && v.info.total == total && v.info.offset == s.info.offset
      && v.timer == Off && |block| == len
      ensures var r := Stored(v, len, block);
        (r.to.timer == BlockTimer ==> ErasedBehind(lay, r.to, start, total))
        && (TellsFailure(r.sent) ==> Blank(r.to.cells, start, start + Room(total)))
    {
      StoredErases(lay, v, len, block, start, total);
    }
    forall v: State, sta: Status |
      v.cells == s.cells && v.info.start == start && v.info.offset == s.info.offset && sta != Success
      ensures Blank(Ended(v, sta).to.cells, start, start + Room(total))
    {
      EndedErases(lay, v, sta, start, total);
    }
    EndedReply(s);
  }

  /** Whatever comes before it, blocks, ticks or nothing, and however the session fails: when the other side is told so,
      the whole area of the session is erased again. */
  lemma FailedSessionErases(
    lay: Layout, s: State, boot: nat, size: u32, bin: Option<u8>, es: seq<Event>, e: Event)
    requires Fits(lay, s.cells) && !s.info.started && size < lay.max
    ensures Clear(Started(lay, s, Some(boot), size, bin).to)
    ensures var t := After(Started(lay, s, Some(boot), size, bin).to, es);
      var start := if boot != 0 then 0 else lay.otaAddr;
      t.timer == BlockTimer && TellsFailure(Told(t, e)) ==> Blank(Hear(t, e).cells, start, start + Room(size))
  {
    hide After, Told, Hear, ErasedBehind, Clear, Blank, Room, TellsFailure;
    var start := if boot != 0 then 0 else lay.otaAddr;
    StartErases(lay, s, boot, size, bin);
    var s0 := Started(lay, s, Some(boot), size, bin).to;
    RunErases(lay, s0, es, start, size);
    if After(s0, es).timer == BlockTimer {
      HearErases(lay, After(s0, es), e, start, size);
    }
  }

  lemma StartErases(lay: Layout, s: State, boot: nat, size: u32, bin: Option<u8>)
    requires Fits(lay, s.cells) && !s.info.started && size < lay.max
    ensures var t := Started(lay, s, Some(boot), size, bin).to;
      Clear(t) && ErasedBehind(lay, t, if boot != 0 then 0 else lay.otaAddr, size)
  {
    RoomFits(lay, size);
  }

  lemma {:induction false} RunErases(lay: Layout, s: State, es: seq<Event>, start: nat, total: nat)
    requires Clear(s) && s.timer == BlockTimer && ErasedBehind(lay, s, start, total)
    ensures After(s, es).timer == BlockTimer ==> ErasedBehind(lay, After(s, es), start, total)
    decreases |es|
  {
    hide Hear, Clear, ErasedBehind, Told;
    if es != [] {
      var init, e := es[..|es| - 1], es[|es| - 1];
      RunErases(lay, s, init, start, total);
      HearClear(After(s, init), e);
      ClearEnded(After(s, init));
      if After(s, init).timer == BlockTimer {
        HearErases(lay, After(s, init), e, start, total);
      }
    }
  }

  lemma ClearEnded(s: State)
    requires Clear(s)
    ensures s.timer != BlockTimer ==> s.info == IDLE
  {
  }
}
