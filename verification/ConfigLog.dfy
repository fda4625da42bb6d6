/** Records, pages and the shape of the configuration log. */
module ConfigLog {
  import opened Bytes
  import opened Flash
  import opened ConfigStore
  import Crc16

  // ----- records survive encoding -----

  lemma RecordRoundTrip(c: Config)
    requires c.addrStart < 0x1_0000_0000 && c.addrEnd < 0x1_0000_0000
    ensures Decode(Encode(c)) == c
  {
    hide U32Of, U32Bytes, Encode;
    FieldSlices(c);
    WordFields(c);
    U32RoundTrip(c.addrStart);
    U32RoundTrip(c.addrEnd);
  }

  lemma WordFields(c: Config)
    ensures var d := Decode(Encode(c));
      d.id == c.id && d.newOta == c.newOta && CellOf(d) == CellOf(c) && d.crc == c.crc
  {
    hide U32Of, U32Bytes, Word16, Word16Bytes, Encode;
    FieldSlices(c);
    U32RoundTrip(c.id);
    U32RoundTrip(c.top);
    U32RoundTrip(c.hot);
    U32RoundTrip(c.cold);
    Word16RoundTrip(c.crc);
  }

  lemma FieldSlices(c: Config)
    ensures var p := Encode(c);
      p[0..4] == U32Bytes(c.id) && p[4] == c.newOta && p[5..9] == U32Bytes(c.top)
      && p[9..13] == AddrBytes(c.addrStart) && p[13..17] == AddrBytes(c.addrEnd)
      && p[17..21] == U32Bytes(c.hot) && p[21..25] == U32Bytes(c.cold)
      && p[25] == c.litersPerPulse && p[26..28] == Word16Bytes(c.crc)
  {
    hide U32Bytes, Word16Bytes, AddrBytes;
    Slices(U32Bytes(c.id), [c.newOta], U32Bytes(c.top), AddrBytes(c.addrStart), AddrBytes(c.addrEnd),
           U32Bytes(c.hot), U32Bytes(c.cold), [c.litersPerPulse], Word16Bytes(c.crc));
  }

  lemma Slices(id: seq<byte>, ota: seq<byte>, top: seq<byte>, start: seq<byte>, end: seq<byte>,
               hot: seq<byte>, cold: seq<byte>, litres: seq<byte>, crc: seq<byte>)
    requires |id| == |top| == |start| == |end| == |hot| == |cold| == 4
    requires |ota| == |litres| == 1 && |crc| == 2
    ensures var p := id + ota + top + start + end + hot + cold + litres + crc;
      p[0..4] == id && p[4] == ota[0] && p[5..9] == top && p[9..13] == start && p[13..17] == end
      && p[17..21] == hot && p[21..25] == cold && p[25] == litres[0] && p[26..28] == crc
  {
    var p := id + ota + top + start + end + hot + cold + litres + crc;
    var q := id + ota + top + start + end;
    var r := hot + cold + litres + crc;
    assert p == q + r;
    assert forall i :: 0 <= i < 17 ==> p[i] == q[i];
    assert forall i :: 0 <= i < 11 ==> p[17 + i] == r[i];
    assert r[0..4] == hot && r[4..8] == cold && r[9..11] == crc;
    assert p[17..21] == r[0..4] && p[21..25] == r[4..8] && p[26..28] == r[9..11];
    assert q[0..4] == id && q[5..9] == top && q[9..13] == start && q[13..17] == end;
    assert p[0..4] == q[0..4] && p[5..9] == q[5..9] && p[9..13] == q[9..13] && p[13..17] == q[13..17];
  }

  /** A sealed record is valid and keeps its meaning. */
  lemma SealedRecord(c: Config)
    requires c.id == ID_CONFIG
    ensures Valid(Encode(Seal(c)))
    ensures CellOf(Decode(Encode(Seal(c)))) == CellOf(c) && Decode(Encode(Seal(c))).newOta == c.newOta
  {
    WordFields(Seal(c));
    assert Encode(Seal(c))[..26] == Encode(c)[..26] by {
      hide U32Bytes, Word16Bytes;
    }
    hide Encode, Decode;
  }

  /** A valid record damaged in two adjacent bytes, its checksum included, is never valid. */
  lemma DamageDetected(p: seq<byte>, q: seq<byte>, i: nat)
    requires Valid(p) && Crc16.AgreeOutside(p, q, i) && p != q
    ensures !Valid(q)
  {
    ValidIsSealed(p);
    Crc16.SealBroken(GENERATOR, p, q, i);
    if Valid(q) {
      ValidIsSealed(q);
    }
  }

  lemma ValidIsSealed(p: seq<byte>)
    requires Valid(p)
    ensures Crc16.Sealed(GENERATOR, p)
  {
    assert p[26..28] == [p[26], p[27]];
    WordFromBytes(p[26], p[27]);
  }

  lemma WordFromBytes(a: byte, b: byte)
    ensures Word16Bytes(Word16([a, b])) == [a, b]
  {
  }

  // ----- pages -----

  predicate Region(cells: seq<byte>, start: nat)
  {
    |cells| == FLASH_SIZE && (start == BEGIN_USER_DATA1 || start == BEGIN_USER_DATA2)
  }

  function Rec(cells: seq<byte>, start: nat, k: nat): Config
    requires Region(cells, start) && k < SLOTS
  {
    Decode(Page(cells, start, k))
  }

  predicate GoodPage(cells: seq<byte>, start: nat, k: nat)
    requires Region(cells, start) && k < SLOTS
  {
    Valid(Page(cells, start, k))
  }

  /** First page of the sector after page k's. */
  function SectorLimit(k: nat): nat { k - k % 16 + 16 }

  /** Everything behind the record of page k, up to the end of its sector, is erased. */
  predicate RestErased(cells: seq<byte>, start: nat, k: nat)
    requires Region(cells, start) && k < SLOTS
  {
    Blank(cells, start + 256 * k + RECORD_SIZE, start + 256 * SectorLimit(k))
  }

  lemma SamePage(a: seq<byte>, b: seq<byte>, start: nat, k: nat)
    requires Region(a, start) && Region(b, start) && k < SLOTS
    requires forall i :: start + 256 * k <= i < start + 256 * k + RECORD_SIZE ==> a[i] == b[i]
    ensures Page(a, start, k) == Page(b, start, k)
  {
  }

  lemma BlankPageInvalid(cells: seq<byte>, start: nat, k: nat)
    requires Region(cells, start) && k < SLOTS
    requires Blank(cells, start + 256 * k, start + 256 * k + 4)
    ensures !GoodPage(cells, start, k) && Rec(cells, start, k).id != ID_CONFIG
  {
    var p := Page(cells, start, k);
    assert p[0..4] == [0xff, 0xff, 0xff, 0xff];
    BlankIdentifier(p[0..4]);
  }

  lemma BlankIdentifier(p: seq<byte>)
    requires p == [0xff, 0xff, 0xff, 0xff]
    ensures U32Of(p) != ID_CONFIG
  {
  }

  /** The page that write_config is about to program is blank, erased just now if it opens a sector. */
  lemma PageIsReady(cells: seq<byte>, start: nat, k: nat, next: nat)
    requires Region(cells, start) && k < SLOTS && RestErased(cells, start, k)
    requires next == if k + 1 == SLOTS then 0 else k + 1
    ensures Blank(PageReady(cells, start + 256 * next), start + 256 * next, start + 256 * SectorLimit(next))
    ensures forall j :: 0 <= j < SLOTS && (next % 16 != 0 || j / 16 != next / 16) ==>
                          Page(PageReady(cells, start + 256 * next), start, j) == Page(cells, start, j)
  {
    hide Page, Blank, Erased, RestErased;
    var a := start + 256 * next;
    assert a % 4096 == 256 * (next % 16);
    if next % 16 == 0 {
      SectorErased(cells, start, next);
    } else {
      RestIsBlank(cells, start, k);
    }
  }

  lemma RestIsBlank(cells: seq<byte>, start: nat, k: nat)
    requires Region(cells, start) && k + 1 < SLOTS && (k + 1) % 16 != 0 && RestErased(cells, start, k)
    ensures SectorLimit(k + 1) == SectorLimit(k)
    ensures Blank(cells, start + 256 * (k + 1), start + 256 * SectorLimit(k))
  {
  }

  lemma SectorErased(cells: seq<byte>, start: nat, next: nat)
    requires Region(cells, start) && next < SLOTS && next % 16 == 0
    ensures Blank(Erased(cells, start + 256 * next), start + 256 * next, start + 256 * (next + 16))
    ensures forall j :: 0 <= j < SLOTS && j / 16 != next / 16 ==>
                          Page(Erased(cells, start + 256 * next), start, j) == Page(cells, start, j)
  {
    var a := start + 256 * next;
    assert SectorOf(a) == a;
    forall j | 0 <= j < SLOTS && j / 16 != next / 16
      ensures Page(Erased(cells, a), start, j) == Page(cells, start, j)
    {
      SamePage(Erased(cells, a), cells, start, j);
    }
  }

  /** Programming a record on a ready page stores it and touches no other page. */
  lemma RecordStored(cells: seq<byte>, start: nat, k: nat, data: seq<byte>)
    requires Region(cells, start) && k < SLOTS && |data| == RECORD_SIZE
    requires Blank(cells, start + 256 * k, start + 256 * SectorLimit(k))
    ensures var after := Programmed(cells, start + 256 * k, data);
      Page(after, start, k) == data && RestErased(after, start, k)
      && forall j :: 0 <= j < SLOTS && j != k ==> Page(after, start, j) == Page(cells, start, j)
  {
    var after := Programmed(cells, start + 256 * k, data);
    ProgramBlank(cells, start + 256 * k, data);
    forall j | 0 <= j < SLOTS && j != k
      ensures Page(after, start, j) == Page(cells, start, j)
    {
      SamePage(after, cells, start, j);
    }
  }

  // ----- the log -----

  function TopAfter(top: u32, n: nat): u32 { (top + n) % 0x1_0000_0000 }

  /** Pages 0 to k hold valid records with consecutive tops. */
  predicate Chain(cells: seq<byte>, start: nat, k: nat)
  {
    Region(cells, start) && k < SLOTS
    && (forall j :: 0 <= j <= k ==> GoodPage(cells, start, j))
    && (forall j :: 0 <= j <= k ==> Rec(cells, start, k).top == TopAfter(Rec(cells, start, j).top, k - j))
  }

  /** The chain of records is all there is in k's sector; the rest of it is erased. */
  predicate Log(cells: seq<byte>, start: nat, k: nat)
  {
    Chain(cells, start, k) && RestErased(cells, start, k)
  }

  /** Page j holds the very record the log would put there on its present lap. */
  predicate Impostor(cells: seq<byte>, start: nat, k: nat, j: nat)
    requires Region(cells, start) && k < j < SLOTS
  {
    GoodPage(cells, start, j) && Rec(cells, start, j).top == TopAfter(Rec(cells, start, k).top, j - k)
  }

  /** No sector beyond the current one opens with such a record. */
  predicate NoImpostor(cells: seq<byte>, start: nat, k: nat)
    requires Region(cells, start) && k < SLOTS
  {
    forall j :: k < j < SLOTS && j % 16 == 0 ==> !Impostor(cells, start, k, j)
  }

  function NextSlot(k: nat): nat { if k + 1 == SLOTS then 0 else k + 1 }

  /** The cells after write_config has put record c behind page k. */
  function Appended(cells: seq<byte>, start: nat, k: nat, c: Config): (r: seq<byte>)
    ensures |r| == |cells|
  {
    var a := start + 256 * NextSlot(k);
    Programmed(PageReady(cells, a), a, Encode(Seal(c)))
  }

  lemma AppendStores(cells: seq<byte>, start: nat, k: nat, c: Config)
    requires Region(cells, start) && k < SLOTS && RestErased(cells, start, k)
    ensures var after := Appended(cells, start, k, c);
      Region(after, start) && RestErased(after, start, NextSlot(k))
      && Page(after, start, NextSlot(k)) == Encode(Seal(c))
      && forall j :: 0 <= j < SLOTS && j != NextSlot(k) && (NextSlot(k) % 16 != 0 || j / 16 != NextSlot(k) / 16)
           ==> Page(after, start, j) == Page(cells, start, j)
  {
    hide Encode, Seal, Page, Programmed, PageReady;
    PageIsReady(cells, start, k, NextSlot(k));
    RecordStored(PageReady(cells, start + 256 * NextSlot(k)), start, NextSlot(k), Encode(Seal(c)));
  }

  /** One log write keeps the shape of the log. */
  lemma AppendKeepsLog(cells: seq<byte>, start: nat, k: nat, c: Config)
    requires Log(cells, start, k)
    requires c.id == ID_CONFIG && c.top == NextTop(Rec(cells, start, k).top)
    ensures var after := Appended(cells, start, k, c);
      Log(after, start, NextSlot(k)) && Page(after, start, NextSlot(k)) == Encode(Seal(c))
  {
    hide Encode, Decode, Valid, Page, Appended, RestErased;
    AppendStores(cells, start, k, c);
    SealedRecord(c);
    var after, next := Appended(cells, start, k, c), NextSlot(k);
    assert GoodPage(after, start, next) && Rec(after, start, next).top == c.top;
    forall j | 0 <= j < next
      ensures GoodPage(after, start, j) && c.top == TopAfter(Rec(after, start, j).top, next - j)
    {
      assert next == k + 1 && (next % 16 != 0 || j / 16 != next / 16);
      assert Page(after, start, j) == Page(cells, start, j);
      assert GoodPage(cells, start, j) && Rec(cells, start, k).top == TopAfter(Rec(cells, start, j).top, k - j);
    }
  }

  /** A log write lets no impostor in: after a full lap every page is too old to be one. */
  lemma AppendAdmitsNone(cells: seq<byte>, start: nat, k: nat, c: Config)
    requires Log(cells, start, k) && NoImpostor(cells, start, k)
    requires c.id == ID_CONFIG && c.top == NextTop(Rec(cells, start, k).top)
    ensures NoImpostor(Appended(cells, start, k, c), start, NextSlot(k))
  {
    hide Encode, Decode, Valid, Page, Appended, RestErased, TopAfter, NextTop;
    AppendStores(cells, start, k, c);
    SealedRecord(c);
    var after, next := Appended(cells, start, k, c), NextSlot(k);
    assert Rec(after, start, next).top == c.top;
    forall j | next < j < SLOTS && j % 16 == 0
      ensures !Impostor(after, start, next, j)
    {
      assert j / 16 != next / 16;
      assert Page(after, start, j) == Page(cells, start, j);
      if next == k + 1 {
        assert !Impostor(cells, start, k, j);
        TopLater(Rec(cells, start, k).top, j - next);
      } else {
        assert Rec(cells, start, k).top == TopAfter(Rec(cells, start, j).top, k - j);
        LapIsShort(Rec(cells, start, j).top, Rec(cells, start, k).top, j);
      }
    }
  }

  lemma TopAfterNone(top: u32)
    ensures TopAfter(top, 0) == top
  {
  }

  lemma TopAfterOneMore(top: u32, n: nat)
    ensures TopAfter(top, n + 1) == NextTop(TopAfter(top, n))
  {
  }

  lemma TopLater(top: u32, n: nat)
    ensures TopAfter(NextTop(top), n) == TopAfter(top, n + 1)
  {
  }

  lemma LapIsShort(oldTop: u32, top: u32, j: nat)
    requires j < SLOTS && top == TopAfter(oldTop, SLOTS - 1 - j)
    ensures oldTop != TopAfter(NextTop(top), j)
  {
  }
}
