/** The states the configuration store can be in, and what single saves, erases and boots do to them. */
module ConfigSteps {
  import opened Bytes
  import opened Flash
  import opened ConfigStore
  import opened ConfigLog

  // ----- where the scan stops -----

  /** Behind page k the scan meets an erased page, or a page that opens the next sector. */
  lemma ErasedNeighbour(cells: seq<byte>, start: nat, k: nat)
    requires Log(cells, start, k) && (k + 1) % 16 != 0
    ensures k + 1 < SLOTS && !GoodPage(cells, start, k + 1)
  {
    BlankPageInvalid(cells, start, k + 1);
  }

  lemma {:induction false} ScanReachesEnd(cells: seq<byte>, start: nat, k: nat, j: nat)
    requires Chain(cells, start, k) && j <= k
    ensures Scan(cells, start, j) == Scan(cells, start, k)
    decreases k - j
  {
    hide Decode, Valid, Page;
    if j < k {
      var a, b := Rec(cells, start, j).top, Rec(cells, start, j + 1).top;
      assert GoodPage(cells, start, j + 1);
      assert Rec(cells, start, k).top == TopAfter(a, k - j) == TopAfter(b, k - (j + 1));
      assert IsNextTop(a, b);
      ScanReachesEnd(cells, start, k, j + 1);
    }
  }

  /** The scan of init_config stops at the newest record exactly when no valid successor follows it. */
  lemma ScanFindsNewest(cells: seq<byte>, start: nat, k: nat)
    requires Chain(cells, start, k)
    ensures Scan(cells, start, 0) == Some(k) <==> k + 1 < SLOTS && !Continues(cells, start, k)
    ensures k + 1 == SLOTS ==> Scan(cells, start, 0) == None
  {
    ScanReachesEnd(cells, start, k, 0);
    hide Continues, Chain;
  }

  /** Without impostors there is no such successor. */
  lemma NoSuccessor(cells: seq<byte>, start: nat, k: nat)
    requires Log(cells, start, k) && NoImpostor(cells, start, k) && k + 1 < SLOTS
    ensures !Continues(cells, start, k)
  {
    hide Decode, Valid, Page;
    if (k + 1) % 16 != 0 {
      ErasedNeighbour(cells, start, k);
    } else {
      assert !Impostor(cells, start, k, k + 1);
    }
  }

  // ----- states -----

  predicate Steady(s: Store)
  {
    Region(s.cells, s.start) && s.start == RegionStart(s.bootHigh)
    && s.ram.id == ID_CONFIG && !s.defaultConfig && s.nv.Some? && Valid(s.nv.value)
  }

  function SlotOf(s: Store): nat
  {
    if s.ram.addrStart < s.start then SLOTS else (s.ram.addrStart - s.start) / 256
  }

  /** Outside an update, at some page of the region. */
  predicate AtSlot(s: Store)
  {
    Steady(s) && s.ram.newOta == 0 && Decode(s.nv.value).newOta == 0
    && SlotOf(s) < SLOTS && s.ram.addrStart == s.start + 256 * SlotOf(s)
  }

  /** Outside an update the newest record ends the log and NV holds an inactive record. */
  predicate Shaped(s: Store)
  {
    AtSlot(s) && Log(s.cells, s.start, SlotOf(s))
    && Rec(s.cells, s.start, SlotOf(s)).newOta == 0
    && Rec(s.cells, s.start, SlotOf(s)).top == s.ram.top
  }

  predicate Logging(s: Store)
  {
    Shaped(s) && NoImpostor(s.cells, s.start, SlotOf(s))
  }

  /** During an update the record lives in NV; nothing is known about the log region. */
  predicate Updating(s: Store)
  {
    Steady(s) && s.ram.newOta != 0 && Decode(s.nv.value).newOta != 0 && Decode(s.nv.value).top == s.ram.top
  }

  /** The region has been erased for a download and no update has begun: the log goes on without its first page.
      Whatever is still valid up to the current page belongs to the run of tops that ends there. */
  predicate CutOff(s: Store)
  {
    AtSlot(s) && Rec(s.cells, s.start, 0).id != ID_CONFIG && RestErased(s.cells, s.start, SlotOf(s))
    && forall j :: 0 <= j <= SlotOf(s) && GoodPage(s.cells, s.start, j) ==>
                     s.ram.top == TopAfter(Rec(s.cells, s.start, j).top, SlotOf(s) - j)
  }

  /** What a reboot must bring back. */
  function Durable(s: Store): Cell
    requires Shaped(s) || Updating(s)
  {
    if s.ram.newOta != 0 then CellOf(Decode(s.nv.value)) else CellOf(Rec(s.cells, s.start, SlotOf(s)))
  }

  /** Reset: RAM is lost, flash and NV stay. */
  function PowerCycled(s: Store): Store
  {
    s.(ram := Config(0, 0, 0, 0, 0, 0, 0, 0, 0), defaultConfig := false, start := 0)
  }

  // ----- single steps -----

  /** A write during an update goes to NV only. */
  lemma NvWriteStep(s: Store)
    requires Steady(s) && s.ram.newOta != 0
    ensures Updating(Written(s)) && Durable(Written(s)) == CellOf(Written(s).ram) == CellOf(s.ram)
  {
    hide Encode, Decode, Valid, Checksum;
    SealedRecord(s.ram);
  }

  lemma LogWriteIsAppend(s: Store)
    requires AtSlot(s)
    ensures var k := SlotOf(s);
      var c := s.ram.(addrStart := s.start + 256 * NextSlot(k), top := NextTop(s.ram.top));
      Written(s) == s.(ram := Seal(c), cells := Appended(s.cells, s.start, k, c))
  {
    hide Encode, Decode, Valid, Page, Programmed, PageReady, RestErased, Checksum, NextTop, Log;
  }

  /** A write outside an update appends to the log, whatever the later sectors hold. */
  lemma AppendStep(s: Store)
    requires Shaped(s)
    ensures var w := Written(s);
      Shaped(w) && SlotOf(w) == NextSlot(SlotOf(s))
      && CellOf(Rec(w.cells, w.start, SlotOf(w))) == CellOf(w.ram) == CellOf(s.ram).(top := NextTop(s.ram.top))
  {
    hide Encode, Decode, Valid, Page, Appended, RestErased, Checksum, NextTop, Log, Written;
    var k := SlotOf(s);
    var c := s.ram.(addrStart := s.start + 256 * NextSlot(k), top := NextTop(s.ram.top));
    LogWriteIsAppend(s);
    AppendKeepsLog(s.cells, s.start, k, c);
    SealedRecord(c);
    AddressSlot(s.start, NextSlot(k));
    assert CellOf(Seal(c)) == CellOf(s.ram).(top := NextTop(s.ram.top));
  }

  lemma LogWriteStep(s: Store)
    requires Logging(s)
    ensures Logging(Written(s)) && SlotOf(Written(s)) == NextSlot(SlotOf(s))
    ensures Durable(Written(s)) == CellOf(Written(s).ram) == CellOf(s.ram).(top := NextTop(s.ram.top))
  {
    hide Encode, Decode, Valid, Page, Appended, RestErased, Checksum, NextTop, Log, NoImpostor, Written;
    AppendStep(s);
    LogWriteIsAppend(s);
    AppendAdmitsNone(s.cells, s.start, SlotOf(s),
                     s.ram.(addrStart := s.start + 256 * NextSlot(SlotOf(s)), top := NextTop(s.ram.top)));
  }

  lemma AddressSlot(start: nat, k: nat)
    ensures (start + 256 * k - start) / 256 == k
  {
  }

  /** Restoring a record restarts the log at page 0, with NV as its twin. */
  lemma RestartStep(t: Store)
    requires Region(t.cells, t.start) && t.start == RegionStart(t.bootHigh)
    requires t.ram.id == ID_CONFIG && t.ram.newOta == 0 && t.ram.addrStart == t.start
    ensures var r := RestoreWritten(t);
      Shaped(r) && Durable(r) == CellOf(t.ram) && (NoImpostor(r.cells, r.start, 0) ==> Logging(r))
      && Region(r.cells, r.start) && SlotOf(r) == 0 && CellOf(r.ram) == CellOf(t.ram) && r.ram.newOta == 0
  {
    hide Encode, Decode, Valid, Checksum, Page, Programmed, Erased, RestErased;
    RestartedLog(t.cells, t.start, t.ram);
    SealedRecord(t.ram);
  }

  lemma RestartedLog(cells: seq<byte>, start: nat, c: Config)
    requires Region(cells, start) && c.id == ID_CONFIG
    ensures var after := Programmed(Erased(cells, start), start, Encode(Seal(c)));
      Log(after, start, 0) && Page(after, start, 0) == Encode(Seal(c))
  {
    hide Encode, Decode, Valid, Checksum, Page, Programmed, Erased, RestErased;
    SectorErased(cells, start, 0);
    RecordStored(Erased(cells, start), start, 0, Encode(Seal(c)));
    SealedRecord(c);
  }

  const DEFAULT_CELL := Cell(0, 0, 0, LITERS_PER_PULSE)

  /** Re-defaulting erases the whole region, so nothing stale is left in it. */
  lemma DefaultStep(t: Store)
    requires Region(t.cells, t.start) && t.start == RegionStart(t.bootHigh)
    ensures Logging(Defaulted(t)) && Durable(Defaulted(t)) == CellOf(Defaulted(t).ram) == DEFAULT_CELL
    ensures SlotOf(Defaulted(t)) == 0
  {
    var cleared := t.(cells := Wiped(t.cells, t.start, USER_DATA_SIZE),
                      ram := DefaultConfig(t.start), defaultConfig := true);
    RestartStep(cleared);
    ClearedAdmitsNone(t.cells, t.start, cleared.ram);
    hide RestoreWritten, Durable, Logging;
  }

  lemma ClearedAdmitsNone(cells: seq<byte>, start: nat, c: Config)
    requires Region(cells, start)
    ensures var blank := Wiped(cells, start, USER_DATA_SIZE);
      var after := Programmed(Erased(blank, start), start, Encode(Seal(c)));
      NoImpostor(after, start, 0)
  {
    var blank := Wiped(cells, start, USER_DATA_SIZE);
    var after := Programmed(Erased(blank, start), start, Encode(Seal(c)));
    forall j | 0 < j < SLOTS && j % 16 == 0
      ensures !Impostor(after, start, 0, j)
    {
      BlankPageInvalid(after, start, j);
    }
  }

  /** A boot that finds an active record in NV restarts the log with it. */
  lemma BootDuringUpdate(s: Store)
    requires |s.cells| == FLASH_SIZE && s.nv.Some? && Valid(s.nv.value) && Decode(s.nv.value).newOta != 0
    ensures var r := Initialised(s);
      Shaped(r) && Durable(r) == CellOf(r.ram) && (NoImpostor(r.cells, r.start, 0) ==> Logging(r))
      && Region(r.cells, r.start) && CellOf(r.ram) == CellOf(Decode(s.nv.value)) && SlotOf(r) == 0 && r.ram.newOta == 0
  {
    hide Decode, Valid, RestoreWritten, Durable, Logging, Shaped;
    ValidIdentifier(s.nv.value);
    var t := s.(start := RegionStart(s.bootHigh));
    var c := Decode(s.nv.value).(newOta := 0, addrStart := t.start, addrEnd := t.start + USER_DATA_SIZE);
    RestartStep(t.(ram := c, defaultConfig := true));
  }

  /** A boot outside an update re-defaults from the last page and otherwise reads the newest record back. */
  lemma BootOutsideUpdate(s: Store)
    requires Logging(s)
    ensures var r := Initialised(PowerCycled(s));
      Logging(r) && Durable(r) == CellOf(r.ram)
      && (SlotOf(s) == SLOTS - 1 ==> Durable(r) == DEFAULT_CELL && SlotOf(r) == 0)
      && (SlotOf(s) < SLOTS - 1 ==> Durable(r) == Durable(s) && SlotOf(r) == SlotOf(s))
  {
    hide Decode, Valid, Page, RestErased, Scan, Defaulted, RestoreWritten;
    var k := SlotOf(s);
    ScanFindsNewest(s.cells, s.start, k);
    assert GoodPage(s.cells, s.start, 0);
    ValidIdentifier(Page(s.cells, s.start, 0));
    if k == SLOTS - 1 {
      DefaultStep(PowerCycled(s).(start := s.start));
    } else {
      NoSuccessor(s.cells, s.start, k);
      assert GoodPage(s.cells, s.start, k);
      ValidIdentifier(Page(s.cells, s.start, k));
    }
  }

  lemma ValidIdentifier(p: seq<byte>)
    requires Valid(p)
    ensures |p| == RECORD_SIZE && Decode(p).id == ID_CONFIG
  {
  }

  // ----- a region erased for a download -----

  lemma WipedPages(cells: seq<byte>, start: nat, n: nat)
    requires Region(cells, start) && n > 0
    ensures var after := Wiped(cells, start, 4096 * n);
      Region(after, start)
      && (forall j :: 0 <= j < SLOTS && j < 16 * n ==>
                        !GoodPage(after, start, j) && Rec(after, start, j).id != ID_CONFIG)
      && (forall j :: 16 * n <= j < SLOTS ==> Page(after, start, j) == Page(cells, start, j))
      && (forall k :: 0 <= k < SLOTS && RestErased(cells, start, k) ==> RestErased(after, start, k))
  {
    hide Decode, Valid;
    var after := Wiped(cells, start, 4096 * n);
    forall j | 0 <= j < SLOTS && j < 16 * n
      ensures !GoodPage(after, start, j) && Rec(after, start, j).id != ID_CONFIG
    {
      BlankPageInvalid(after, start, j);
    }
    forall j | 16 * n <= j < SLOTS
      ensures Page(after, start, j) == Page(cells, start, j)
    {
      SamePage(after, cells, start, j);
    }
  }

  /** Erasing even one sector of the region takes the log's first page away. */
  lemma EraseCutsOff(s: Store, n: nat)
    requires (Shaped(s) || CutOff(s)) && n > 0
    ensures CutOff(s.(cells := Wiped(s.cells, s.start, 4096 * n)))
  {
    hide Decode, Valid, Page, RestErased, Wiped, NoImpostor;
    WipedPages(s.cells, s.start, n);
    var t := s.(cells := Wiped(s.cells, s.start, 4096 * n));
    forall j | 0 <= j <= SlotOf(t) && GoodPage(t.cells, t.start, j)
      ensures t.ram.top == TopAfter(Rec(t.cells, t.start, j).top, SlotOf(t) - j)
    {
      assert j >= 16 * n;
      assert Page(t.cells, t.start, j) == Page(s.cells, s.start, j);
      assert GoodPage(s.cells, s.start, j);
      TopsAgree(s, j);
    }
  }

  lemma TopsAgree(s: Store, j: nat)
    requires Shaped(s) || CutOff(s)
    requires j <= SlotOf(s) && GoodPage(s.cells, s.start, j)
    ensures s.ram.top == TopAfter(Rec(s.cells, s.start, j).top, SlotOf(s) - j)
  {
    hide Decode, Valid, Page, RestErased, NoImpostor, TopAfter;
  }

  /** Such a device loses its reading at the next reset. */
  lemma CutOffBoot(s: Store)
    requires CutOff(s)
    ensures var r := Initialised(PowerCycled(s));
      Logging(r) && Durable(r) == CellOf(r.ram) == DEFAULT_CELL && SlotOf(r) == 0
  {
    hide Decode, Valid, Page, RestErased, Scan, Defaulted, RestoreWritten, Durable, Logging;
    DefaultStep(PowerCycled(s).(start := s.start));
  }

  /** Saves go on behind the gap, and the one that comes round to the first page restarts the log. */
  lemma CutOffSave(s: Store)
    requires CutOff(s)
    ensures var w := Written(s);
      SlotOf(w) == NextSlot(SlotOf(s)) && CellOf(w.ram) == CellOf(s.ram).(top := NextTop(s.ram.top)) && w.ram.newOta == 0
      && (SlotOf(w) != 0 ==> CutOff(w))
      && (SlotOf(w) == 0 ==> Logging(w) && Durable(w) == CellOf(w.ram))
  {
    hide Encode, Decode, Valid, Page, Appended, RestErased, Checksum, NextTop, TopAfter, Written;
    var k := SlotOf(s);
    var next := NextSlot(k);
    var c := s.ram.(addrStart := s.start + 256 * next, top := NextTop(s.ram.top));
    LogWriteIsAppend(s);
    AppendStores(s.cells, s.start, k, c);
    SealedRecord(c);
    AddressSlot(s.start, next);
    var w := Written(s);
    assert GoodPage(w.cells, w.start, next) && Rec(w.cells, w.start, next).top == c.top;
    if next == 0 {
      RoundTheGap(s.cells, s.start, w.cells, s.ram.top);
    } else {
      BehindTheGap(s.cells, s.start, k, w.cells, s.ram.top);
    }
  }

  lemma RoundTheGap(cells: seq<byte>, start: nat, after: seq<byte>, top: u32)
    requires Region(cells, start) && Region(after, start)
    requires forall j :: 0 <= j < SLOTS && GoodPage(cells, start, j) ==>
                           top == TopAfter(Rec(cells, start, j).top, SLOTS - 1 - j)
    requires forall j :: 16 <= j < SLOTS ==> Page(after, start, j) == Page(cells, start, j)
    requires GoodPage(after, start, 0) && Rec(after, start, 0).top == NextTop(top) && RestErased(after, start, 0)
    ensures Log(after, start, 0) && NoImpostor(after, start, 0)
  {
    hide Decode, Valid, Page, RestErased;
    var newest := Rec(after, start, 0).top;
    forall j | 0 < j < SLOTS && j % 16 == 0
      ensures !Impostor(after, start, 0, j)
    {
      if GoodPage(after, start, j) {
        assert Page(after, start, j) == Page(cells, start, j) && GoodPage(cells, start, j);
        LapIsShort(Rec(cells, start, j).top, top, j);
      }
    }
  }

  lemma BehindTheGap(cells: seq<byte>, start: nat, k: nat, after: seq<byte>, top: u32)
    requires Region(cells, start) && Region(after, start) && k + 1 < SLOTS
    requires Rec(cells, start, 0).id != ID_CONFIG
    requires forall j :: 0 <= j <= k && GoodPage(cells, start, j) ==> top == TopAfter(Rec(cells, start, j).top, k - j)
    requires forall j :: 0 <= j <= k ==> Page(after, start, j) == Page(cells, start, j)
    requires Rec(after, start, k + 1).top == NextTop(top)
    ensures Rec(after, start, 0).id != ID_CONFIG
    ensures forall j :: 0 <= j <= k + 1 && GoodPage(after, start, j) ==>
                          NextTop(top) == TopAfter(Rec(after, start, j).top, k + 1 - j)
  {
    hide Decode, Valid, Page;
    assert Page(after, start, 0) == Page(cells, start, 0);
    forall j | 0 <= j <= k && GoodPage(after, start, j)
      ensures NextTop(top) == TopAfter(Rec(after, start, j).top, k + 1 - j)
    {
      assert Page(after, start, j) == Page(cells, start, j) && GoodPage(cells, start, j);
    }
  }

  lemma CutOffIsNotShaped(s: Store)
    ensures !(CutOff(s) && Shaped(s))
  {
    hide Decode, RestErased;
    if CutOff(s) && Shaped(s) {
      FirstPageKnown(s);
    }
  }

  lemma FirstPageKnown(s: Store)
    requires Shaped(s)
    ensures Rec(s.cells, s.start, 0).id == ID_CONFIG
  {
    hide Decode, RestErased, NoImpostor;
    assert GoodPage(s.cells, s.start, 0);
    ValidIdentifier(Page(s.cells, s.start, 0));
  }
}
