/** Exactly when a reboot restores the log, torn writes, and wear. */
module ConfigFaults {
  import opened Bytes
  import opened Flash
  import opened ConfigStore
  import opened ConfigLog
  import opened ConfigSteps

  // ----- exactly when a reboot restores -----

  /** A reboot brings back the newest record, at its place in the log. */
  predicate RebootRestores(s: Store)
    requires Shaped(s)
  {
    var r := Initialised(PowerCycled(s));
    r.ram.addrStart == s.ram.addrStart && CellOf(r.ram) == CellOf(Rec(s.cells, s.start, SlotOf(s)))
  }

  lemma RebootReadsScan(s: Store)
    requires Shaped(s)
    ensures var r, scan := Initialised(PowerCycled(s)), Scan(s.cells, s.start, 0);
      (scan.None? ==> r.ram.addrStart == s.start)
      && (scan.Some? ==> r.ram == Rec(s.cells, s.start, scan.value).(addrStart := s.start + 256 * scan.value))
  {
    hide Decode, Valid, Page, RestErased, Scan;
    assert GoodPage(s.cells, s.start, 0);
    ValidIdentifier(Page(s.cells, s.start, 0));
  }

  /** It does so exactly when the newest record is not in the last page and nothing continues it. */
  lemma RestoresIffLogEnds(s: Store)
    requires Shaped(s)
    ensures RebootRestores(s) <==>
              SlotOf(s) + 1 < SLOTS && !Continues(s.cells, s.start, SlotOf(s))
    ensures (SlotOf(s) + 1) % 16 != 0 ==> RebootRestores(s)
  {
    hide Decode, Valid, Page, RestErased, Scan, Continues, Initialised, Chain;
    var k := SlotOf(s);
    ScanFindsNewest(s.cells, s.start, k);
    RebootReadsScan(s);
    if (k + 1) % 16 != 0 {
      ErasedEnds(s.cells, s.start, k);
    }
  }

  lemma ErasedEnds(cells: seq<byte>, start: nat, k: nat)
    requires Log(cells, start, k) && (k + 1) % 16 != 0
    ensures k + 1 < SLOTS && !Continues(cells, start, k)
  {
    ErasedNeighbour(cells, start, k);
  }

  // ----- page 0, checked by its identifier only -----

  /** Outside an update a page 0 with the right identifier is taken whatever its checksum: it is restored exactly when
      page 1 does not continue it, and otherwise the scan goes on from its top. */
  lemma FirstPageByIdentifier(s: Store)
    requires |s.cells| == FLASH_SIZE && s.nv.Some? && Valid(s.nv.value) && Decode(s.nv.value).newOta == 0
    requires Decode(Page(s.cells, RegionStart(s.bootHigh), 0)).id == ID_CONFIG
    ensures var start, r := RegionStart(s.bootHigh), Initialised(s);
      (r.cells == s.cells && r.ram == Decode(Page(s.cells, start, 0)).(addrStart := start)
       <==> !Continues(s.cells, start, 0))
      && (Continues(s.cells, start, 0) ==>
            match Scan(s.cells, start, 1)
            case None => r == Defaulted(s.(start := start))
            case Some(k) =>
              k >= 1 && r.cells == s.cells && r.ram == Decode(Page(s.cells, start, k)).(addrStart := start + 256 * k))
  {
    hide Decode, Valid, Page, Defaulted, Continues;
    var start := RegionStart(s.bootHigh);
    if Continues(s.cells, start, 0) {
      DefaultClearsPage(s.(start := start));
    }
  }

  lemma DefaultClearsPage(s: Store)
    requires Region(s.cells, s.start) && Continues(s.cells, s.start, 0)
    ensures Defaulted(s).cells != s.cells
  {
    hide Decode, Valid, Programmed, Erased, Checksum, Encode;
    assert GoodPage(s.cells, s.start, 1);
    SecondPageBlank(s.cells, s.start, Encode(Seal(DefaultConfig(s.start))));
  }

  lemma SecondPageBlank(cells: seq<byte>, start: nat, data: seq<byte>)
    requires Region(cells, start) && |data| == RECORD_SIZE
    ensures var after := Programmed(Erased(Wiped(cells, start, USER_DATA_SIZE), start), start, data);
      Region(after, start) && !GoodPage(after, start, 1)
  {
    hide Decode, Valid;
    BlankPageInvalid(Programmed(Erased(Wiped(cells, start, USER_DATA_SIZE), start), start, data), start, 1);
  }

  /** So damage to a record in page 0 is never noticed while it is the newest, if only its identifier is intact: the
      damaged reading comes back. */
  lemma DamagedFirstPageRestored(s: Store, cells: seq<byte>)
    requires Shaped(s) && SlotOf(s) == 0 && SameOutside(s.cells, cells, s.start + 4, s.start + RECORD_SIZE)
    ensures Region(cells, s.start)
    ensures var r := Initialised(PowerCycled(s.(cells := cells)));
      r.cells == cells && r.ram == Rec(cells, s.start, 0).(addrStart := s.start)
  {
    hide Valid, Continues, Initialised, Chain;
    IdentifierKept(s.cells, cells, s.start);
    FirstPageKnown(s);
    BlankPageInvalid(cells, s.start, 1);
    NothingAfterBlank(cells, s.start);
    hide Decode, RestErased;
    FirstPageByIdentifier(PowerCycled(s.(cells := cells)));
  }

  lemma NothingAfterBlank(cells: seq<byte>, start: nat)
    requires Region(cells, start) && !GoodPage(cells, start, 1)
    ensures !Continues(cells, start, 0)
  {
  }

  lemma IdentifierKept(a: seq<byte>, b: seq<byte>, start: nat)
    requires Region(a, start) && SameOutside(a, b, start + 4, start + RECORD_SIZE)
    ensures Region(b, start) && Rec(a, start, 0).id == Rec(b, start, 0).id
  {
    hide U32Of;
    assert Page(a, start, 0)[0..4] == Page(b, start, 0)[0..4];
  }

  // ----- a lap of saves -----

  /** Counter values at a save. */
  datatype Reading = Reading(hot: u32, cold: u32, litersPerPulse: byte)

  /** The store after a series of saves, each with its own counter values. */
  function Saves(s: Store, rs: seq<Reading>): (r: Store)
    ensures |r.cells| == |s.cells|
    decreases |rs|
  {
    if rs == [] then s
    else
      var t, v := Saves(s, rs[..|rs| - 1]), rs[|rs| - 1];
      Written(t.(ram := t.ram.(hot := v.hot, cold := v.cold, litersPerPulse := v.litersPerPulse)))
  }

  /** On one lap saves move the end of the log forward and neither remove nor create impostors. */
  lemma {:induction false} SavesOnLap(s: Store, rs: seq<Reading>)
    requires Shaped(s) && SlotOf(s) + |rs| < SLOTS
    ensures var t := Saves(s, rs);
      Shaped(t) && t.start == s.start && SlotOf(t) == SlotOf(s) + |rs|
      && forall j :: SlotOf(t) < j < SLOTS && j % 16 == 0 ==>
                       (Impostor(t.cells, t.start, SlotOf(t), j) <==> Impostor(s.cells, s.start, SlotOf(s), j))
    decreases |rs|
  {
    hide Decode, Valid, Page, RestErased, Chain, Written, TopAfter, NextTop;
    if rs != [] {
      var n := |rs| - 1;
      SavesOnLap(s, rs[..n]);
      var t := Saves(s, rs[..n]);
      var v := rs[n];
      var u := t.(ram := t.ram.(hot := v.hot, cold := v.cold, litersPerPulse := v.litersPerPulse));
      AppendStep(u);
      SaveKeepsImpostors(u);
    }
  }

  lemma SaveKeepsImpostors(s: Store)
    requires Shaped(s) && SlotOf(s) + 1 < SLOTS
    ensures var w, k := Written(s), SlotOf(s);
      w.start == s.start && |w.cells| == FLASH_SIZE
      && forall j :: k + 1 < j < SLOTS && j % 16 == 0 ==>
                       (Impostor(w.cells, w.start, k + 1, j) <==> Impostor(s.cells, s.start, k, j))
  {
    hide Encode, Decode, Valid, Page, RestErased, Chain, Appended, Written, TopAfter, NextTop, Checksum;
    var k := SlotOf(s);
    var c := s.ram.(addrStart := s.start + 256 * NextSlot(k), top := NextTop(s.ram.top));
    LogWriteIsAppend(s);
    AppendStores(s.cells, s.start, k, c);
    SealedRecord(c);
    assert CellOf(Seal(c)).top == c.top;
    forall j | k + 1 < j < SLOTS && j % 16 == 0
      ensures Impostor(Written(s).cells, s.start, k + 1, j) <==> Impostor(s.cells, s.start, k, j)
    {
      assert j / 16 != (k + 1) / 16;
      TopLater(s.ram.top, j - (k + 1));
    }
  }

  /** Freedom from impostors is exactly what every reboot on the present lap needs. */
  lemma ImpostorFreeIffLapRestores(s: Store)
    requires Shaped(s)
    ensures NoImpostor(s.cells, s.start, SlotOf(s)) <==>
              forall rs :: SlotOf(s) + |rs| + 1 < SLOTS ==> LapRestores(s, rs)
  {
    hide Decode, Valid, Page, RestErased, Chain, Continues, LapRestores, Impostor;
    var k := SlotOf(s);
    if NoImpostor(s.cells, s.start, k) {
      forall rs | k + |rs| + 1 < SLOTS
        ensures LapRestores(s, rs)
      {
        CleanLapRestores(s, rs);
      }
    } else {
      var j :| k < j < SLOTS && j % 16 == 0 && Impostor(s.cells, s.start, k, j);
      ImpostorBites(s, j);
    }
  }

  predicate LapRestores(s: Store, rs: seq<Reading>)
  {
    Shaped(Saves(s, rs)) && RebootRestores(Saves(s, rs))
  }

  lemma CleanLapRestores(s: Store, rs: seq<Reading>)
    requires Logging(s) && SlotOf(s) + |rs| + 1 < SLOTS
    ensures LapRestores(s, rs)
  {
    hide Decode, Valid, Page, RestErased, Chain, Continues, RebootRestores, Impostor, Saves;
    SavesOnLap(s, rs);
    var t := Saves(s, rs);
    forall j | SlotOf(t) < j < SLOTS && j % 16 == 0
      ensures !Impostor(t.cells, t.start, SlotOf(t), j)
    {
      assert !Impostor(s.cells, s.start, SlotOf(s), j);
    }
    NoSuccessor(t.cells, t.start, SlotOf(t));
    RestoresIffLogEnds(t);
  }

  lemma ImpostorBites(s: Store, j: nat)
    requires Shaped(s) && SlotOf(s) < j < SLOTS && j % 16 == 0
    requires Impostor(s.cells, s.start, SlotOf(s), j)
    ensures exists rs :: SlotOf(s) + |rs| + 1 < SLOTS && !LapRestores(s, rs)
  {
    hide Decode, Valid, Page, RestErased, Chain, RebootRestores, Impostor, Saves;
    var rs := seq(j - 1 - SlotOf(s), _ => Reading(0, 0, 0));
    SavesOnLap(s, rs);
    var t := Saves(s, rs);
    ImpostorContinues(t, j);
    RestoresIffLogEnds(t);
  }

  lemma ImpostorContinues(t: Store, j: nat)
    requires Shaped(t) && SlotOf(t) + 1 == j < SLOTS
    ensures Impostor(t.cells, t.start, SlotOf(t), j) <==> Continues(t.cells, t.start, SlotOf(t))
  {
    hide Decode, Valid, Page, RestErased, Chain;
  }

  // ----- every write lands on erased cells -----

  /** Behind an erased rest of a sector a save programs a blank page and so stores its record, whatever the pages
      before it hold. */
  lemma SaveLandsOnErasedPage(s: Store)
    requires AtSlot(s) && RestErased(s.cells, s.start, SlotOf(s))
    ensures var a := NextAddr(s);
      Blank(PageReady(s.cells, a), a, a + 256)
      && Written(s).cells[a..a + RECORD_SIZE] == Encode(Written(s).ram)
  {
    hide Encode, Decode, Valid, RestErased, Chain, Checksum, NextTop, PageReady, Programmed;
    var k := SlotOf(s);
    var c := s.ram.(addrStart := s.start + 256 * NextSlot(k), top := NextTop(s.ram.top));
    LogWriteIsAppend(s);
    PageIsReady(s.cells, s.start, k, NextSlot(k));
    AppendStores(s.cells, s.start, k, c);
  }

  /** So does the write that restarts the log. */
  lemma RestartLandsOnErasedPage(t: Store)
    requires Region(t.cells, t.start) && t.ram.addrStart == t.start && t.ram.id == ID_CONFIG
    ensures Blank(Erased(t.cells, t.start), t.start, t.start + 256)
    ensures RestoreWritten(t).cells[t.start..t.start + RECORD_SIZE] == Encode(RestoreWritten(t).ram)
  {
    hide Encode, Decode, Valid, RestErased, Checksum, Programmed, Erased;
    SectorErased(t.cells, t.start, 0);
    RestartedLog(t.cells, t.start, t.ram);
  }

  // ----- torn writes -----

  /** Power fails while the sector of the next page is being erased: its content is anything, but the page itself
      still is what it was, or no record. */
  predicate CutInErase(s: Store, torn: seq<byte>)
    requires Shaped(s) && SlotOf(s) + 1 < SLOTS
  {
    var next := SlotOf(s) + 1;
    |torn| == FLASH_SIZE && next % 16 == 0
    && SameOutside(s.cells, torn, s.start + 256 * next, s.start + 256 * (next + 16))
    && (Page(torn, s.start, next) == Page(s.cells, s.start, next) || !GoodPage(torn, s.start, next))
  }

  /** Power fails while the record is being programmed: only its own cells can be wrong, and they hold the whole
      record or none. */
  predicate CutInProgram(s: Store, torn: seq<byte>)
    requires Shaped(s) && SlotOf(s) + 1 < SLOTS
  {
    var next := SlotOf(s) + 1;
    var a := s.start + 256 * next;
    |torn| == FLASH_SIZE && SameOutside(PageReady(s.cells, a), torn, a, a + RECORD_SIZE)
    && (Page(torn, s.start, next) == Encode(Written(s).ram) || !GoodPage(torn, s.start, next))
  }

  /** Wherever power fails inside a save, the next boot returns the record before it and touches nothing, or flash
      is that of the completed save. */
  lemma CutDuringSave(s: Store, torn: seq<byte>)
    requires Logging(s) && SlotOf(s) + 1 < SLOTS
    requires CutInErase(s, torn) || CutInProgram(s, torn)
    ensures KeptRecord(s, torn) || torn == Written(s).cells
  {
    hide Encode, Decode, Valid, RestErased, Chain, PageReady, Written, KeptRecord;
    var next := SlotOf(s) + 1;
    if CutInProgram(s, torn) && Page(torn, s.start, next) == Encode(Written(s).ram) {
      LateCutIsComplete(s, torn);
    } else {
      NothingFollows(s, torn);
      TornWriteRecovers(s, torn);
    }
  }

  /** So a reset after the cut gives the old reading or the new one, unless the new one went to the last page. */
  lemma CutSaveRestores(s: Store, torn: seq<byte>)
    requires Logging(s) && SlotOf(s) + 2 < SLOTS
    requires CutInErase(s, torn) || CutInProgram(s, torn)
    ensures var r := Initialised(PowerCycled(s.(cells := torn)));
      (SlotOf(r) == SlotOf(s) && CellOf(r.ram) == Durable(s))
      || (SlotOf(r) == SlotOf(s) + 1 && CellOf(r.ram) == CellOf(s.ram).(top := NextTop(s.ram.top)))
  {
    hide Encode, Decode, Valid, RestErased, Chain, PageReady, Written, CutInErase, CutInProgram, NoImpostor, Initialised;
    CutDuringSave(s, torn);
    if KeptRecord(s, torn) {
      KeptSlot(s, torn);
    } else {
      LogWriteStep(s);
      WrittenElsewhere(s);
      BootOutsideUpdate(Written(s));
      assert PowerCycled(s.(cells := torn)) == PowerCycled(Written(s));
    }
  }

  lemma WrittenElsewhere(s: Store)
    requires Shaped(s)
    ensures Written(s).nv == s.nv && Written(s).bootHigh == s.bootHigh
  {
    LogWriteIsAppend(s);
    hide Written;
  }

  /** The next boot returns record k at its page, with flash and NV as they are. */
  predicate KeptRecord(s: Store, torn: seq<byte>)
    requires Shaped(s) && |torn| == FLASH_SIZE
  {
    var r := Initialised(PowerCycled(s.(cells := torn)));
    r.ram.addrStart == s.ram.addrStart && r.start == s.start && CellOf(r.ram) == CellOf(Rec(s.cells, s.start, SlotOf(s)))
    && r.cells == torn && r.nv == s.nv
  }

  lemma KeptSlot(s: Store, torn: seq<byte>)
    requires Shaped(s) && |torn| == FLASH_SIZE && KeptRecord(s, torn)
    ensures var r := Initialised(PowerCycled(s.(cells := torn)));
      SlotOf(r) == SlotOf(s) && CellOf(r.ram) == CellOf(Rec(s.cells, s.start, SlotOf(s)))
  {
    hide Initialised, Rec, Log;
  }

  /** What an erase cut short leaves of the next page may be an old record, but never the log's own next one. */
  lemma NothingFollows(s: Store, torn: seq<byte>)
    requires Logging(s) && SlotOf(s) + 1 < SLOTS
    requires CutInErase(s, torn) || (CutInProgram(s, torn) && !GoodPage(torn, s.start, SlotOf(s) + 1))
    ensures !Continues(torn, s.start, SlotOf(s))
  {
    hide Encode, Decode, Valid, RestErased, Chain, PageReady, Written;
    var k := SlotOf(s);
    if GoodPage(torn, s.start, k + 1) {
      TornKeepsPage(s, torn, k);
      NoSuccessor(s.cells, s.start, k);
    }
  }

  /** A cut that comes after the last cell has been programmed leaves exactly a completed save. */
  lemma LateCutIsComplete(s: Store, torn: seq<byte>)
    requires Shaped(s) && SlotOf(s) + 1 < SLOTS
    requires var a := s.start + 256 * (SlotOf(s) + 1);
      |torn| == FLASH_SIZE && torn[a..a + RECORD_SIZE] == Encode(Written(s).ram)
      && SameOutside(PageReady(s.cells, a), torn, a, a + RECORD_SIZE)
    ensures torn == Written(s).cells
  {
    hide Encode, Decode, Valid, RestErased, Chain, Checksum, NextTop, PageReady;
    var a := s.start + 256 * (SlotOf(s) + 1);
    SaveLandsOnErasedPage(s);
    LogWriteIsAppend(s);
    assert NextAddr(s) == a;
    var w := Written(s).cells;
    forall i | 0 <= i < FLASH_SIZE
      ensures torn[i] == w[i]
    {
      if a <= i < a + RECORD_SIZE {
        assert torn[a..a + RECORD_SIZE][i - a] == w[a..a + RECORD_SIZE][i - a];
      }
    }
  }

  /** As long as nothing continues the log, the next boot finds the record before the torn one. */
  lemma TornWriteRecovers(s: Store, torn: seq<byte>)
    requires Shaped(s) && SlotOf(s) + 1 < SLOTS
    requires CutInErase(s, torn) || CutInProgram(s, torn)
    requires !Continues(torn, s.start, SlotOf(s))
    ensures KeptRecord(s, torn)
  {
    hide Decode, Valid, RestErased, Scan, Erased, PageReady, Continues;
    var k := SlotOf(s);
    forall j | 0 <= j <= k
      ensures Page(torn, s.start, j) == Page(s.cells, s.start, j)
    {
      TornKeepsPage(s, torn, j);
    }
    hide Page;
    forall j | 0 <= j <= k
      ensures GoodPage(torn, s.start, j) && Rec(torn, s.start, j) == Rec(s.cells, s.start, j)
    {
      assert GoodPage(s.cells, s.start, j);
    }
    ScanFindsNewest(torn, s.start, k);
    assert GoodPage(s.cells, s.start, 0);
    ValidIdentifier(Page(s.cells, s.start, 0));
    hide Chain;
  }

  lemma TornKeepsPage(s: Store, torn: seq<byte>, j: nat)
    requires Shaped(s) && SlotOf(s) + 1 < SLOTS && j <= SlotOf(s)
    requires CutInErase(s, torn) || CutInProgram(s, torn)
    ensures Page(torn, s.start, j) == Page(s.cells, s.start, j)
  {
    hide Decode, Encode, Valid, PageReady, Chain, GoodPage, Written;
    var next := SlotOf(s) + 1;
    if CutInErase(s, torn) {
      SamePage(torn, s.cells, s.start, j);
    } else {
      PageIsReady(s.cells, s.start, SlotOf(s), next);
      assert next % 16 != 0 || j / 16 != next / 16;
      var ready := PageReady(s.cells, s.start + 256 * next);
      SamePage(torn, ready, s.start, j);
    }
  }

  // ----- wear -----

  /** Sectors erased by a series of saves, oldest first. */
  function EraseLog(s: Store, rs: seq<Reading>): seq<nat>
    decreases |rs|
  {
    if rs == [] then []
    else EraseLog(s, rs[..|rs| - 1]) + WriteErases(Saves(s, rs[..|rs| - 1]))
  }

  function Times(log: seq<nat>, addr: nat): nat
  {
    if log == [] then 0
    else Times(log[..|log| - 1], addr) + if log[|log| - 1] == addr then 1 else 0
  }

  /** One when the sector opens at or before page k, else none. */
  function Opened(sector: nat, k: nat): nat { if 16 * sector <= k then 1 else 0 }

  /** Laps completed and place reached after p pages. */
  function Laps(p: nat): nat { p / 832 }
  function Place(p: nat): nat { p % 832 }

  lemma {:induction false} SavesPlace(s: Store, rs: seq<Reading>)
    requires Shaped(s)
    ensures var t := Saves(s, rs);
      Shaped(t) && t.start == s.start && SlotOf(t) == Place(SlotOf(s) + |rs|)
    decreases |rs|
  {
    hide Decode, Valid, Page, RestErased, Chain, Written, Shaped, SlotOf, Place;
    FirstLap(s);
    if rs != [] {
      var n := |rs| - 1;
      SavesPlace(s, rs[..n]);
      var t := Saves(s, rs[..n]);
      NextSave(t, t.(ram := t.ram.(hot := rs[n].hot, cold := rs[n].cold, litersPerPulse := rs[n].litersPerPulse)));
      LapPosition(SlotOf(s) + n, 0);
    }
  }

  /** Sectors are erased in turn: once a lap each, when the log enters them. */
  lemma {:induction false} EraseCount(s: Store, rs: seq<Reading>, sector: nat)
    requires Shaped(s) && sector < 52
    ensures var p := SlotOf(s) + |rs|;
      Times(EraseLog(s, rs), s.start + 4096 * sector) + Opened(sector, SlotOf(s))
      == Laps(p) + Opened(sector, Place(p))
    decreases |rs|
  {
    hide Decode, Valid, Page, RestErased, Chain, Saves, Shaped, SlotOf, WriteErases, NextSlot, Opened, Laps, Place;
    FirstLap(s);
    if rs != [] {
      var n := |rs| - 1;
      EraseCount(s, rs[..n], sector);
      SavesPlace(s, rs[..n]);
      NextErases(Saves(s, rs[..n]), sector);
      LapPosition(SlotOf(s) + n, sector);
      TimesAppend(EraseLog(s, rs[..n]), WriteErases(Saves(s, rs[..n])), s.start + 4096 * sector);
    }
  }

  lemma NextSave(t: Store, u: Store)
    requires Shaped(t)
    requires u == t.(ram := t.ram.(hot := u.ram.hot, cold := u.ram.cold, litersPerPulse := u.ram.litersPerPulse))
    ensures Shaped(Written(u)) && Written(u).start == t.start && SlotOf(Written(u)) == NextSlot(SlotOf(t))
  {
    hide Decode, Valid, Page, RestErased, Chain, Appended, Written, NextTop, Checksum;
    AppendStep(u);
    LogWriteIsAppend(u);
  }

  lemma NextErases(t: Store, sector: nat)
    requires Shaped(t) && sector < 52
    ensures Times(WriteErases(t), t.start + 4096 * sector) == if NextSlot(SlotOf(t)) == 16 * sector then 1 else 0
  {
    hide Decode, Valid, Page, RestErased, Chain, Times;
    var a := t.start + 256 * NextSlot(SlotOf(t));
    assert NextAddr(t) == a;
    TimesOfOne(a, t.start + 4096 * sector);
  }

  lemma TimesOfOne(a: nat, addr: nat)
    ensures Times([], addr) == 0 && Times([a], addr) == if a == addr then 1 else 0
  {
    assert [a][..0] == [];
  }

  lemma FirstLap(s: Store)
    requires Shaped(s)
    ensures Laps(SlotOf(s)) == 0 && Place(SlotOf(s)) == SlotOf(s)
  {
  }

  lemma LapPosition(p: nat, sector: nat)
    requires sector < 52
    ensures NextSlot(Place(p)) == Place(p + 1)
    ensures Laps(p + 1) + Opened(sector, Place(p + 1))
         == Laps(p) + Opened(sector, Place(p)) + if Place(p + 1) == 16 * sector then 1 else 0
  {
  }

  lemma TimesAppend(log: seq<nat>, more: seq<nat>, addr: nat)
    requires |more| <= 1
    ensures Times(log + more, addr) == Times(log, addr) + Times(more, addr)
  {
    if more == [] {
      assert log + more == log;
    } else {
      assert (log + more)[..|log|] == log && more[..0] == [];
    }
  }

  /** The log wears its 52 sectors evenly: over any number of saves no two differ by more than one erase. */
  lemma EvenWear(s: Store, rs: seq<Reading>, i: nat, j: nat)
    requires Shaped(s) && i < 52 && j < 52
    ensures Times(EraseLog(s, rs), s.start + 4096 * i) <= Times(EraseLog(s, rs), s.start + 4096 * j) + 1
  {
    hide EraseLog, Times, Shaped, Saves, SlotOf;
    EraseCount(s, rs, i);
    EraseCount(s, rs, j);
  }
}
