/** The device's own pages: what every sector of both regions can hold, whatever the run. */
module ConfigOwn {
  import opened Bytes
  import opened Flash
  import opened ConfigStore
  import opened ConfigLog
  import opened ConfigSteps

  // ----- sectors -----

  /** Pages j to e of a sector are consecutive records of the log, and the rest of the sector is erased. */
  predicate TidyTo(cells: seq<byte>, start: nat, j: nat, e: nat)
    requires Region(cells, start) && j <= e < SLOTS
  {
    (forall i :: j <= i <= e ==>
       GoodPage(cells, start, i) && Rec(cells, start, i).newOta == 0
       && Rec(cells, start, i).top == TopAfter(Rec(cells, start, j).top, i - j))
    && RestErased(cells, start, e)
  }

  /** A sector whose first page is a record is the log's own, as far as it got. */
  ghost predicate TidySector(cells: seq<byte>, start: nat, j: nat)
    requires Region(cells, start) && j < SLOTS
  {
    GoodPage(cells, start, j) ==> exists e :: j <= e < SectorLimit(j) && e < SLOTS && TidyTo(cells, start, j, e)
  }

  ghost predicate TidyRegion(cells: seq<byte>, start: nat)
    requires Region(cells, start)
  {
    forall j :: 0 <= j < SLOTS && j % 16 == 0 ==> TidySector(cells, start, j)
  }

  ghost predicate Tidy(cells: seq<byte>)
  {
    |cells| == FLASH_SIZE && TidyRegion(cells, BEGIN_USER_DATA1) && TidyRegion(cells, BEGIN_USER_DATA2)
  }

  function FirstOf(k: nat): nat { k - k % 16 }

  /** The log stands at a page behind which its sector is erased, and before which it is the log's own, if at all. */
  predicate Current(s: Store)
  {
    AtSlot(s) && RestErased(s.cells, s.start, SlotOf(s))
    && (GoodPage(s.cells, s.start, FirstOf(SlotOf(s))) ==>
          TidyTo(s.cells, s.start, FirstOf(SlotOf(s)), SlotOf(s)) && Rec(s.cells, s.start, SlotOf(s)).top == s.ram.top)
  }

  predicate SameSector(a: seq<byte>, b: seq<byte>, start: nat, j: nat)
    requires Region(a, start) && Region(b, start) && j < SLOTS
  {
    forall i :: start + 256 * j <= i < start + 256 * j + 4096 ==> a[i] == b[i]
  }

  lemma SectorEnds(j: nat, e: nat)
    requires j % 16 == 0 && j <= e < j + 16 && j < SLOTS
    ensures e < SLOTS && SectorLimit(e) == SectorLimit(j) == j + 16 && FirstOf(e) == j
  {
  }

  lemma SameTidyTo(a: seq<byte>, b: seq<byte>, start: nat, j: nat, e: nat)
    requires Region(a, start) && Region(b, start) && j % 16 == 0 && j <= e < j + 16 && j < SLOTS && e < SLOTS
    requires SameSector(a, b, start, j) && TidyTo(a, start, j, e)
    ensures TidyTo(b, start, j, e)
  {
    hide Decode, Valid, Page, TopAfter;
    SectorEnds(j, e);
    forall i | j <= i <= e
      ensures Page(b, start, i) == Page(a, start, i)
    {
      SamePage(b, a, start, i);
    }
    forall i | j <= i <= e
      ensures GoodPage(b, start, i) && Rec(b, start, i) == Rec(a, start, i)
    {
      assert Page(b, start, i) == Page(a, start, i) && GoodPage(a, start, i);
    }
  }

  lemma SameSectorTidy(a: seq<byte>, b: seq<byte>, start: nat, j: nat)
    requires Region(a, start) && Region(b, start) && j % 16 == 0 && j < SLOTS
    requires SameSector(a, b, start, j) && TidySector(a, start, j)
    ensures TidySector(b, start, j)
  {
    hide Decode, Valid, TidyTo, RestErased;
    SamePage(b, a, start, j);
    hide Page;
    if GoodPage(b, start, j) {
      var e :| j <= e < SectorLimit(j) && e < SLOTS && TidyTo(a, start, j, e);
      SameTidyTo(a, b, start, j, e);
    }
  }

  lemma DeadSectorTidy(cells: seq<byte>, start: nat, j: nat)
    requires Region(cells, start) && j < SLOTS && Blank(cells, start + 256 * j, start + 256 * j + 4)
    ensures TidySector(cells, start, j)
  {
    hide Decode, Valid, Page;
    BlankPageInvalid(cells, start, j);
  }

  lemma RegionsApart(start: nat, other: nat, j: nat, i: nat)
    requires start == BEGIN_USER_DATA1 || start == BEGIN_USER_DATA2
    requires other == BEGIN_USER_DATA1 || other == BEGIN_USER_DATA2
    requires j % 16 == 0 && i % 16 == 0 && j < SLOTS && i < SLOTS && (start != other || i != j)
    ensures start + 256 * j + 4096 <= other + 256 * i || other + 256 * i + 4096 <= start + 256 * j
  {
  }

  /** A change inside one sector that leaves it tidy leaves everything tidy. */
  lemma OneSectorChanged(a: seq<byte>, b: seq<byte>, start: nat, j: nat)
    requires Tidy(a) && Region(b, start) && j % 16 == 0 && j < SLOTS
    requires SameOutside(a, b, start + 256 * j, start + 256 * j + 4096) && TidySector(b, start, j)
    ensures Tidy(b)
  {
    hide TidySector;
    forall other, i |
      (other == BEGIN_USER_DATA1 || other == BEGIN_USER_DATA2) && 0 <= i < SLOTS && i % 16 == 0
      ensures Region(b, other) && TidySector(b, other, i)
    {
      if other != start || i != j {
        RegionsApart(start, other, j, i);
        assert TidySector(a, other, i);
        SameSectorTidy(a, b, other, i);
      }
    }
    assert TidyRegion(b, BEGIN_USER_DATA1) && TidyRegion(b, BEGIN_USER_DATA2);
  }

  /** Erasing whole sectors from the start of a region leaves everything tidy. */
  lemma WipeTidy(cells: seq<byte>, from: nat, n: nat)
    requires Tidy(cells) && (from == BEGIN_USER_DATA1 || from == BEGIN_USER_DATA2)
    ensures Tidy(Wiped(cells, from, 4096 * n))
  {
    hide TidySector;
    var b := Wiped(cells, from, 4096 * n);
    forall start, j |
      (start == BEGIN_USER_DATA1 || start == BEGIN_USER_DATA2) && 0 <= j < SLOTS && j % 16 == 0
      ensures Region(b, start) && TidySector(b, start, j)
    {
      var a := start + 256 * j;
      WholeSectors(a, from, n);
      if from <= a < from + 4096 * n {
        DeadSectorTidy(b, start, j);
      } else {
        assert TidySector(cells, start, j);
        SameSectorTidy(cells, b, start, j);
      }
    }
    assert TidyRegion(b, BEGIN_USER_DATA1) && TidyRegion(b, BEGIN_USER_DATA2);
  }

  lemma WholeSectors(a: nat, from: nat, n: nat)
    requires a % 4096 == 0 && from % 4096 == 0
    ensures from <= a < from + 4096 * n || a + 4096 <= from || from + 4096 * n <= a
    ensures from <= a < from + 4096 * n ==> a + 4096 <= from + 4096 * n
  {
  }

  // ----- writes -----

  /** Bytes of the sector of page next, around what a log write changes. */
  lemma AppendInSector(cells: seq<byte>, start: nat, next: nat, data: seq<byte>)
    requires Region(cells, start) && next < SLOTS && |data| == RECORD_SIZE
    ensures var a := start + 256 * next;
      SameOutside(cells, Programmed(PageReady(cells, a), a, data),
                  start + 256 * FirstOf(next), start + 256 * FirstOf(next) + 4096)
  {
    var a := start + 256 * next;
    assert a % 4096 == 256 * (next % 16);
    if next % 16 == 0 {
      assert SectorOf(a) == a;
    }
  }

  lemma AloneTidy(cells: seq<byte>, start: nat, j: nat)
    requires Region(cells, start) && j < SLOTS && j % 16 == 0
    requires GoodPage(cells, start, j) && Rec(cells, start, j).newOta == 0 && RestErased(cells, start, j)
    ensures TidyTo(cells, start, j, j) && TidySector(cells, start, j)
  {
    hide Decode, Valid, Page, RestErased;
    assert TidyTo(cells, start, j, j);
  }

  lemma OneMoreTidy(a: seq<byte>, b: seq<byte>, start: nat, j: nat, next: nat)
    requires Region(a, start) && Region(b, start) && j % 16 == 0 && j < next < j + 16 && next < SLOTS
    requires TidyTo(a, start, j, next - 1)
    requires forall i :: j <= i < next ==> Page(b, start, i) == Page(a, start, i)
    requires GoodPage(b, start, next) && Rec(b, start, next).newOta == 0 && RestErased(b, start, next)
    requires Rec(b, start, next).top == NextTop(Rec(a, start, next - 1).top)
    ensures TidyTo(b, start, j, next)
  {
    hide Decode, Valid, Page, RestErased;
    forall i | j <= i < next
      ensures GoodPage(b, start, i) && Rec(b, start, i) == Rec(a, start, i)
    {
      assert Page(b, start, i) == Page(a, start, i) && GoodPage(a, start, i);
    }
    assert Rec(a, start, next - 1).top == TopAfter(Rec(a, start, j).top, next - 1 - j);
  }

  /** A log write keeps every sector tidy, and its own as far as it got. */
  lemma SaveTidy(s: Store)
    requires Tidy(s.cells) && Current(s)
    ensures var w := Written(s);
      Tidy(w.cells) && Current(w) && SlotOf(w) == NextSlot(SlotOf(s)) && w.ram.top == NextTop(s.ram.top)
      && w.ram.newOta == 0
  {
    hide Encode, Decode, Valid, Page, RestErased, Checksum, NextTop, TopAfter, Written, Tidy, TidyTo, Appended;
    var k, next := SlotOf(s), NextSlot(SlotOf(s));
    var c := s.ram.(addrStart := s.start + 256 * next, top := NextTop(s.ram.top));
    LogWriteIsAppend(s);
    AppendStores(s.cells, s.start, k, c);
    SealedRecord(c);
    AddressSlot(s.start, next);
    var w, j := Written(s), FirstOf(next);
    assert GoodPage(w.cells, w.start, next) && Rec(w.cells, w.start, next).top == c.top;
    AppendedInSector(s.cells, s.start, k, c);
    SectorEnds(j, next);
    if next % 16 == 0 {
      AloneTidy(w.cells, w.start, next);
    } else if GoodPage(w.cells, w.start, j) {
      assert next == k + 1 && FirstOf(k) == j;
      assert Page(w.cells, w.start, j) == Page(s.cells, s.start, j);
      OneMoreTidy(s.cells, w.cells, s.start, j, next);
    }
    OneSectorChanged(s.cells, w.cells, s.start, j);
  }

  lemma AppendedInSector(cells: seq<byte>, start: nat, k: nat, c: Config)
    requires Region(cells, start) && k < SLOTS
    ensures var j := FirstOf(NextSlot(k));
      SameOutside(cells, Appended(cells, start, k, c), start + 256 * j, start + 256 * j + 4096)
  {
    hide Encode, Seal, Programmed, PageReady;
    AppendInSector(cells, start, NextSlot(k), Encode(Seal(c)));
  }

  /** The write that restarts the log makes its first sector anew. */
  lemma RestartSector(t: Store)
    requires Region(t.cells, t.start) && t.start == RegionStart(t.bootHigh)
    requires t.ram.id == ID_CONFIG && t.ram.newOta == 0 && t.ram.addrStart == t.start
    ensures var r := RestoreWritten(t);
      Region(r.cells, t.start) && r.start == t.start && Current(r) && TidySector(r.cells, t.start, 0)
      && SameOutside(t.cells, r.cells, t.start, t.start + 4096)
  {
    hide Encode, Decode, Valid, Page, RestErased, Checksum, TidyTo, TopAfter;
    var r := RestoreWritten(t);
    RestartStep(t);
    RestartedLog(t.cells, t.start, t.ram);
    SealedRecord(t.ram);
    AloneTidy(r.cells, r.start, 0);
    RestartInSector(t.cells, t.start, Encode(Seal(t.ram)));
  }

  lemma RestartInSector(cells: seq<byte>, start: nat, data: seq<byte>)
    requires Region(cells, start) && |data| == RECORD_SIZE
    ensures SameOutside(cells, Programmed(Erased(cells, start), start, data), start, start + 4096)
  {
    assert SectorOf(start) == start;
  }

  lemma RestartTidy(t: Store)
    requires Tidy(t.cells) && Region(t.cells, t.start) && t.start == RegionStart(t.bootHigh)
    requires t.ram.id == ID_CONFIG && t.ram.newOta == 0 && t.ram.addrStart == t.start
    ensures Tidy(RestoreWritten(t).cells) && Current(RestoreWritten(t))
  {
    hide RestoreWritten, Tidy, Current;
    RestartSector(t);
    OneSectorChanged(t.cells, RestoreWritten(t).cells, t.start, 0);
  }

  /** A default leaves its own region tidy whatever was in it, and the other one as it was. */
  lemma DefaultedRegion(t: Store)
    requires Region(t.cells, t.start) && t.start == RegionStart(t.bootHigh)
    ensures var r, other := Defaulted(t), RegionStart(!t.bootHigh);
      Region(r.cells, t.start) && r.start == t.start && TidyRegion(r.cells, t.start) && Current(r)
      && (TidyRegion(r.cells, other) <==> TidyRegion(t.cells, other))
  {
    hide RestoreWritten, Current, TidyRegion, TidySector;
    var r, other := Defaulted(t), RegionStart(!t.bootHigh);
    var cleared := t.(cells := Wiped(t.cells, t.start, USER_DATA_SIZE),
                      ram := DefaultConfig(t.start), defaultConfig := true);
    RestartSector(cleared);
    assert r.cells == RestoreWritten(cleared).cells;
    ClearedRegion(t.cells, r.cells, t.start);
    assert forall i :: other <= i < other + 212992 ==> t.cells[i] == r.cells[i];
    SameRegionTidy(t.cells, r.cells, other);
    SameRegionTidy(r.cells, t.cells, other);
  }

  lemma ClearedRegion(cells: seq<byte>, after: seq<byte>, start: nat)
    requires Region(cells, start) && Region(after, start) && TidySector(after, start, 0)
    requires SameOutside(Wiped(cells, start, USER_DATA_SIZE), after, start, start + 4096)
    ensures TidyRegion(after, start)
  {
    hide TidySector;
    forall j | 0 <= j < SLOTS && j % 16 == 0
      ensures TidySector(after, start, j)
    {
      if j > 0 {
        DeadSectorTidy(after, start, j);
      }
    }
  }

  lemma SameRegionTidy(a: seq<byte>, b: seq<byte>, start: nat)
    requires Region(a, start) && Region(b, start)
    requires forall i :: start <= i < start + 212992 ==> a[i] == b[i]
    ensures TidyRegion(a, start) ==> TidyRegion(b, start)
  {
    hide TidySector;
    if TidyRegion(a, start) {
      forall j | 0 <= j < SLOTS && j % 16 == 0
        ensures TidySector(b, start, j)
      {
        SameSectorTidy(a, b, start, j);
      }
    }
  }

  lemma DefaultTidy(t: Store)
    requires Tidy(t.cells) && Region(t.cells, t.start) && t.start == RegionStart(t.bootHigh)
    ensures Tidy(Defaulted(t).cells) && Current(Defaulted(t))
  {
    hide Defaulted, TidyRegion, Current;
    DefaultedRegion(t);
  }

  /** A download leaves each sector as it was or with a first page that is no record. */
  predicate CleanDownload(before: seq<byte>, after: seq<byte>)
    requires |before| == FLASH_SIZE
  {
    |after| == FLASH_SIZE ==>
      forall j :: 0 <= j < SLOTS && j % 16 == 0 ==>
        (SameSector(before, after, BEGIN_USER_DATA1, j) || !GoodPage(after, BEGIN_USER_DATA1, j))
        && (SameSector(before, after, BEGIN_USER_DATA2, j) || !GoodPage(after, BEGIN_USER_DATA2, j))
  }

  lemma DownloadTidy(before: seq<byte>, after: seq<byte>)
    requires Tidy(before) && |after| == FLASH_SIZE && CleanDownload(before, after)
    ensures Tidy(after)
  {
    hide Decode, Valid, Page, TidyTo;
    forall start, j |
      (start == BEGIN_USER_DATA1 || start == BEGIN_USER_DATA2) && 0 <= j < SLOTS && j % 16 == 0
      ensures Region(after, start) && TidySector(after, start, j)
    {
      assert TidySector(before, start, j);
      if SameSector(before, after, start, j) {
        SameSectorTidy(before, after, start, j);
      }
    }
    assert TidyRegion(after, BEGIN_USER_DATA1) && TidyRegion(after, BEGIN_USER_DATA2);
  }

  // ----- a reset that goes on into old pages -----

  /** Where the chain from page 0 ends: it takes in old pages that continue it. */
  lemma {:induction false} ChainGoesOn(cells: seq<byte>, start: nat, k: nat)
    requires Chain(cells, start, k)
    ensures var r := Scan(cells, start, k);
      r.Some? ==> k <= r.value && Chain(cells, start, r.value) && !Continues(cells, start, r.value)
    decreases SLOTS - k
  {
    hide Decode, Valid, Page;
    if k + 1 < SLOTS && Continues(cells, start, k) {
      ChainLonger(cells, start, k);
      ChainGoesOn(cells, start, k + 1);
    }
  }

  lemma ChainLonger(cells: seq<byte>, start: nat, k: nat)
    requires Chain(cells, start, k) && k + 1 < SLOTS && Continues(cells, start, k)
    ensures Chain(cells, start, k + 1)
  {
    hide Decode, Valid, Page;
    assert GoodPage(cells, start, k + 1);
    forall j | 0 <= j <= k
      ensures Rec(cells, start, k + 1).top == TopAfter(Rec(cells, start, j).top, k + 1 - j)
    {
      assert Rec(cells, start, k).top == TopAfter(Rec(cells, start, j).top, k - j);
    }
  }

  /** In a tidy region a chain ends where its sector does, or before an erased rest. */
  lemma ChainEnd(cells: seq<byte>, start: nat, e: nat)
    requires Tidy(cells) && Chain(cells, start, e) && e + 1 < SLOTS && !Continues(cells, start, e)
    ensures TidyTo(cells, start, FirstOf(e), e)
  {
    hide Decode, Valid, Page, RestErased, Chain;
    var j := FirstOf(e);
    ChainPages(cells, start, e, j);
    ChainPages(cells, start, e, e);
    assert TidySector(cells, start, j);
    var last :| j <= last < SectorLimit(j) && last < SLOTS && TidyTo(cells, start, j, last);
    SectorEnds(j, e);
    SectorEnds(j, last);
    if last < e {
      ChainPages(cells, start, e, last + 1);
      RestPageInvalid(cells, start, last);
    } else if last > e {
      TidyContinues(cells, start, j, last, e);
    }
  }

  lemma ChainPages(cells: seq<byte>, start: nat, e: nat, i: nat)
    requires Chain(cells, start, e) && i <= e
    ensures Region(cells, start) && e < SLOTS && GoodPage(cells, start, i)
  {
    hide Decode, Valid, Page;
  }

  lemma RestPageInvalid(cells: seq<byte>, start: nat, last: nat)
    requires Region(cells, start) && last + 1 < SectorLimit(last) && last + 1 < SLOTS && RestErased(cells, start, last)
    ensures !GoodPage(cells, start, last + 1)
  {
    hide Decode, Valid, Page;
    BlankPageInvalid(cells, start, last + 1);
  }

  lemma TidyContinues(cells: seq<byte>, start: nat, j: nat, last: nat, e: nat)
    requires Region(cells, start) && j <= e < last < SLOTS && TidyTo(cells, start, j, last)
    ensures Continues(cells, start, e)
  {
    hide Decode, Page, RestErased;
    assert GoodPage(cells, start, e + 1);
    assert Rec(cells, start, e).top == TopAfter(Rec(cells, start, j).top, e - j);
    assert Rec(cells, start, e + 1).top == TopAfter(Rec(cells, start, j).top, e + 1 - j);
    hide Valid;
  }

  /** A reset outside an update meets a page that continues the log. */
  predicate Misled(s: Store)
  {
    Region(s.cells, s.start) && s.ram.newOta == 0 && SlotOf(s) + 1 < SLOTS && !CutOff(s)
    && Continues(s.cells, s.start, SlotOf(s))
  }

  /** A reset outside an update comes up with the last page of the chain, whole and well placed: the newest record if
      nothing continues it, else the last of the old pages that do; or with the default when the chain runs to the
      end of the region. */
  lemma ScanBoot(s: Store)
    requires Shaped(s) && Tidy(s.cells)
    ensures var r, scan := Initialised(PowerCycled(s)), Scan(s.cells, s.start, SlotOf(s));
      Shaped(r) && Tidy(r.cells) && Current(r) && Durable(r) == CellOf(r.ram)
      && (scan.None? ==> CellOf(r.ram) == DEFAULT_CELL && SlotOf(r) == 0)
      && (scan.Some? ==> r.cells == s.cells && r.start == s.start && SlotOf(r) == scan.value >= SlotOf(s)
                         && CellOf(r.ram) == CellOf(Rec(s.cells, s.start, scan.value))
                         && r.ram.top == TopAfter(s.ram.top, scan.value - SlotOf(s)))
      && (scan == Some(SlotOf(s)) <==> SlotOf(s) + 1 < SLOTS && !Continues(s.cells, s.start, SlotOf(s)))
  {
    hide Decode, Valid, Page, RestErased, Tidy, TidyTo, Defaulted, Continues, Chain;
    var k, scan := SlotOf(s), Scan(s.cells, s.start, SlotOf(s));
    ScanReachesEnd(s.cells, s.start, k, 0);
    FirstPageKnown(s);
    if scan.None? {
      DefaultStep(PowerCycled(s).(start := s.start));
      DefaultTidy(PowerCycled(s).(start := s.start));
    } else {
      ChainGoesOn(s.cells, s.start, k);
      ChainEnd(s.cells, s.start, scan.value);
      ResurrectedShaped(s, scan.value);
    }
  }

  lemma ResurrectedShaped(s: Store, e: nat)
    requires Shaped(s) && e < SLOTS && SlotOf(s) <= e && Chain(s.cells, s.start, e)
    requires TidyTo(s.cells, s.start, FirstOf(e), e)
    ensures var r := PowerCycled(s).(start := s.start, ram := Rec(s.cells, s.start, e).(addrStart := s.start + 256 * e));
      Shaped(r) && Current(r) && SlotOf(r) == e && r.ram.top == TopAfter(s.ram.top, e - SlotOf(s))
  {
    hide Decode, Valid, Page;
    ChainPages(s.cells, s.start, e, e);
    ValidIdentifier(Page(s.cells, s.start, e));
    AddressSlot(s.start, e);
    hide RestErased;
  }

  // ----- erasing for a download -----

  /** What the erase of whole sectors leaves of the current one. */
  lemma EraseCurrent(s: Store, n: nat)
    requires Current(s)
    ensures Current(s.(cells := Wiped(s.cells, s.start, 4096 * n)))
  {
    hide Decode, Valid, Page, TidyTo;
    var b, k, j := Wiped(s.cells, s.start, 4096 * n), SlotOf(s), FirstOf(SlotOf(s));
    SectorEnds(j, k);
    WholeSectors(s.start + 256 * j, s.start, n);
    hide RestErased;
    if n > 0 {
      WipedPages(s.cells, s.start, n);
      if GoodPage(b, s.start, j) {
        assert j >= 16 * n;
        SamePage(b, s.cells, s.start, j);
        SamePage(b, s.cells, s.start, k);
        SameTidyTo(s.cells, b, s.start, j, k);
      }
    } else {
      NothingWiped(s.cells, s.start);
    }
  }
}
