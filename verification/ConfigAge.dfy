/** Old pages: when the log meets one as its own next record, and how long it cannot. */
module ConfigAge {
  import opened Bytes
  import opened Flash
  import opened ConfigStore
  import opened ConfigLog
  import opened ConfigSteps
  import opened ConfigOwn
  import opened ConfigFaults
  import opened ConfigRuns

  /** A page that opens a sector, other than page 0. */
  predicate Opens(start: nat, j: nat)
  {
    (start == BEGIN_USER_DATA1 || start == BEGIN_USER_DATA2) && 0 < j < SLOTS && j % 16 == 0
  }

  // ----- pages of other laps -----

  /** The top that page 0 had, or would have had, on the lap that wrote page j. */
  function LapTop(cells: seq<byte>, start: nat, j: nat): u32
    requires Region(cells, start) && j < SLOTS
  {
    (Rec(cells, start, j).top + 0x1_0000_0000 - j) % 0x1_0000_0000
  }

  lemma LapTopIs(top: u32, t: u32, j: nat)
    requires j < SLOTS
    ensures (top + 0x1_0000_0000 - j) % 0x1_0000_0000 == t <==> top == TopAfter(t, j)
  {
  }

  /** Page 0 of a lap meets an impostor exactly if a page of a lap with the same top is still there. */
  lemma ImpostorIffLapTop(cells: seq<byte>, start: nat, j: nat)
    requires Region(cells, start) && 0 < j < SLOTS
    ensures Impostor(cells, start, 0, j)
            <==> GoodPage(cells, start, j) && LapTop(cells, start, j) == Rec(cells, start, 0).top
  {
    hide Decode, Valid, Page, TopAfter;
    LapTopIs(Rec(cells, start, j).top, Rec(cells, start, 0).top, j);
  }

  // ----- which pages an event leaves, and which it writes -----

  /** The event is the save that writes page j. */
  predicate WritesPage(s: Store, e: Event, start: nat, j: nat)
  {
    e.Save? && s.ram.newOta == 0 && s.start == start && NextSlot(SlotOf(s)) == j
  }

  lemma OutsideKeepsPage(a: seq<byte>, b: seq<byte>, from: nat, n: nat, start: nat, j: nat)
    requires Region(a, start) && Opens(start, j) && SameOutside(a, b, from, from + 4096 * n) && from % 4096 == 0
    requires start + 256 * j < from || from + 4096 * n <= start + 256 * j
    ensures Region(b, start) && Page(a, start, j) == Page(b, start, j)
  {
    WholeSectors(start + 256 * j, from, n);
    SamePage(a, b, start, j);
  }

  /** An erase of whole sectors leaves no page, or the page it finds. */
  lemma WipedPage(cells: seq<byte>, from: nat, n: nat, start: nat, j: nat)
    requires Region(cells, start) && Opens(start, j) && from % 4096 == 0
    ensures var b := Wiped(cells, from, 4096 * n);
      Region(b, start)
      && if from <= start + 256 * j < from + 4096 * n then !GoodPage(b, start, j)
         else Page(b, start, j) == Page(cells, start, j)
  {
    hide Decode, Valid, Page;
    var b := Wiped(cells, from, 4096 * n);
    WholeSectors(start + 256 * j, from, n);
    if from <= start + 256 * j < from + 4096 * n {
      BlankPageInvalid(b, start, j);
    } else {
      OutsideKeepsPage(cells, b, from, n, start, j);
    }
  }

  lemma RestoredPage(t: Store, start: nat, j: nat)
    requires Region(t.cells, t.start) && t.ram.addrStart == t.start && Opens(start, j)
    ensures Region(RestoreWritten(t).cells, start)
    ensures Page(RestoreWritten(t).cells, start, j) == Page(t.cells, start, j)
  {
    hide Encode, Page, Checksum;
    var r := RestoreWritten(t);
    RestartInSector(t.cells, t.start, Encode(Seal(t.ram)));
    OutsideKeepsPage(t.cells, r.cells, t.start, 1, start, j);
  }

  /** A default clears its own region of such pages and leaves those of the other one. */
  lemma DefaultedPage(t: Store, start: nat, j: nat)
    requires Region(t.cells, t.start) && Opens(start, j)
    ensures var b := Defaulted(t).cells;
      Region(b, start)
      && if start == t.start then !GoodPage(b, start, j) else Page(b, start, j) == Page(t.cells, start, j)
  {
    hide Decode, Valid, Page, RestoreWritten, Wiped;
    var cleared := t.(cells := Wiped(t.cells, t.start, USER_DATA_SIZE),
                      ram := DefaultConfig(t.start), defaultConfig := true);
    WipedPage(t.cells, t.start, 52, start, j);
    RestoredPage(cleared, start, j);
  }

  /** A boot leaves such a page as it is, unless it defaults the region of the page: then nothing is left there. */
  lemma BootPage(s: Store, start: nat, j: nat)
    requires |s.cells| == FLASH_SIZE && Opens(start, j)
    ensures var r := Initialised(s);
      Region(r.cells, start)
      && (Page(r.cells, start, j) == Page(s.cells, start, j)
          || (start == RegionStart(s.bootHigh) && !GoodPage(r.cells, start, j)
              && (s.nv.Some? && Valid(s.nv.value) ==> Decode(s.nv.value).newOta == 0)))
  {
    hide Decode, Valid, Page, RestoreWritten, Defaulted, Scan;
    var t := s.(start := RegionStart(s.bootHigh));
    DefaultedPage(t, start, j);
    if s.nv.Some? && Valid(s.nv.value) {
      ValidIdentifier(s.nv.value);
      RestoredPage(t.(ram := Decode(s.nv.value).(newOta := 0, addrStart := t.start, addrEnd := t.start + USER_DATA_SIZE),
                      defaultConfig := true), start, j);
    }
  }

  /** A save outside an update writes one such page at most, with the next record counter. */
  lemma SavedPage(s: Store, start: nat, j: nat)
    requires Current(s) && Opens(start, j)
    ensures var b := Written(s).cells;
      Region(b, start)
      && if s.start == start && NextSlot(SlotOf(s)) == j then Rec(b, start, j).top == NextTop(s.ram.top)
         else Page(b, start, j) == Page(s.cells, start, j)
  {
    hide Encode, Decode, Valid, Page, RestErased, Checksum, NextTop, Appended, TidyTo, Written;
    var next := NextSlot(SlotOf(s));
    var c := s.ram.(addrStart := s.start + 256 * next, top := NextTop(s.ram.top));
    LogWriteIsAppend(s);
    AppendedTop(s.cells, s.start, SlotOf(s), c);
    if s.start != start || next != j {
      AppendedElsewhere(s.cells, s.start, SlotOf(s), c, start, j);
    }
  }

  lemma AppendedTop(cells: seq<byte>, start: nat, k: nat, c: Config)
    requires Region(cells, start) && k < SLOTS && RestErased(cells, start, k) && c.id == ID_CONFIG
    ensures var b := Appended(cells, start, k, c); Region(b, start) && Rec(b, start, NextSlot(k)).top == c.top
  {
    hide Encode, Decode, Valid, Page, RestErased, Checksum, Appended;
    AppendStores(cells, start, k, c);
    SealedRecord(c);
    assert CellOf(Decode(Encode(Seal(c)))).top == c.top;
  }

  lemma AppendedElsewhere(cells: seq<byte>, from: nat, k: nat, c: Config, start: nat, j: nat)
    requires Region(cells, from) && k < SLOTS && RestErased(cells, from, k)
    requires Opens(start, j) && (from != start || NextSlot(k) != j)
    ensures var b := Appended(cells, from, k, c); Region(b, start) && Page(b, start, j) == Page(cells, start, j)
  {
    hide Encode, Seal, Page, RestErased, Appended;
    var next := NextSlot(k);
    if from != start || FirstOf(next) != j {
      AppendedInSector(cells, from, k, c);
      SectorApart(from, start, FirstOf(next), j);
      OutsideKeepsPage(cells, Appended(cells, from, k, c), from + 256 * FirstOf(next), 1, start, j);
    } else {
      AppendStores(cells, from, k, c);
    }
  }

  lemma SectorApart(from: nat, start: nat, i: nat, j: nat)
    requires Opens(start, j) && i < SLOTS && i % 16 == 0 && (from != start || i != j)
    requires from == BEGIN_USER_DATA1 || from == BEGIN_USER_DATA2
    ensures (from + 256 * i) % 4096 == 0
    ensures start + 256 * j < from + 256 * i || from + 256 * i + 4096 <= start + 256 * j
  {
    RegionsApart(from, start, i, j);
  }

  /** Every valid page that opens a sector was there before the event, or is what the event saves. */
  lemma PageKept(s: Store, m: Model, e: Event, start: nat, j: nat)
    requires |s.cells| == FLASH_SIZE && Represents(s, m) && CleanStep(s, e) && Opens(start, j)
    requires GoodPage(Step(s, e).cells, start, j)
    ensures Page(Step(s, e).cells, start, j) == Page(s.cells, start, j) || WritesPage(s, e, start, j)
    ensures WritesPage(s, e, start, j) ==> Rec(Step(s, e).cells, start, j).top == NextTop(s.ram.top)
  {
    hide Represents, Decode, Valid, Page, Written, Initialised, Wiped, Current, NextTop;
    RepresentsMeans(s, m);
    match e
    case Save =>
      if m.updating {
        RepresentsUpdating(s, m);
        NvKeepsCells(s);
      } else {
        SavedPage(s, start, j);
      }
    case EraseArea(sectors) => WipedPage(s.cells, RegionStart(s.bootHigh), sectors, start, j);
    case OtaStart => StartPage(s, m);
    case Download(cells) => DownloadedPage(s, cells, start, j);
    case OtaFail => BootPage(s, start, j);
    case OtaSuccess => BootPage(PowerCycled(s.(bootHigh := !s.bootHigh)), start, j);
    case Reboot => BootPage(PowerCycled(s), start, j);
    case Preset(_, _, _) =>
  }

  lemma RepresentsUpdating(s: Store, m: Model)
    requires Represents(s, m) && m.updating
    ensures Updating(s) && m.stored == CellOf(Decode(s.nv.value))
  {
    hide Tidy, Decode, Valid;
  }

  lemma StartPage(s: Store, m: Model)
    requires Represents(s, m)
    ensures |s.cells| == FLASH_SIZE && Step(s, OtaStart).cells == s.cells
  {
    hide Written, Decode, Valid, Log, RestErased, Rec, Tidy, CutOff, TidyTo, GoodPage;
    CutOffSteady(s);
    StartKeepsCells(s);
  }

  lemma DownloadedPage(s: Store, cells: seq<byte>, start: nat, j: nat)
    requires |s.cells| == FLASH_SIZE && CleanStep(s, Download(cells)) && Opens(start, j)
    ensures var r := Step(s, Download(cells));
      GoodPage(r.cells, start, j) ==> Page(r.cells, start, j) == Page(s.cells, start, j)
  {
    hide Decode, Valid;
    if s.ram.newOta != 0 && |cells| == FLASH_SIZE && SameSector(s.cells, cells, start, j) {
      SamePage(s.cells, cells, start, j);
    }
  }

  // ----- whose pages they are -----

  /** Over every clean run, each valid page that opens a sector was there at the start, or is the record of a save of
      the run, in that region and at that page. */
  lemma {:induction false} PagesAreOwn(s: Store, m: Model, es: seq<Event>, start: nat, j: nat)
    requires |s.cells| == FLASH_SIZE && Represents(s, m) && CleanRun(s, es) && Opens(start, j)
    requires GoodPage(Run(s, es).cells, start, j)
    ensures Page(Run(s, es).cells, start, j) == Page(s.cells, start, j)
            || exists i :: 0 <= i < |es| && SavedAt(s, es, i, start, j)
    decreases |es|
  {
    hide Represents, CleanRun, CleanStep, Step, Decode, Valid, Page, WritesPage, NextTop;
    if es != [] {
      var init, e := es[..|es| - 1], es[|es| - 1];
      CleanPrefix(s, es);
      RunRefines(s, m, init);
      var t := Run(s, init);
      PageKept(t, ModelRun(s, m, init), e, start, j);
      if WritesPage(t, e, start, j) {
        assert es[..|es|] == es;
        assert SavedAt(s, es, |es| - 1, start, j);
      } else {
        PagesAreOwn(s, m, init, start, j);
        SavedLater(s, es, start, j);
      }
    }
  }

  /** Event i of the run saved page j, and its record is still there. */
  predicate SavedAt(s: Store, es: seq<Event>, i: nat, start: nat, j: nat)
    requires |s.cells| == FLASH_SIZE && i < |es| && Opens(start, j)
  {
    var t := Run(s, es[..i]);
    WritesPage(t, es[i], start, j) && Page(Step(t, es[i]).cells, start, j) == Page(Run(s, es).cells, start, j)
    && Rec(Run(s, es).cells, start, j).top == NextTop(t.ram.top)
  }

  lemma SavedLater(s: Store, es: seq<Event>, start: nat, j: nat)
    requires |s.cells| == FLASH_SIZE && es != [] && Opens(start, j)
    requires Page(Run(s, es).cells, start, j) == Page(Run(s, es[..|es| - 1]).cells, start, j)
    ensures var init := es[..|es| - 1];
      (exists i :: 0 <= i < |init| && SavedAt(s, init, i, start, j))
      ==> exists i :: 0 <= i < |es| && SavedAt(s, es, i, start, j)
  {
    hide Step, Run, Decode, Page, WritesPage, NextTop;
    var init := es[..|es| - 1];
    if i :| 0 <= i < |init| && SavedAt(s, init, i, start, j) {
      assert init[..i] == es[..i] && init[i] == es[i];
      assert SavedAt(s, es, i, start, j);
    }
  }

  // ----- when a restart is unclean -----

  /** The log restarts in front of an impostor if and only if some page that opens a sector of its region was written
      on a lap whose first page had the record counter that it restarts with. */
  lemma RestartUncleanIff(s: Store, m: Model, e: Event)
    requires |s.cells| == FLASH_SIZE && Represents(s, m) && Restarts(s, e)
    ensures var r := Step(s, e);
      Shaped(r) && SlotOf(r) == 0 && Region(s.cells, r.start)
      && (!NoImpostor(r.cells, r.start, 0) <==>
            exists j :: 0 < j < SLOTS && j % 16 == 0
                        && GoodPage(s.cells, r.start, j) && LapTop(s.cells, r.start, j) == m.stored.top)
      && (NoImpostor(r.cells, r.start, 0) <==> Logging(r))
  {
    hide Represents, Decode, Valid, Page, Step, NoImpostor, Log, RestErased, Updating, Impostor, LapTop, Tidy, Current;
    hide GoodPage, SlotOf;
    var r := Step(s, e);
    RepresentsMeans(s, m);
    RepresentsUpdating(s, m);
    RepresentsTidy(s, m);
    UpdateEnds(s, e);
    FirstTop(r);
    forall j | 0 < j < SLOTS && j % 16 == 0
      ensures Impostor(r.cells, r.start, 0, j) <==>
                GoodPage(s.cells, r.start, j) && LapTop(s.cells, r.start, j) == m.stored.top
    {
      RestartKeepsPage(s, m, e, r.start, j);
      ImpostorIffLapTop(r.cells, r.start, j);
      SameLapTop(r.cells, s.cells, r.start, j);
    }
    ImpostorExists(r.cells, r.start);
  }

  lemma FirstTop(r: Store)
    requires Shaped(r) && SlotOf(r) == 0
    ensures Region(r.cells, r.start) && (r.start == BEGIN_USER_DATA1 || r.start == BEGIN_USER_DATA2)
    ensures Rec(r.cells, r.start, 0).top == r.ram.top
  {
    hide Log, Rec, Decode, Valid;
  }

  lemma SameLapTop(a: seq<byte>, b: seq<byte>, start: nat, j: nat)
    requires Region(a, start) && Region(b, start) && j < SLOTS && Page(a, start, j) == Page(b, start, j)
    ensures GoodPage(a, start, j) == GoodPage(b, start, j) && LapTop(a, start, j) == LapTop(b, start, j)
  {
    hide Decode, Valid, Page;
  }

  lemma ImpostorExists(cells: seq<byte>, start: nat)
    requires Region(cells, start)
    ensures !NoImpostor(cells, start, 0) <==> exists j :: 0 < j < SLOTS && j % 16 == 0 && Impostor(cells, start, 0, j)
  {
    hide Impostor;
  }

  lemma RestartKeepsPage(s: Store, m: Model, e: Event, start: nat, j: nat)
    requires |s.cells| == FLASH_SIZE && Represents(s, m) && Restarts(s, e) && Opens(start, j)
    ensures Page(Step(s, e).cells, start, j) == Page(s.cells, start, j)
  {
    hide Represents, Decode, Valid, Page, Initialised;
    RepresentsMeans(s, m);
    RepresentsUpdating(s, m);
    BootPage(match e
             case OtaFail => s
             case OtaSuccess => PowerCycled(s.(bootHigh := !s.bootHigh))
             case _ => PowerCycled(s), start, j);
  }

  // ----- how long no page can mislead -----

  /** Saves from one record counter to another, going round at 2^32. */
  function Age(from: u32, to: u32): nat { (to + 0x1_0000_0000 - from) % 0x1_0000_0000 }

  /** Every page that opens a sector, in both regions, was written at most n saves before the present one. */
  ghost predicate Aged(cells: seq<byte>, top: u32, n: nat)
  {
    |cells| == FLASH_SIZE
    && forall start, j :: Opens(start, j) && GoodPage(cells, start, j) ==> Age(Rec(cells, start, j).top, top) <= n
  }

  /** With fewer than 2^32 saves between them, no page can pass for a later one of the present lap. */
  lemma TooYoung(from: u32, top: u32, n: nat, d: nat)
    requires Age(from, top) <= n && n + SLOTS <= 0x1_0000_0000 && 0 < d < SLOTS
    ensures from != TopAfter(top, d)
  {
  }

  lemma OneOlder(from: u32, top: u32)
    ensures Age(from, NextTop(top)) <= Age(from, top) + 1
    ensures Age(top, top) == 0
  {
  }

  /** A save to the log, outside an update. */
  predicate LogSave(s: Store, e: Event) { e.Save? && s.ram.newOta == 0 }

  function LogSaves(s: Store, es: seq<Event>): nat
    requires |s.cells| == FLASH_SIZE
    decreases |es|
  {
    if es == [] then 0
    else LogSaves(s, es[..|es| - 1]) + if LogSave(Run(s, es[..|es| - 1]), es[|es| - 1]) then 1 else 0
  }

  /** A reset that sets the record counter back to 0. */
  predicate SetsBack(s: Store, e: Event)
  {
    e.Reboot? && s.ram.newOta == 0 && (SlotOf(s) == SLOTS - 1 || CutOff(s))
  }

  /** It does so and leaves pages with a higher one behind, in the other region. */
  ghost predicate LeavesBehind(s: Store, e: Event)
    requires |s.cells| == FLASH_SIZE
  {
    SetsBack(s, e)
    && exists start, j :: Opens(start, j) && start != RegionStart(s.bootHigh) && GoodPage(s.cells, start, j)
  }

  lemma SetBackBoot(s: Store, m: Model)
    requires Represents(s, m) && SetsBack(s, Reboot)
    ensures |s.cells| == FLASH_SIZE && Step(s, Reboot) == Defaulted(PowerCycled(s).(start := RegionStart(s.bootHigh)))
  {
    hide Decode, Valid, Page, RestErased, Defaulted, Tidy, Represents, Continues, Chain;
    RepresentsMeans(s, m);
    if !CutOff(s) {
      FirstPageKnown(s);
      ScanReachesEnd(s.cells, s.start, SlotOf(s), 0);
    }
  }

  /** Then no page that opens a sector is left in the region of the log. */
  lemma SetBackPage(s: Store, m: Model, start: nat, j: nat)
    requires Represents(s, m) && SetsBack(s, Reboot) && Opens(start, j)
    ensures |s.cells| == FLASH_SIZE && Region(Step(s, Reboot).cells, start)
    ensures start == RegionStart(s.bootHigh) ==> !GoodPage(Step(s, Reboot).cells, start, j)
  {
    hide Decode, Valid, Page, Defaulted, Represents, SlotOf, CutOff;
    SetBackBoot(s, m);
    DefaultedPage(PowerCycled(s).(start := RegionStart(s.bootHigh)), start, j);
  }

  lemma ModelTop(s: Store, m: Model, e: Event)
    requires m.stored.top == m.working.top && (e.Reboot? ==> !Misled(s))
    ensures var n := ModelNext(s, m, e);
      n.stored.top == n.working.top
      && (!(e.Reboot? && !m.updating && (m.lost || m.slot == SLOTS - 1)) ==>
            n.working.top == if e.Save? && !m.updating then NextTop(m.working.top) else m.working.top)
  {
    hide Misled, NextTop;
  }

  /** What one event does to the record counter. */
  lemma TopStep(s: Store, m: Model, e: Event)
    requires |s.cells| == FLASH_SIZE && Represents(s, m) && CleanStep(s, e)
    requires m.stored.top == m.working.top && (e.Reboot? ==> !Misled(s))
    ensures var n := ModelNext(s, m, e);
      n.stored.top == n.working.top == Step(s, e).ram.top
      && (!SetsBack(s, e) ==> n.working.top == if LogSave(s, e) then NextTop(m.working.top) else m.working.top)
      && m.working.top == s.ram.top
  {
    hide Represents, Step, Misled, CleanStep, NextTop, Shaped, CutOff, Current, SlotOf, ModelNext, Rec;
    RepresentsMeans(s, m);
    ModelTop(s, m, e);
    StepRefines(s, m, e);
    RepresentsMeans(Step(s, e), ModelNext(s, m, e));
  }

  lemma AgedStep(s: Store, m: Model, e: Event, n: nat)
    requires |s.cells| == FLASH_SIZE && Represents(s, m) && CleanStep(s, e)
    requires m.stored.top == m.working.top && Aged(s.cells, s.ram.top, n) && !LeavesBehind(s, e)
    requires e.Reboot? ==> !Misled(s)
    ensures Aged(Step(s, e).cells, Step(s, e).ram.top, n + if LogSave(s, e) then 1 else 0)
  {
    hide Represents, Step, Misled, CleanStep, NextTop, Decode, Valid, Page, CutOff, SlotOf, Age;
    TopStep(s, m, e);
    var r := Step(s, e);
    forall start, j | Opens(start, j) && GoodPage(r.cells, start, j)
      ensures Age(Rec(r.cells, start, j).top, r.ram.top) <= n + if LogSave(s, e) then 1 else 0
    {
      PageKept(s, m, e, start, j);
      if SetsBack(s, e) {
        SetBackPage(s, m, start, j);
        assert false;
      }
      OneOlder(Rec(r.cells, start, j).top, s.ram.top);
      OneOlder(r.ram.top, r.ram.top);
    }
  }

  /** A reset is not misled as long as the pages are young enough. */
  lemma YoungNotMisled(s: Store, m: Model, n: nat)
    requires Represents(s, m) && Aged(s.cells, s.ram.top, n) && n + SLOTS <= 0x1_0000_0000
    ensures !Misled(s)
  {
    hide Represents, Decode, Valid, Page, CutOff, TopAfter, Age;
    RepresentsMeans(s, m);
    if Misled(s) {
      MisledAtSectorEnd(s);
      var j := SlotOf(s) + 1;
      assert Opens(s.start, j) && GoodPage(s.cells, s.start, j);
      TooYoung(Rec(s.cells, s.start, j).top, s.ram.top, n, 1);
      NextIsAfter(s.ram.top, Rec(s.cells, s.start, j).top);
    }
  }

  lemma NextIsAfter(top: u32, next: u32)
    ensures IsNextTop(top, next) <==> next == TopAfter(top, 1)
  {
  }

  lemma YoungRestart(s: Store, m: Model, e: Event, n: nat)
    requires |s.cells| == FLASH_SIZE && Represents(s, m) && Restarts(s, e) && m.stored.top == m.working.top
    requires Aged(s.cells, s.ram.top, n) && n + SLOTS <= 0x1_0000_0000
    ensures Logging(Step(s, e))
  {
    hide Represents, Decode, Valid, Page, Step, TopAfter, Age, NoImpostor, Shaped, SlotOf, LapTop;
    RepresentsMeans(s, m);
    RestartUncleanIff(s, m, e);
    var r := Step(s, e);
    forall j | 0 < j < SLOTS && j % 16 == 0 && GoodPage(s.cells, r.start, j)
      ensures LapTop(s.cells, r.start, j) != m.stored.top
    {
      assert Opens(r.start, j);
      TooYoung(Rec(s.cells, r.start, j).top, s.ram.top, n, j);
      LapTopOf(s.cells, r.start, j, m.stored.top);
    }
  }

  lemma LapTopOf(cells: seq<byte>, start: nat, j: nat, t: u32)
    requires Region(cells, start) && j < SLOTS
    ensures LapTop(cells, start, j) == t <==> Rec(cells, start, j).top == TopAfter(t, j)
  {
    hide Decode, Page, TopAfter;
    LapTopIs(Rec(cells, start, j).top, t, j);
  }

  ghost predicate NothingLeftBehind(s: Store, es: seq<Event>)
    requires |s.cells| == FLASH_SIZE
  {
    forall i :: 0 <= i < |es| ==> !LeavesBehind(Run(s, es[..i]), es[i])
  }

  lemma NothingLeftPrefix(s: Store, es: seq<Event>)
    requires |s.cells| == FLASH_SIZE && es != [] && NothingLeftBehind(s, es)
    ensures NothingLeftBehind(s, es[..|es| - 1]) && !LeavesBehind(Run(s, es[..|es| - 1]), es[|es| - 1])
  {
    hide Run, LeavesBehind;
    var init := es[..|es| - 1];
    forall i | 0 <= i < |init|
      ensures !LeavesBehind(Run(s, init[..i]), init[i])
    {
      assert init[..i] == es[..i];
    }
  }

  lemma {:induction false} StaysAged(s: Store, m: Model, es: seq<Event>, n: nat)
    requires |s.cells| == FLASH_SIZE && Represents(s, m) && CleanRun(s, es) && m.stored.top == m.working.top
    requires Aged(s.cells, s.ram.top, n) && n + LogSaves(s, es) + SLOTS <= 0x1_0000_0000
    requires NothingLeftBehind(s, es)
    ensures Aged(Run(s, es).cells, Run(s, es).ram.top, n + LogSaves(s, es))
    ensures var t := ModelRun(s, m, es); t.stored.top == t.working.top
    decreases |es|
  {
    hide Represents, Step, ModelNext, CleanStep, CleanRun, Aged, LeavesBehind, Misled, LogSave, NothingLeftBehind;
    if es != [] {
      var init, e := es[..|es| - 1], es[|es| - 1];
      CleanPrefix(s, es);
      NothingLeftPrefix(s, es);
      StaysAged(s, m, init, n);
      RunRefines(s, m, init);
      YoungNotMisled(Run(s, init), ModelRun(s, m, init), n + LogSaves(s, init));
      TopStep(Run(s, init), ModelRun(s, m, init), e);
      AgedStep(Run(s, init), ModelRun(s, m, init), e, n + LogSaves(s, init));
    }
  }

  /** Over every run with fewer than 2^32 saves since the oldest page was written, in which no reset goes back to the
      default and leaves pages behind in the other region: no reset is misled, and every update ends in a log that no
      old page can continue. */
  lemma YoungPagesNeverMislead(s: Store, m: Model, es: seq<Event>, n: nat)
    requires |s.cells| == FLASH_SIZE && Represents(s, m) && CleanRun(s, es) && m.stored.top == m.working.top
    requires Aged(s.cells, s.ram.top, n) && n + LogSaves(s, es) + SLOTS <= 0x1_0000_0000
    requires NothingLeftBehind(s, es)
    ensures !Misled(Run(s, es))
    ensures forall e :: Restarts(Run(s, es), e) ==> Logging(Step(Run(s, es), e))
  {
    hide Represents, Step, CleanRun, Aged, NothingLeftBehind, Misled, Run, ModelRun, LogSaves, Restarts, Logging;
    StaysAged(s, m, es, n);
    RunRefines(s, m, es);
    var u, t := Run(s, es), ModelRun(s, m, es);
    YoungNotMisled(u, t, n + LogSaves(s, es));
    forall e | Restarts(u, e)
      ensures Logging(Step(u, e))
    {
      YoungRestart(u, t, e, n + LogSaves(s, es));
    }
  }

  /** Then a reset restores the stored value exactly if an update holds it, or it is rooted and not in the last page. */
  lemma YoungResetRestoresIff(s: Store, m: Model, es: seq<Event>, n: nat)
    requires |s.cells| == FLASH_SIZE && Represents(s, m) && CleanRun(s, es) && !m.lost && m.stored.top == m.working.top
    requires Aged(s.cells, s.ram.top, n) && n + LogSaves(s, es) + SLOTS <= 0x1_0000_0000 && NothingLeftBehind(s, es)
    ensures var t, r := ModelRun(s, m, es), CellOf(Run(s, es + [Reboot]).ram);
      (r == t.stored || r == DEFAULT_CELL)
      && (r == t.stored <==>
            t.updating || (!Uprooted(s, m, es) && t.slot != SLOTS - 1) || t.stored == DEFAULT_CELL)
  {
    hide Represents, CleanRun, Aged, NothingLeftBehind, Misled, Run, ModelRun, LogSaves, Uprooted, Resurrected, Scan;
    YoungPagesNeverMislead(s, m, es, n);
    ResetRestoresIff(s, m, es);
  }

  /** A new device whose other region opens no sector with a valid page begins such runs. */
  lemma NewDeviceIsYoung(s: Store)
    requires |s.cells| == FLASH_SIZE && (s.nv == None || !Valid(s.nv.value))
    requires forall j :: 0 <= j < SLOTS && j % 16 == 0 ==> !GoodPage(s.cells, RegionStart(!s.bootHigh), j)
    ensures var r := Initialised(s);
      Represents(r, DEFAULT_MODEL) && Aged(r.cells, r.ram.top, 0)
  {
    hide Represents, Decode, Valid, Page, Defaulted, Age, TidySector, Logging;
    OtherRegionTidy(s);
    FirstBoot(s);
    var r := Initialised(s);
    forall start, j | Opens(start, j)
      ensures Region(r.cells, start) && !GoodPage(r.cells, start, j)
    {
      DefaultedPage(s.(start := RegionStart(s.bootHigh)), start, j);
    }
  }

  lemma OtherRegionTidy(s: Store)
    requires |s.cells| == FLASH_SIZE
    requires forall j :: 0 <= j < SLOTS && j % 16 == 0 ==> !GoodPage(s.cells, RegionStart(!s.bootHigh), j)
    ensures TidyRegion(s.cells, RegionStart(!s.bootHigh))
  {
    hide Decode, Valid, Page, TidyTo;
  }

  // ----- which old page meets the log, by counting saves -----

  lemma {:induction false} TopsTogether(s: Store, m: Model, es: seq<Event>)
    requires |s.cells| == FLASH_SIZE && m.stored.top == m.working.top
    ensures ModelRun(s, m, es).stored.top == ModelRun(s, m, es).working.top
    decreases |es|
  {
    hide Run, Misled, Decode, Scan;
    if es != [] {
      TopsTogether(s, m, es[..|es| - 1]);
    }
  }

  /** No reset from event i on goes anywhere but to the newest record. */
  predicate TopsRun(s: Store, es: seq<Event>, i: nat)
    requires |s.cells| == FLASH_SIZE
  {
    forall k :: i <= k < |es| && es[k].Reboot? ==> !SetsBack(Run(s, es[..k]), es[k]) && !Misled(Run(s, es[..k]))
  }

  /** Then the record counter counts the saves. */
  lemma {:induction false} TopGrows(s: Store, m: Model, es: seq<Event>, i: nat)
    requires |s.cells| == FLASH_SIZE && Represents(s, m) && CleanRun(s, es) && m.stored.top == m.working.top
    requires i <= |es| && TopsRun(s, es, i)
    ensures LogSaves(s, es) >= LogSaves(s, es[..i])
    ensures Run(s, es).ram.top == TopAfter(Run(s, es[..i]).ram.top, LogSaves(s, es) - LogSaves(s, es[..i]))
    decreases |es|
  {
    hide Represents, Step, ModelNext, CleanStep, CleanRun, Misled, SetsBack, LogSave, TopAfter, NextTop;
    TopAfterNone(Run(s, es[..i]).ram.top);
    if i == |es| {
      assert es[..i] == es;
    } else {
      var init, e := es[..|es| - 1], es[|es| - 1];
      CleanPrefix(s, es);
      assert init[..i] == es[..i];
      TopsRunPrefix(s, es, i);
      TopGrows(s, m, init, i);
      RunRefines(s, m, init);
      TopsTogether(s, m, init);
      NotSetBack(Run(s, init), e);
      TopStep(Run(s, init), ModelRun(s, m, init), e);
      TopAfterOneMore(Run(s, es[..i]).ram.top, LogSaves(s, init) - LogSaves(s, es[..i]));
    }
  }

  lemma NotSetBack(s: Store, e: Event)
    ensures !e.Reboot? ==> !SetsBack(s, e)
  {
  }

  lemma TopsRunPrefix(s: Store, es: seq<Event>, i: nat)
    requires |s.cells| == FLASH_SIZE && es != [] && TopsRun(s, es, i)
    ensures TopsRun(s, es[..|es| - 1], i)
  {
    hide Run, Misled, SetsBack;
    var init := es[..|es| - 1];
    forall k | i <= k < |init| && init[k].Reboot?
      ensures !SetsBack(Run(s, init[..k]), init[k]) && !Misled(Run(s, init[..k]))
    {
      assert init[..k] == es[..k];
    }
  }

  /** A page that a save of the run wrote and that is still there belongs to a lap with the present record counter at
      its first page if and only if the saves since then and its page number add up to a multiple of 2^32, unless a
      reset has set the counter back since. */
  lemma SurvivorIff(s: Store, m: Model, es: seq<Event>, i: nat, start: nat, j: nat)
    requires |s.cells| == FLASH_SIZE && Represents(s, m) && CleanRun(s, es) && m.stored.top == m.working.top
    requires i < |es| && Opens(start, j) && SavedAt(s, es, i, start, j) && TopsRun(s, es, i)
    ensures LapTop(Run(s, es).cells, start, j) == Run(s, es).ram.top
            <==> (LogSaves(s, es) - LogSaves(s, es[..i]) + j - 1) % 0x1_0000_0000 == 0
  {
    hide Represents, CleanRun, Run, Decode, Page, TopsRun, LogSaves, Misled, TopAfter, NextTop, Step, WritesPage;
    TopGrows(s, m, es, i);
    SurvivorCount(Run(s, es[..i]).ram.top, LogSaves(s, es) - LogSaves(s, es[..i]), j);
  }

  lemma SurvivorCount(top: u32, n: nat, j: nat)
    requires 0 < j < SLOTS
    ensures (NextTop(top) + 0x1_0000_0000 - j) % 0x1_0000_0000 == TopAfter(top, n)
            <==> (n + j - 1) % 0x1_0000_0000 == 0
  {
  }

  // ----- an input: the device's own stale page -----

  /** An update erases the first q sectors of the region and ends in the other one, where a refused download and a
      reset lead to the default; another update then comes back. */
  function ThereAndBack(s: Store, q: nat): seq<Event>
  {
    [OtaStart, Download(Wiped(s.cells, s.start, 4096 * q)), OtaSuccess, EraseArea(1), Reboot, OtaStart, OtaSuccess]
  }

  lemma StartUpdate(s: Store)
    requires Shaped(s)
    ensures var r := Step(s, OtaStart);
      Updating(r) && r.cells == s.cells && r.bootHigh == s.bootHigh && r.start == s.start
      && CellOf(Decode(r.nv.value)) == CellOf(s.ram)
  {
    hide Encode, Decode, Valid, Checksum, Log, RestErased, Rec;
    NvWriteStep(s.(ram := s.ram.(newOta := 1)));
    StartKeepsCells(s);
  }

  lemma MoveOver(s: Store, start: nat, j: nat)
    requires Updating(s) && Opens(start, j)
    ensures var r := Step(s, OtaSuccess);
      Shaped(r) && SlotOf(r) == 0 && r.bootHigh == !s.bootHigh && Durable(r) == CellOf(Decode(s.nv.value))
      && Page(r.cells, start, j) == Page(s.cells, start, j)
  {
    hide Encode, Decode, Valid, Checksum, Log, RestErased, Rec, Page, Initialised;
    var t := PowerCycled(s.(bootHigh := !s.bootHigh));
    BootDuringUpdate(t);
    BootPage(t, start, j);
    BootKeepsHalf(t);
  }

  lemma BootKeepsHalf(s: Store)
    requires |s.cells| == FLASH_SIZE
    ensures Initialised(s).bootHigh == s.bootHigh
  {
    hide Encode, Decode, Valid, Scan, Checksum, Programmed, Erased, Wiped, Page;
  }

  lemma ThereCleanly(s: Store, q: nat)
    requires Logging(s) && 0 < q && 16 * q <= SlotOf(s)
    ensures |s.cells| == FLASH_SIZE
    ensures var t := Step(s, OtaStart); var u := Step(t, Download(Wiped(s.cells, s.start, 4096 * q)));
      CleanStep(t, Download(Wiped(s.cells, s.start, 4096 * q)))
      && var r := Step(u, OtaSuccess);
      Shaped(r) && r.bootHigh == !s.bootHigh && Page(r.cells, s.start, 16 * q) == Page(s.cells, s.start, 16 * q)
  {
    hide Decode, Valid, Page, Log, RestErased, Rec, Step;
    StartUpdate(s);
    var t, e := Step(s, OtaStart), Download(Wiped(s.cells, s.start, 4096 * q));
    var u := t.(cells := e.cells);
    DownloadStep(t, e);
    WipedPage(s.cells, s.start, q, s.start, 16 * q);
    MoveOver(u, s.start, 16 * q);
    WipedIsClean(s.cells, s.start, q);
  }

  lemma DownloadStep(s: Store, e: Event)
    requires e.Download? && |s.cells| == |e.cells| == FLASH_SIZE && s.ram.newOta != 0
    ensures Step(s, e) == s.(cells := e.cells)
  {
  }

  lemma WipedIsClean(cells: seq<byte>, from: nat, n: nat)
    requires Region(cells, from)
    ensures CleanDownload(cells, Wiped(cells, from, 4096 * n))
  {
    hide Decode, Valid, Page;
    var b := Wiped(cells, from, 4096 * n);
    forall start, j | (start == BEGIN_USER_DATA1 || start == BEGIN_USER_DATA2) && 0 <= j < SLOTS && j % 16 == 0
      ensures Region(b, start) && (SameSector(cells, b, start, j) || !GoodPage(b, start, j))
    {
      WholeSectors(start + 256 * j, from, n);
      if from <= start + 256 * j < from + 4096 * n {
        BlankPageInvalid(b, start, j);
      }
    }
  }

  lemma BackFromDefault(s: Store, start: nat, j: nat)
    requires Shaped(s) && Opens(start, j) && start == RegionStart(!s.bootHigh)
    ensures |s.cells| == FLASH_SIZE
    ensures var r := Step(Step(Step(Step(s, EraseArea(1)), Reboot), OtaStart), OtaSuccess);
      Shaped(r) && SlotOf(r) == 0 && r.start == start && Rec(r.cells, r.start, 0).top == 0
      && Page(r.cells, start, j) == Page(s.cells, start, j)
  {
    hide Decode, Valid, Page, Log, RestErased, Rec, Initialised, Step;
    ErasedDefault(s, start, j);
    var u := Step(Step(s, EraseArea(1)), Reboot);
    StartUpdate(u);
    MoveOver(Step(u, OtaStart), start, j);
  }

  lemma ErasedDefault(s: Store, start: nat, j: nat)
    requires Shaped(s) && Opens(start, j) && start == RegionStart(!s.bootHigh)
    ensures |s.cells| == FLASH_SIZE
    ensures var r := Step(Step(s, EraseArea(1)), Reboot);
      Shaped(r) && r.bootHigh == s.bootHigh && CellOf(r.ram) == DEFAULT_CELL
      && Page(r.cells, start, j) == Page(s.cells, start, j)
  {
    hide Decode, Valid, Page, Log, RestErased, Rec, Initialised, Wiped, NoImpostor;
    var t := s.(cells := Wiped(s.cells, s.start, 4096));
    EraseCutsOff(s, 1);
    CutOffBoot(t);
    WipedPage(s.cells, s.start, 1, start, j);
    BootPage(PowerCycled(t), start, j);
    BootKeepsHalf(PowerCycled(t));
  }

  lemma CleanWithOneDownload(s: Store, es: seq<Event>)
    requires |s.cells| == FLASH_SIZE && |es| > 1 && CleanStep(Run(s, es[..1]), es[1])
    requires forall i :: 0 <= i < |es| && i != 1 ==> !es[i].Download?
    ensures CleanRun(s, es)
  {
    hide Run, CleanDownload;
  }

  /** If the counter began at 0 in page 0 and the log had gone as far as page 16 * q, that page is now the log's own
      next one, and a reset is misled after 16 * q - 1 saves, although no downloaded byte is a valid record. */
  lemma OwnStalePage(s: Store, q: nat, rs: seq<Reading>)
    requires Logging(s) && 0 < q && 16 * q <= SlotOf(s) && Rec(s.cells, s.start, 0).top == 0
    requires |rs| == 16 * q - 1
    ensures |s.cells| == FLASH_SIZE && CleanRun(s, ThereAndBack(s, q))
    ensures var r := Run(s, ThereAndBack(s, q));
      Shaped(r) && SlotOf(r) == 0 && r.start == s.start && Impostor(r.cells, r.start, 0, 16 * q)
      && Misled(Saves(r, rs)) && !LapRestores(r, rs)
  {
    hide Decode, Valid, Page, Log, RestErased, Step, CleanRun, NoImpostor, LapRestores, Run, CleanStep, Saves, Misled;
    var es := ThereAndBack(s, q);
    ThereCleanly(s, q);
    var u := Step(Step(Step(s, es[0]), es[1]), es[2]);
    BackFromDefault(u, s.start, 16 * q);
    SevenEvents(s, es);
    CleanWithOneDownload(s, es);
    var r := Run(s, es);
    StaleTop(s, q);
    StaleMisleads(r, 16 * q, rs);
  }

  lemma SevenEvents(s: Store, es: seq<Event>)
    requires |s.cells| == FLASH_SIZE && |es| == 7
    ensures Run(s, es[..1]) == Step(s, es[0])
    ensures Run(s, es) == Step(Step(Step(Step(Step(Step(Step(s, es[0]), es[1]), es[2]), es[3]), es[4]), es[5]), es[6])
  {
    hide Step, Run;
    NoEvents(s, DEFAULT_MODEL);
    assert es[..0] == [] && es[..7] == es;
    forall i | 0 <= i < 7
      ensures Run(s, es[..i + 1]) == Step(Run(s, es[..i]), es[i])
    {
      assert es[..i + 1] == es[..i] + [es[i]];
      RunOneMore(s, es[..i], es[i]);
    }
  }

  lemma StaleTop(s: Store, q: nat)
    requires Shaped(s) && 16 * q <= SlotOf(s) && Rec(s.cells, s.start, 0).top == 0
    ensures GoodPage(s.cells, s.start, 16 * q) && Rec(s.cells, s.start, 16 * q).top == TopAfter(0, 16 * q)
  {
    hide Decode, Valid, Page, RestErased;
    var k := SlotOf(s);
    assert Rec(s.cells, s.start, k).top == TopAfter(0, k) == TopAfter(Rec(s.cells, s.start, 16 * q).top, k - 16 * q);
    SameOrigin(Rec(s.cells, s.start, 16 * q).top, k, 16 * q);
  }

  lemma SameOrigin(top: u32, k: nat, j: nat)
    requires j <= k < SLOTS && TopAfter(top, k - j) == TopAfter(0, k)
    ensures top == TopAfter(0, j)
  {
  }

  lemma StaleMisleads(r: Store, j: nat, rs: seq<Reading>)
    requires Shaped(r) && SlotOf(r) == 0 && Opens(r.start, j) && Impostor(r.cells, r.start, 0, j) && |rs| == j - 1
    ensures Misled(Saves(r, rs)) && !LapRestores(r, rs)
  {
    hide Decode, Valid, Page, RestErased, Chain, Continues, RebootRestores, Impostor, Saves, CutOff;
    SavesOnLap(r, rs);
    var t := Saves(r, rs);
    ImpostorContinues(t, j);
    RestoresIffLogEnds(t);
    CutOffIsNotShaped(t);
  }
}
