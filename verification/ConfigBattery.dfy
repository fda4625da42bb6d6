/** Saves that a low battery makes the drivers skip: which reading a reset then finds. */
module ConfigBattery {
  import opened Bytes
  import opened Flash
  import opened ConfigStore
  import opened ConfigLog
  import opened ConfigSteps
  import opened ConfigFaults

  /** A save, its counter values, and what the battery let the drivers do. */
  datatype Try = Try(r: Reading, battery: Battery)

  function Ready(s: Store, r: Reading): Store
  {
    s.(ram := s.ram.(hot := r.hot, cold := r.cold, litersPerPulse := r.litersPerPulse))
  }

  function Tries(s: Store, ts: seq<Try>): (r: Store)
    ensures |r.cells| == |s.cells|
    decreases |ts|
  {
    if ts == [] then s
    else Attempted(Ready(Tries(s, ts[..|ts| - 1]), ts[|ts| - 1].r), ts[|ts| - 1].battery)
  }

  /** Saves before the first one that was not carried out in full. */
  function Carried(ts: seq<Try>): (n: nat)
    ensures n <= |ts| && (forall i :: 0 <= i < n ==> ts[i].battery == Enough)
    ensures n < |ts| ==> ts[n].battery != Enough
  {
    if ts == [] || ts[0].battery != Enough then 0 else 1 + Carried(ts[1..])
  }

  lemma CarriedInit(ts: seq<Try>)
    requires ts != []
    ensures var init := ts[..|ts| - 1];
      Carried(ts) == if Carried(init) < |init| then Carried(init)
                     else if ts[|ts| - 1].battery == Enough then |ts| else |ts| - 1
  {
    var init := ts[..|ts| - 1];
    assert forall i :: 0 <= i < |init| ==> init[i] == ts[i];
  }

  /** The log stands at a later page than h, but its chain from page 0 ends at page h. */
  predicate Hidden(s: Store, start: nat, h: nat, newest: seq<byte>)
  {
    AtSlot(s) && s.start == start && h < SlotOf(s)
    && Chain(s.cells, start, h) && !Continues(s.cells, start, h) && Page(s.cells, start, h) == newest
  }

  lemma ReadyLogging(s: Store, r: Reading)
    requires Logging(s)
    ensures Logging(Ready(s, r)) && SlotOf(Ready(s, r)) == SlotOf(s)
  {
    hide Decode, Valid, RestErased, NoImpostor, Rec;
  }

  lemma AttemptPlace(s: Store, battery: Battery)
    requires AtSlot(s)
    ensures var t := Attempted(s, battery);
      AtSlot(t) && t.start == s.start && SlotOf(t) == NextSlot(SlotOf(s)) && t.nv == s.nv && t.bootHigh == s.bootHigh
  {
    hide Encode, Decode, Valid, Checksum, Programmed, PageReady, NextTop, Appended;
    LogWriteIsAppend(s);
    AddressSlot(s.start, NextSlot(SlotOf(s)));
  }

  /** A program operation touches its own page only. */
  lemma ProgramElsewhere(cells: seq<byte>, start: nat, k: nat, j: nat, data: seq<byte>)
    requires Region(cells, start) && k < SLOTS && j < SLOTS && j != k && |data| == RECORD_SIZE
    ensures Page(Programmed(cells, start + 256 * k, data), start, j) == Page(cells, start, j)
  {
    SamePage(Programmed(cells, start + 256 * k, data), cells, start, j);
  }

  lemma ReadyElsewhere(cells: seq<byte>, start: nat, next: nat, j: nat)
    requires Region(cells, start) && j < next < SLOTS
    ensures Page(PageReady(cells, start + 256 * next), start, j) == Page(cells, start, j)
  {
    var a := start + 256 * next;
    assert a % 4096 == 256 * (next % 16);
    if next % 16 == 0 {
      SectorErased(cells, start, next);
      assert j / 16 != next / 16;
    }
  }

  /** Whatever the battery lets through, earlier pages stay as they are. */
  lemma AttemptElsewhere(s: Store, battery: Battery, j: nat)
    requires AtSlot(s) && SlotOf(s) + 1 < SLOTS && j <= SlotOf(s)
    ensures Region(Attempted(s, battery).cells, s.start)
    ensures Page(Attempted(s, battery).cells, s.start, j) == Page(s.cells, s.start, j)
  {
    hide Encode, Decode, Valid, Checksum, Programmed, PageReady, NextTop, Page;
    var next := SlotOf(s) + 1;
    LogWriteIsAppend(s);
    ReadyElsewhere(s.cells, s.start, next, j);
    var c := s.ram.(addrStart := s.start + 256 * next, top := NextTop(s.ram.top));
    ProgramElsewhere(PageReady(s.cells, s.start + 256 * next), s.start, next, j, Encode(Seal(c)));
  }

  lemma SameContinues(a: seq<byte>, b: seq<byte>, start: nat, k: nat)
    requires Region(a, start) && Region(b, start) && k + 1 < SLOTS
    requires Page(a, start, k) == Page(b, start, k) && Page(a, start, k + 1) == Page(b, start, k + 1)
    ensures Continues(a, start, k) == Continues(b, start, k)
  {
  }

  lemma SameChain(a: seq<byte>, b: seq<byte>, start: nat, k: nat)
    requires Chain(a, start, k) && Region(b, start)
    requires forall j :: 0 <= j <= k ==> Page(b, start, j) == Page(a, start, j)
    ensures Chain(b, start, k)
  {
    hide Decode, Valid, Page, TopAfter;
    forall j | 0 <= j <= k
      ensures GoodPage(b, start, j) && Rec(b, start, j) == Rec(a, start, j)
    {
      assert Page(b, start, j) == Page(a, start, j) && GoodPage(a, start, j);
    }
  }

  /** The first skipped save leaves a hole behind the newest record. */
  lemma FirstMiss(s: Store, battery: Battery)
    requires Logging(s) && SlotOf(s) + 1 < SLOTS && battery != Enough
    ensures Hidden(Attempted(s, battery), s.start, SlotOf(s), Page(s.cells, s.start, SlotOf(s)))
  {
    hide Decode, Valid, Page, NoImpostor, RestErased, Chain, Continues, Attempted;
    var k, t := SlotOf(s), Attempted(s, battery);
    AttemptPlace(s, battery);
    forall j | 0 <= j <= k
      ensures Page(t.cells, s.start, j) == Page(s.cells, s.start, j)
    {
      AttemptElsewhere(s, battery, j);
    }
    AttemptElsewhere(s, battery, k);
    SameChain(s.cells, t.cells, s.start, k);
    HoleLeft(s, battery);
  }

  lemma HoleLeft(s: Store, battery: Battery)
    requires Logging(s) && SlotOf(s) + 1 < SLOTS && battery != Enough
    ensures Region(Attempted(s, battery).cells, s.start)
    ensures !Continues(Attempted(s, battery).cells, s.start, SlotOf(s))
  {
    hide Decode, Valid, Page, NoImpostor, RestErased, Chain, PageReady, Written;
    var k := SlotOf(s);
    AttemptElsewhere(s, battery, k);
    if battery == Low {
      NoSuccessor(s.cells, s.start, k);
    } else {
      PageIsReady(s.cells, s.start, k, k + 1);
      var after := PageReady(s.cells, s.start + 256 * (k + 1));
      FrontBlank(after, s.start + 256 * (k + 1), s.start + 256 * SectorLimit(k + 1));
      BlankPageInvalid(after, s.start, k + 1);
    }
  }

  lemma FrontBlank(cells: seq<byte>, lo: nat, hi: nat)
    requires Blank(cells, lo, hi) && lo + 4 <= hi
    ensures Blank(cells, lo, lo + 4)
  {
  }

  /** Later saves of the lap, carried out or not, do not fill it. */
  lemma HiddenStays(s: Store, start: nat, h: nat, newest: seq<byte>, battery: Battery)
    requires Hidden(s, start, h, newest) && SlotOf(s) + 1 < SLOTS
    ensures Hidden(Attempted(s, battery), start, h, newest)
  {
    hide Decode, Valid, Page, Chain, Continues, Attempted;
    var t := Attempted(s, battery);
    AttemptPlace(s, battery);
    forall j | 0 <= j <= h + 1
      ensures Page(t.cells, start, j) == Page(s.cells, start, j)
    {
      AttemptElsewhere(s, battery, j);
    }
    AttemptElsewhere(s, battery, h);
    SameChain(s.cells, t.cells, start, h);
    SameContinues(t.cells, s.cells, start, h);
  }

  lemma ReadyHidden(s: Store, start: nat, h: nat, newest: seq<byte>, r: Reading)
    requires Hidden(s, start, h, newest)
    ensures Hidden(Ready(s, r), start, h, newest) && SlotOf(Ready(s, r)) == SlotOf(s)
  {
    hide Decode, Valid, Page, Chain, Continues;
  }

  /** A reset finds the record before the hole. */
  lemma HiddenBoot(s: Store, start: nat, h: nat, newest: seq<byte>)
    requires Hidden(s, start, h, newest)
    ensures |newest| == RECORD_SIZE
    ensures var r := Initialised(PowerCycled(s));
      r.start == start && r.cells == s.cells && r.ram == Decode(newest).(addrStart := start + 256 * h)
  {
    hide Decode, Valid, Page, Chain, Continues, Scan, Defaulted, RestoreWritten;
    ScanFindsNewest(s.cells, start, h);
    ChainStart(s.cells, start, h);
  }

  lemma ChainStart(cells: seq<byte>, start: nat, h: nat)
    requires Chain(cells, start, h)
    ensures Rec(cells, start, 0).id == ID_CONFIG
  {
    hide Decode, Page;
    assert GoodPage(cells, start, 0);
    ValidIdentifier(Page(cells, start, 0));
  }

  /** On one lap, with any of the saves skipped: as long as all are carried out the log is whole; from the first that
      is not, the record before it stays the one that counts. */
  lemma {:induction false} TriesOnLap(s: Store, ts: seq<Try>)
    requires Logging(s) && SlotOf(s) + |ts| < SLOTS
    ensures var t, n := Tries(s, ts), Carried(ts);
      SlotOf(t) == SlotOf(s) + |ts| && AtSlot(t) && t.start == s.start && Region(Tries(s, ts[..n]).cells, s.start)
      && (n == |ts| ==> Logging(t))
      && (n < |ts| ==>
            Hidden(t, s.start, SlotOf(s) + n, Page(Tries(s, ts[..n]).cells, s.start, SlotOf(s) + n)))
    decreases |ts|
  {
    hide Decode, Valid, Page, Chain, Continues, Attempted, Hidden, NoImpostor, RestErased, Rec, Carried;
    CarriedNone(ts);
    if ts == [] {
      assert ts[..0] == ts;
    } else {
      var init, last := ts[..|ts| - 1], ts[|ts| - 1];
      var n := Carried(init);
      TriesOnLap(s, init);
      CarriedInit(ts);
      var t := Ready(Tries(s, init), last.r);
      if n < |init| {
        assert init[..n] == ts[..n];
        ReadyHidden(Tries(s, init), s.start, SlotOf(s) + n, Page(Tries(s, init[..n]).cells, s.start, SlotOf(s) + n),
                    last.r);
        HiddenStays(t, s.start, SlotOf(s) + n, Page(Tries(s, init[..n]).cells, s.start, SlotOf(s) + n), last.battery);
        HiddenPlace(t, s.start, SlotOf(s) + n, Page(Tries(s, init[..n]).cells, s.start, SlotOf(s) + n));
      } else {
        assert init[..n] == init && ts[..|init|] == init && ts[..|ts|] == ts;
        ReadyLogging(Tries(s, init), last.r);
        if last.battery == Enough {
          Carries(t);
        } else {
          FirstMiss(t, last.battery);
        }
      }
      AttemptPlace(t, last.battery);
    }
  }

  lemma CarriedNone(ts: seq<Try>)
    ensures ts == [] ==> Carried(ts) == 0
  {
  }

  lemma HiddenPlace(s: Store, start: nat, h: nat, newest: seq<byte>)
    requires Hidden(s, start, h, newest)
    ensures AtSlot(s)
  {
    hide Page, Chain, Continues;
  }

  lemma Carries(s: Store)
    requires Logging(s) && SlotOf(s) + 1 < SLOTS
    ensures Logging(Attempted(s, Enough))
  {
    hide Logging, Written;
    LogWriteStep(s);
  }

  /** After any saves of one lap a reset returns the reading of the last save before the first skipped one, at its
      page; the newest reading comes back exactly if none was skipped and it is not in the last page. */
  lemma ResetAfterTries(s: Store, ts: seq<Try>)
    requires Logging(s) && SlotOf(s) + |ts| < SLOTS
    ensures var n, r := Carried(ts), Initialised(PowerCycled(Tries(s, ts))); var whole := Tries(s, ts[..n]);
      Logging(whole) && SlotOf(whole) == SlotOf(s) + n
      && (n < |ts| || SlotOf(s) + n < SLOTS - 1 ==> SlotOf(r) == SlotOf(s) + n && CellOf(r.ram) == Durable(whole))
      && (n == |ts| && SlotOf(s) + n == SLOTS - 1 ==> CellOf(r.ram) == DEFAULT_CELL)
  {
    hide Decode, Valid, Page, Chain, Continues, Hidden, NoImpostor, RestErased, Initialised, Tries, Carried;
    var n := Carried(ts);
    TriesOnLap(s, ts);
    TriesOnLap(s, ts[..n]);
    CarriedPrefix(ts, n);
    assert ts[..n][..n] == ts[..n];
    var whole := Tries(s, ts[..n]);
    if n < |ts| {
      HiddenBoot(Tries(s, ts), s.start, SlotOf(s) + n, Page(whole.cells, s.start, SlotOf(s) + n));
      AddressSlot(s.start, SlotOf(s) + n);
    } else {
      assert ts[..n] == ts;
      BootOutsideUpdate(whole);
    }
  }

  lemma CarriedPrefix(ts: seq<Try>, n: nat)
    requires n == Carried(ts)
    ensures Carried(ts[..n]) == n
  {
    assert forall i :: 0 <= i < n ==> ts[..n][i] == ts[i];
  }

  /** The save that comes round to page 0 and is carried out makes the log whole again, whatever was skipped, if no
      stale page could pass for its next record. */
  lemma LapHeals(s: Store)
    requires AtSlot(s) && SlotOf(s) == SLOTS - 1
    ensures var w := Written(s);
      Region(w.cells, w.start) && SlotOf(w) == 0 && Log(w.cells, w.start, 0)
      && CellOf(Rec(w.cells, w.start, 0)) == CellOf(w.ram) == CellOf(s.ram).(top := NextTop(s.ram.top))
      && (NoImpostor(w.cells, w.start, 0) ==> Logging(w))
  {
    hide Encode, Decode, Valid, Page, Programmed, RestErased, Checksum, NextTop, Erased;
    var c := s.ram.(addrStart := s.start, top := NextTop(s.ram.top));
    LogWriteIsAppend(s);
    RestartedLog(s.cells, s.start, c);
    SealedRecord(c);
  }

  /** A write that restarts the log would lose its record if the battery dropped behind its erase: NV no longer holds it
      for the next boot, and page 0 is blank. */
  lemma SkippedRestartLoses(t: Store)
    requires Region(t.cells, t.start) && t.start == RegionStart(t.bootHigh) && t.defaultConfig
    requires t.ram.id == ID_CONFIG && t.ram.newOta == 0 && t.ram.addrStart == t.start
    ensures var r := Initialised(PowerCycled(Attempted(t, FailsAfterErase)));
      Logging(r) && SlotOf(r) == 0 && CellOf(r.ram) == DEFAULT_CELL
  {
    hide Encode, Decode, Valid, Checksum, Page, Erased, Programmed, RestErased, Defaulted, Scan;
    SealedRecord(t.ram);
    SectorErased(t.cells, t.start, 0);
    FrontBlank(Erased(t.cells, t.start), t.start, t.start + 4096);
    BlankPageInvalid(Erased(t.cells, t.start), t.start, 0);
    DefaultStep(PowerCycled(Attempted(t, FailsAfterErase)).(start := t.start));
  }
}
