/** What whole runs do to the flash: every save lands on an erased page, and how far the sectors wear apart. */
module ConfigWear {
  import opened Bytes
  import opened Flash
  import opened ConfigStore
  import opened ConfigLog
  import opened ConfigSteps
  import opened ConfigOwn
  import opened ConfigFaults
  import opened ConfigRuns

  // ----- every save of a run lands on an erased page -----

  /** Over every run, with its erases, updates and resets, each save outside an update programs a blank page and
      stores its record exactly. */
  lemma SavesLandOnErasedPages(s: Store, m: Model, es: seq<Event>, i: nat)
    requires |s.cells| == FLASH_SIZE && Represents(s, m) && CleanRun(s, es) && i < |es| && es[i].Save?
    ensures var t := Run(s, es[..i]);
      t.ram.newOta == 0 ==>
        var a := NextAddr(t);
        a + 256 <= FLASH_SIZE && Blank(PageReady(t.cells, a), a, a + 256)
        && Written(t).cells[a..a + RECORD_SIZE] == Encode(Written(t).ram)
  {
    hide Represents, CleanRun, Run, Encode, PageReady, Written, AtSlot, NextAddr, Blank;
    CleanUpTo(s, es, i);
    RunRefines(s, m, es[..i]);
    var t := Run(s, es[..i]);
    RepresentsMeans(t, ModelRun(s, m, es[..i]));
    if t.ram.newOta == 0 {
      SaveLandsOnErasedPage(t);
      BlankWithin(PageReady(t.cells, NextAddr(t)), NextAddr(t), NextAddr(t) + 256);
    }
  }

  lemma CleanUpTo(s: Store, es: seq<Event>, n: nat)
    requires |s.cells| == FLASH_SIZE && CleanRun(s, es) && n <= |es|
    ensures CleanRun(s, es[..n])
  {
    hide CleanStep, Run;
    var init := es[..n];
    forall i | 0 <= i < |init|
      ensures CleanStep(Run(s, init[..i]), init[i])
    {
      assert init[..i] == es[..i];
    }
  }

  // ----- sectors erased by the saves of a run -----

  function SaveErases(s: Store, e: Event): seq<nat>
  {
    if e.Save? then WriteErases(s) else []
  }

  function RunErases(s: Store, es: seq<Event>): seq<nat>
    requires |s.cells| == FLASH_SIZE
    decreases |es|
  {
    if es == [] then [] else RunErases(s, es[..|es| - 1]) + SaveErases(Run(s, es[..|es| - 1]), es[|es| - 1])
  }

  /** Where the log stands in the region that begins at start; 0 while it is not kept there. */
  function Position(s: Store, start: nat): nat
  {
    if s.start == start && s.ram.newOta == 0 then SlotOf(s) else 0
  }

  predicate RegionBegin(start: nat)
  {
    start == BEGIN_USER_DATA1 || start == BEGIN_USER_DATA2
  }

  /** The log of a region is given up before the end of its lap. */
  predicate Breaks(s: Store, e: Event, start: nat)
    requires |s.cells| == FLASH_SIZE
  {
    !e.Save? && Position(Step(s, e), start) != Position(s, start)
  }

  predicate Between(i: nat, j: nat, p: nat) { 16 * i <= p < 16 * j }

  function Bit(b: bool): int { if b then 1 else 0 }

  lemma WrittenKeepsPlace(s: Store)
    ensures Written(s).start == s.start && Written(s).bootHigh == s.bootHigh && Written(s).ram.newOta == s.ram.newOta
  {
    hide Encode, Checksum, Programmed, PageReady, Erased, NextTop;
  }

  lemma InitialisedPlace(s: Store)
    requires |s.cells| == FLASH_SIZE
    ensures Initialised(s).start == RegionStart(s.bootHigh) && Initialised(s).bootHigh == s.bootHigh
  {
    hide Encode, Decode, Valid, Scan, Checksum, Programmed, Erased, Wiped, Page;
  }

  lemma RepresentsPlace(s: Store, m: Model)
    requires Represents(s, m)
    ensures |s.cells| == FLASH_SIZE && s.start == RegionStart(s.bootHigh) && (m.updating <==> s.ram.newOta != 0)
    ensures m.updating ==> m.slot == 0
    ensures !m.updating ==> m.slot == SlotOf(s) < SLOTS && s.ram.addrStart == s.start + 256 * SlotOf(s)
    ensures !s.defaultConfig && (!m.updating ==> (m.lost <==> CutOff(s)))
  {
    hide Decode, Valid, NoImpostor, Rec, RestErased, Durable, SlotOf, Tidy, TidyTo, GoodPage;
    RepresentsMeans(s, m);
  }

  /** Only an update that succeeds moves to the other region. */
  lemma PlaceKept(s: Store, m: Model, e: Event)
    requires Represents(s, m)
    ensures |s.cells| == FLASH_SIZE
    ensures !(e.OtaSuccess? && m.updating) ==> Step(s, e).start == s.start
  {
    hide Represents, Initialised, Written;
    RepresentsPlace(s, m);
    match e
    case Save => WrittenKeepsPlace(s);
    case OtaStart => WrittenKeepsPlace(s.(ram := s.ram.(newOta := 1)));
    case OtaFail => InitialisedPlace(s);
    case Reboot => InitialisedPlace(PowerCycled(s));
    case _ =>
  }

  /** The position is that of the model, in the region where the log is. */
  lemma PositionIs(s: Store, m: Model, start: nat)
    requires Represents(s, m)
    ensures Position(s, start) == if s.start == start then m.slot else 0
  {
    hide Represents, SlotOf;
    RepresentsPlace(s, m);
  }

  /** One save erases the sector it enters: in terms of the sectors opened so far on this lap. */
  lemma SaveWear(s: Store, m: Model, start: nat, i: nat)
    requires Represents(s, m) && RegionBegin(start) && i < 52
    ensures |s.cells| == FLASH_SIZE
    ensures var p, q := Position(s, start), Position(Step(s, Save), start);
      Times(SaveErases(s, Save), start + 4096 * i)
        == Opened(i, q) - Opened(i, p) + Bit(p == SLOTS - 1)
      && q == (if s.start == start && s.ram.newOta == 0 then NextSlot(p) else 0)
  {
    hide Represents, Step, Times, SlotOf;
    RepresentsPlace(s, m);
    PlaceKept(s, m, Save);
    StepRefines(s, m, Save);
    PositionIs(s, m, start);
    PositionIs(Step(s, Save), ModelNext(s, m, Save), start);
    SectorEntered(s, m, start, i);
  }

  lemma SectorEntered(s: Store, m: Model, start: nat, i: nat)
    requires RegionBegin(start) && i < 52 && (s.start == BEGIN_USER_DATA1 || s.start == BEGIN_USER_DATA2)
    requires (m.updating <==> s.ram.newOta != 0) && m.slot < SLOTS
    requires !s.defaultConfig && (!m.updating ==> s.ram.addrStart == s.start + 256 * m.slot)
    ensures Times(SaveErases(s, Save), start + 4096 * i)
         == if s.start == start && !m.updating && NextSlot(m.slot) == 16 * i then 1 else 0
  {
    hide Times;
    var a := NextAddr(s);
    TimesOfOne(a, start + 4096 * i);
    if !m.updating {
      assert a == s.start + 256 * NextSlot(m.slot);
      assert a % 4096 == 256 * (NextSlot(m.slot) % 16);
    }
  }

  lemma OpenedBetween(i: nat, j: nat, p: nat)
    requires i < j
    ensures Opened(i, p) - Opened(j, p) == Bit(Between(i, j, p))
  {
  }

  /** The log of a region is given up exactly by an update start, and by a reset in the last page, behind a gap, or in
      front of an old page that continues it. All but the last of these lead to page 0. */
  lemma BreaksIff(s: Store, m: Model, e: Event, start: nat)
    requires |s.cells| == FLASH_SIZE && Represents(s, m) && CleanStep(s, e) && RegionBegin(start)
    ensures Breaks(s, e, start) <==>
              s.start == start && s.ram.newOta == 0 && SlotOf(s) > 0
              && (e.OtaStart? || (e.Reboot? && (SlotOf(s) == SLOTS - 1 || CutOff(s) || Misled(s))))
    ensures Breaks(s, e, start) && !(e.Reboot? && Misled(s)) ==> Position(Step(s, e), start) == 0
  {
    hide Represents, Step, SlotOf, CleanStep, CutOff, Misled, Resurrected;
    RepresentsPlace(s, m);
    PlaceKept(s, m, e);
    StepRefines(s, m, e);
    PositionIs(s, m, start);
    PositionIs(Step(s, e), ModelNext(s, m, e), start);
    if Misled(s) {
      MisledPlace(s, m);
    }
  }

  lemma MisledPlace(s: Store, m: Model)
    requires Represents(s, m) && Misled(s)
    ensures |s.cells| == FLASH_SIZE && Resurrected(s).slot != m.slot > 0 && !m.updating
  {
    hide Represents, Decode, Valid, Page, CutOff;
    RepresentsMeans(s, m);
    MisledMoves(s, m);
    MisledAtSectorEnd(s);
  }

  /** What the breaks of a run add to sector i over sector j: one for every break between them, less one for every
      break that leads there. */
  function Balance(s: Store, es: seq<Event>, start: nat, i: nat, j: nat): int
    requires |s.cells| == FLASH_SIZE
    decreases |es|
  {
    if es == [] then 0
    else
      var t, e := Run(s, es[..|es| - 1]), es[|es| - 1];
      Balance(s, es[..|es| - 1], start, i, j)
      + if Breaks(t, e, start) then
          Bit(Between(i, j, Position(t, start))) - Bit(Between(i, j, Position(Step(t, e), start)))
        else 0
  }

  /** One event, seen from two sectors. */
  lemma StepDifference(s: Store, m: Model, e: Event, start: nat, i: nat, j: nat)
    requires |s.cells| == FLASH_SIZE && Represents(s, m) && CleanStep(s, e) && RegionBegin(start) && i < j < 52
    ensures var p, q := Position(s, start), Position(Step(s, e), start);
      Times(SaveErases(s, e), start + 4096 * i) - Times(SaveErases(s, e), start + 4096 * j)
        == Bit(Between(i, j, q)) - Bit(Between(i, j, p))
           + if Breaks(s, e, start) then Bit(Between(i, j, p)) - Bit(Between(i, j, q)) else 0
  {
    hide Represents, Step, Times, SlotOf, CleanStep, WriteErases;
    RepresentsPlace(s, m);
    if e.Save? {
      SaveWear(s, m, start, i);
      SaveWear(s, m, start, j);
      OpenedBetween(i, j, Position(s, start));
      OpenedBetween(i, j, Position(Step(s, e), start));
    } else {
      NoTimes(start + 4096 * i);
      NoTimes(start + 4096 * j);
    }
  }

  lemma NoTimes(addr: nat)
    ensures Times([], addr) == 0
  {
  }

  lemma SaveErasesAtMostOne(s: Store, e: Event)
    ensures |SaveErases(s, e)| <= 1
  {
  }

  /** Over every run the erase counts of two sectors differ by where the log stands now and stood at first, and by one
      for every time it was given up between the two, less one for every time it came back there. */
  lemma {:induction false} WearDifference(s: Store, m: Model, es: seq<Event>, start: nat, i: nat, j: nat)
    requires |s.cells| == FLASH_SIZE && Represents(s, m) && CleanRun(s, es) && RegionBegin(start) && i < j < 52
    ensures Times(RunErases(s, es), start + 4096 * i) - Times(RunErases(s, es), start + 4096 * j)
         == Bit(Between(i, j, Position(Run(s, es), start))) - Bit(Between(i, j, Position(s, start)))
            + Balance(s, es, start, i, j)
    decreases |es|
  {
    hide Represents, Step, Times, CleanStep, CleanRun, SaveErases, Breaks, Position, Between;
    if es == [] {
      NoTimes(start + 4096 * i);
      NoTimes(start + 4096 * j);
    } else {
      var init, e := es[..|es| - 1], es[|es| - 1];
      CleanPrefix(s, es);
      WearDifference(s, m, init, start, i, j);
      RunRefines(s, m, init);
      var t, n := Run(s, init), ModelRun(s, m, init);
      StepDifference(t, n, e, start, i, j);
      SaveErasesAtMostOne(t, e);
      TimesAppend(RunErases(s, init), SaveErases(t, e), start + 4096 * i);
      TimesAppend(RunErases(s, init), SaveErases(t, e), start + 4096 * j);
    }
  }

  /** How many times a run gives the log up with its newest record in the pages from lo to before hi. */
  function Broken(s: Store, es: seq<Event>, start: nat, lo: nat, hi: nat): nat
    requires |s.cells| == FLASH_SIZE
    decreases |es|
  {
    if es == [] then 0
    else
      var t, e := Run(s, es[..|es| - 1]), es[|es| - 1];
      Broken(s, es[..|es| - 1], start, lo, hi)
      + if Breaks(t, e, start) && lo <= Position(t, start) < hi then 1 else 0
  }

  /** When no reset is misled every break leads to page 0, which opens a lap without an erase: then sector i > 0 gains
      by every break between the two, and sector 0 falls behind by every break behind the start of sector j. */
  lemma {:induction false} BalanceCounts(s: Store, m: Model, es: seq<Event>, start: nat, i: nat, j: nat)
    requires |s.cells| == FLASH_SIZE && Represents(s, m) && CleanRun(s, es) && RegionBegin(start) && i < j < 52
    requires forall k :: 0 <= k < |es| && es[k].Reboot? ==> !Misled(Run(s, es[..k]))
    ensures Balance(s, es, start, i, j)
         == if i > 0 then Broken(s, es, start, 16 * i, 16 * j) else 0 - (Broken(s, es, start, 16 * j, SLOTS) as int)
    decreases |es|
  {
    hide Represents, Step, CleanStep, CleanRun, Breaks, Position, Misled;
    if es != [] {
      var init, e := es[..|es| - 1], es[|es| - 1];
      CleanPrefix(s, es);
      forall k | 0 <= k < |init| && init[k].Reboot?
        ensures !Misled(Run(s, init[..k]))
      {
        assert init[..k] == es[..k];
      }
      BalanceCounts(s, m, init, start, i, j);
      RunRefines(s, m, init);
      BrokenFromPage(Run(s, init), ModelRun(s, m, init), e, start);
    }
  }

  lemma BrokenFromPage(s: Store, m: Model, e: Event, start: nat)
    requires |s.cells| == FLASH_SIZE && Represents(s, m) && CleanStep(s, e) && RegionBegin(start)
    requires e.Reboot? ==> !Misled(s)
    ensures Position(s, start) < SLOTS
    ensures Breaks(s, e, start) ==> Position(s, start) > 0 == Position(Step(s, e), start)
  {
    hide Represents, Step, SlotOf, CleanStep, CutOff, Misled;
    RepresentsPlace(s, m);
    BreaksIff(s, m, e, start);
  }

  /** A run in which the log of the region is never given up keeps its sectors within one erase of each other:
      presets, saves, refused updates, erases without a reset, and resets that restore belong in such a run. */
  lemma UnbrokenEvenWear(s: Store, m: Model, es: seq<Event>, start: nat, i: nat, j: nat)
    requires |s.cells| == FLASH_SIZE && Represents(s, m) && CleanRun(s, es) && RegionBegin(start) && i < 52 && j < 52
    requires forall k :: 0 <= k < |es| ==> !Breaks(Run(s, es[..k]), es[k], start)
    ensures Times(RunErases(s, es), start + 4096 * i) <= Times(RunErases(s, es), start + 4096 * j) + 1
  {
    hide Represents, Step, Times, CleanStep, CleanRun, Breaks, Position, RunErases;
    if i != j {
      var lo, hi := if i < j then i else j, if i < j then j else i;
      NeverBroken(s, es, start, lo, hi);
      WearDifference(s, m, es, start, lo, hi);
    }
  }

  lemma {:induction false} NeverBroken(s: Store, es: seq<Event>, start: nat, i: nat, j: nat)
    requires |s.cells| == FLASH_SIZE
    requires forall k :: 0 <= k < |es| ==> !Breaks(Run(s, es[..k]), es[k], start)
    ensures Balance(s, es, start, i, j) == 0
    decreases |es|
  {
    hide Breaks, Step, Position;
    if es != [] {
      var init := es[..|es| - 1];
      forall k | 0 <= k < |init|
        ensures !Breaks(Run(s, init[..k]), init[k], start)
      {
        assert init[..k] == es[..k];
      }
      NeverBroken(s, init, start, i, j);
    }
  }

  // ----- runs that wear unevenly -----

  function SaveTimes(n: nat): (r: seq<Event>)
    ensures |r| == n
  {
    if n == 0 then [] else SaveTimes(n - 1) + [Save]
  }

  /** Two ways to come back to page 0 from page k: a failed update, and a reset in the last page. */
  predicate Returns(k: nat, tail: seq<Event>)
  {
    (0 < k < SLOTS && tail == [OtaStart, OtaFail]) || (k == SLOTS - 1 && tail == [Reboot])
  }

  function Rounds(k: nat, tail: seq<Event>, n: nat): seq<Event>
  {
    if n == 0 then [] else Rounds(k, tail, n - 1) + (SaveTimes(k) + tail)
  }

  lemma {:induction false} ErasesOn(s: Store, a: seq<Event>, b: seq<Event>)
    requires |s.cells| == FLASH_SIZE
    ensures RunErases(s, a + b) == RunErases(s, a) + RunErases(Run(s, a), b)
    decreases |b|
  {
    hide Step, SaveErases;
    if b == [] {
      assert a + b == a;
    } else {
      var init := b[..|b| - 1];
      assert (a + b)[..|a + b| - 1] == a + init;
      ErasesOn(s, a, init);
      RunOn(s, a, init);
    }
  }

  /** Up to a lap of saves from page 0: the sectors entered are erased once, the first one not at all. */
  lemma {:induction false} SavesWear(s: Store, m: Model, k: nat, i: nat)
    requires |s.cells| == FLASH_SIZE && Represents(s, m) && !m.updating && !m.lost && m.slot == 0
    requires k < SLOTS && i < 52
    ensures var t := Run(s, SaveTimes(k));
      Represents(t, ModelRun(s, m, SaveTimes(k))) && t.start == s.start
    ensures var n := ModelRun(s, m, SaveTimes(k)); !n.updating && !n.lost && n.slot == k
    ensures Times(RunErases(s, SaveTimes(k)), s.start + 4096 * i) == if 0 < 16 * i <= k then 1 else 0
    decreases k
  {
    hide Represents, Step, Times, SaveErases, Run, ModelRun, RunErases, SlotOf;
    RepresentsPlace(s, m);
    if k == 0 {
      NoEvents(s, m);
      NoErases(s);
      NoTimes(s.start + 4096 * i);
    } else {
      SavesWear(s, m, k - 1, i);
      SaveOneMore(s, m, SaveTimes(k - 1), i);
    }
  }

  /** One save on a lap, in a run. */
  lemma SaveOneMore(s: Store, m: Model, es: seq<Event>, i: nat)
    requires |s.cells| == FLASH_SIZE && Represents(Run(s, es), ModelRun(s, m, es)) && i < 52
    requires var n := ModelRun(s, m, es); !n.updating && !n.lost && n.slot + 1 < SLOTS
    ensures Represents(Run(s, es + [Save]), ModelRun(s, m, es + [Save])) && Run(s, es + [Save]).start == Run(s, es).start
    ensures var n := ModelRun(s, m, es + [Save]); !n.updating && !n.lost && n.slot == ModelRun(s, m, es).slot + 1
    ensures var a := Run(s, es).start + 4096 * i;
      Times(RunErases(s, es + [Save]), a)
        == Times(RunErases(s, es), a) + if ModelRun(s, m, es).slot + 1 == 16 * i then 1 else 0
  {
    hide Represents, Step, Times, SaveErases, Run, ModelRun, RunErases, SlotOf;
    var t, n := Run(s, es), ModelRun(s, m, es);
    RunOneMore(s, es, Save);
    ModelOneMore(s, m, es, Save);
    ErasesOneMore(s, es, Save);
    RepresentsPlace(t, n);
    SectorEntered(t, n, t.start, i);
    PlaceKept(t, n, Save);
    StepRefines(t, n, Save);
    SaveErasesAtMostOne(t, Save);
    TimesAppend(RunErases(s, es), SaveErases(t, Save), t.start + 4096 * i);
  }

  lemma NoErases(s: Store)
    requires |s.cells| == FLASH_SIZE
    ensures RunErases(s, []) == []
  {
  }

  lemma ErasesOneMore(s: Store, es: seq<Event>, e: Event)
    requires |s.cells| == FLASH_SIZE
    ensures RunErases(s, es + [e]) == RunErases(s, es) + SaveErases(Run(s, es), e)
  {
    hide SaveErases, Run;
    assert (es + [e])[..|es|] == es;
  }

  /** One event outside saves, in a run. */
  lemma OtherOneMore(s: Store, m: Model, es: seq<Event>, e: Event)
    requires |s.cells| == FLASH_SIZE && Represents(Run(s, es), ModelRun(s, m, es))
    requires !e.Download? && !e.Save? && !e.OtaSuccess? && (e.Reboot? ==> !Misled(Run(s, es)))
    ensures Represents(Run(s, es + [e]), ModelRun(s, m, es + [e]))
    ensures Run(s, es + [e]).start == Run(s, es).start && RunErases(s, es + [e]) == RunErases(s, es)
    ensures ModelRun(s, m, es + [e]) == ModelStep(ModelRun(s, m, es), e)
  {
    hide Represents, Step, Run, ModelRun, ModelStep, RunErases, Misled;
    RunOneMore(s, es, e);
    ModelOneMore(s, m, es, e);
    ErasesOneMore(s, es, e);
    StepRefines(Run(s, es), ModelRun(s, m, es), e);
    PlaceKept(Run(s, es), ModelRun(s, m, es), e);
  }

  lemma LastPageNotMisled(s: Store, m: Model)
    requires Represents(s, m) && !m.updating && m.slot == SLOTS - 1
    ensures !Misled(s)
  {
    hide Represents, Continues, CutOff;
    RepresentsMeans(s, m);
  }

  /** One round comes back to page 0 of the same region, with the erases of its saves. */
  lemma RoundWear(s: Store, m: Model, k: nat, tail: seq<Event>, i: nat)
    requires |s.cells| == FLASH_SIZE && Represents(s, m) && !m.updating && !m.lost && m.slot == 0
    requires Returns(k, tail) && i < 52
    ensures var t := Run(s, SaveTimes(k) + tail); Represents(t, ModelRun(s, m, SaveTimes(k) + tail)) && t.start == s.start
    ensures var n := ModelRun(s, m, SaveTimes(k) + tail); !n.updating && !n.lost && n.slot == 0
    ensures Times(RunErases(s, SaveTimes(k) + tail), s.start + 4096 * i) == if 0 < 16 * i <= k then 1 else 0
  {
    hide Represents, Step, Times, CleanStep, Run, ModelRun, RunErases, SlotOf;
    SavesWear(s, m, k, i);
    var es := SaveTimes(k);
    if tail == [Reboot] {
      LastPageNotMisled(Run(s, es), ModelRun(s, m, es));
      OtherOneMore(s, m, es, Reboot);
    } else {
      OtherOneMore(s, m, es, OtaStart);
      OtherOneMore(s, m, es + [OtaStart], OtaFail);
      assert es + [OtaStart] + [OtaFail] == es + tail;
    }
  }

  /** Saves that again and again end in a failed update, or in a reset in the last page, wear the flash without bound:
      after n rounds of k saves the sectors entered have n erases and all others none. With 16 saves and failed
      updates these are sector 1 and, say, sector 51; with whole laps and resets, sector 1 and sector 0. */
  lemma {:induction false} RoundsWearUnevenly(s: Store, m: Model, k: nat, tail: seq<Event>, n: nat, i: nat)
    requires |s.cells| == FLASH_SIZE && Represents(s, m) && !m.updating && !m.lost && m.slot == 0
    requires Returns(k, tail) && i < 52
    ensures var t, d := Run(s, Rounds(k, tail, n)), ModelRun(s, m, Rounds(k, tail, n));
      Represents(t, d) && t.start == s.start && !d.updating && !d.lost && d.slot == 0
    ensures Times(RunErases(s, Rounds(k, tail, n)), s.start + 4096 * i) == if 0 < 16 * i <= k then n else 0
    decreases n
  {
    hide Represents, Step, Times, CleanStep, Run, ModelRun, RunErases, Returns;
    if n == 0 {
      NoEvents(s, m);
      NoErases(s);
      NoTimes(s.start + 4096 * i);
    } else {
      var init, round := Rounds(k, tail, n - 1), SaveTimes(k) + tail;
      RoundsWearUnevenly(s, m, k, tail, n - 1, i);
      var t, d := Run(s, init), ModelRun(s, m, init);
      RoundWear(t, d, k, tail, i);
      RunOn(s, init, round);
      ErasesOn(s, init, round);
      ModelOn(s, m, init, round);
      TimesJoin(RunErases(s, init), RunErases(t, round), s.start + 4096 * i);
    }
  }

  /** On a new device: two laps of saves, each ended by a reset in the last page, erase sector 1 twice and never
      sector 0. */
  lemma NewDeviceWearsUnevenly(s: Store)
    requires |s.cells| == FLASH_SIZE && s.nv == None && TidyRegion(s.cells, RegionStart(!s.bootHigh))
    ensures var booted, es := Step(s, Reboot), Rounds(SLOTS - 1, [Reboot], 2);
      Times(RunErases(booted, es), booted.start) == 0 && Times(RunErases(booted, es), booted.start + 4096) == 2
  {
    hide Represents, Step, Times, RunErases, Rounds, TidyRegion;
    FirstReboot(s);
    RoundsWearUnevenly(Step(s, Reboot), DEFAULT_MODEL, SLOTS - 1, [Reboot], 2, 0);
    RoundsWearUnevenly(Step(s, Reboot), DEFAULT_MODEL, SLOTS - 1, [Reboot], 2, 1);
  }

  lemma FirstReboot(s: Store)
    requires |s.cells| == FLASH_SIZE && s.nv == None && TidyRegion(s.cells, RegionStart(!s.bootHigh))
    ensures Represents(Step(s, Reboot), DEFAULT_MODEL)
  {
    hide Represents, Initialised, TidyRegion, Logging, Valid, SlotOf;
    FirstBoot(PowerCycled(s));
  }

  lemma {:induction false} TimesJoin(a: seq<nat>, b: seq<nat>, addr: nat)
    ensures Times(a + b, addr) == Times(a, addr) + Times(b, addr)
    decreases |b|
  {
    if b == [] {
      assert a + b == a;
    } else {
      assert (a + b)[..|a + b| - 1] == a + b[..|b| - 1];
      TimesJoin(a, b[..|b| - 1], addr);
    }
  }
}
