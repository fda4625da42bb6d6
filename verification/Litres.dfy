/** Where the litres go over whole runs of polls, presets, sleeps, restarts, erases and updates. */
module Litres {
  import opened Bytes
  import opened Flash
  import opened ConfigStore
  import opened ConfigSteps
  import opened Counter
  import opened Pulses
  import opened ConfigLog
  import ConfigOwn
  import ConfigRuns
  import ConfigAge

  /** SetStep and the presets are written by the network. A restart with powerOn also loses the retained register.
      OtaSuccess is an update that ends in a reset on the other boot address, or in nothing outside an update. */
  datatype Event =
    | Poll(hotLow: bool, coldLow: bool)
    | SetStep(w: u16)
    | PresetHot(value: u32)
    | PresetCold(value: u32)
    | Sleep(hotHigh: bool, coldHigh: bool)
    | Restart(powerOn: bool, hotLow: bool, coldLow: bool)
    | EraseArea(sectors: nat)
    | OtaStart
    | Download(cells: seq<byte>)
    | OtaFail
    | OtaSuccess(hotHigh: bool, coldHigh: bool, hotLow: bool, coldLow: bool)

  predicate SoundMeter(m: Meter)
  {
    Sound(m.hot) && Sound(m.cold) && |m.store.cells| == FLASH_SIZE
  }

  /** The step of the store behind an event other than a poll. */
  function StoreEvent(m: Meter, e: Event): ConfigRuns.Event
    requires !e.Poll? && !e.Sleep?
  {
    var c := m.store.ram;
    match e
    case SetStep(w) => ConfigRuns.Preset(c.hot, c.cold, ToByte(StepFrom(w)))
    case PresetHot(v) =>
      ConfigRuns.Preset(if StepOf(m.store) == 0 then c.hot else PresetTo(v, StepOf(m.store)), c.cold, c.litersPerPulse)
    case PresetCold(v) =>
      ConfigRuns.Preset(c.hot, if StepOf(m.store) == 0 then c.cold else PresetTo(v, StepOf(m.store)), c.litersPerPulse)
    case Restart(_, _, _) => ConfigRuns.Reboot
    case EraseArea(sectors) => ConfigRuns.EraseArea(sectors)
    case OtaStart => ConfigRuns.OtaStart
    case Download(cells) => ConfigRuns.Download(cells)
    case OtaFail => ConfigRuns.OtaFail
    case OtaSuccess(_, _, _, _) => ConfigRuns.OtaSuccess
  }

  function Next(m: Meter, e: Event): (r: Meter)
    requires SoundMeter(m)
  {
    match e
    case Poll(hotLow, coldLow) => AfterPoll(m, hotLow, coldLow)
    case Sleep(hotHigh, coldHigh) => AfterSleep(m, hotHigh, coldHigh)
    case _ =>
      var t := m.(store := ConfigRuns.Step(m.store, StoreEvent(m, e)));
      match e
      case Restart(powerOn, hotLow, coldLow) =>
        CountersStarted(if powerOn then t.(reg := 0) else t, hotLow, coldLow)
      case OtaSuccess(hotHigh, coldHigh, hotLow, coldLow) =>
        var u := AfterSleep(t, hotHigh, coldHigh);
        if m.store.ram.newOta != 0 then CountersStarted(u, hotLow, coldLow) else u
      case _ => t
  }

  /** A restart is what the counter's own start-up does. */
  lemma RestartIsStartUp(m: Meter, hotLow: bool, coldLow: bool)
    requires SoundMeter(m)
    ensures Next(m, Restart(false, hotLow, coldLow)) == AfterRestart(m, hotLow, coldLow)
  {
    hide Initialised, Restarted;
  }

  lemma StepSound(m: Meter, e: Event)
    requires SoundMeter(m)
    ensures SoundMeter(Next(m, e))
  {
    hide Polled, Added, StoreEvent, StepOf, AfterPoll, ConfigRuns.Step;
    if e.Poll? {
      PollSound(m, e.hotLow, e.coldLow);
    }
  }

  lemma PollSound(m: Meter, hotLow: bool, coldLow: bool)
    requires SoundMeter(m)
    ensures SoundMeter(AfterPoll(m, hotLow, coldLow))
  {
    hide Added, StepOf;
  }

  function After(m: Meter, es: seq<Event>): (r: Meter)
    requires SoundMeter(m)
    ensures SoundMeter(r)
    decreases |es|
  {
    if es == [] then m
    else
      StepSound(After(m, es[..|es| - 1]), es[|es| - 1]);
      Next(After(m, es[..|es| - 1]), es[|es| - 1])
  }

  /** Hot pulses taken into account by an event: those that the debounce walk or a flagged edge counted. */
  function HotPulses(m: Meter, e: Event): (n: nat)
    requires SoundMeter(m)
    ensures n <= 1
  {
    if e.Poll? then Polled(m.hot, e.hotLow).counter else 0
  }

  function ColdPulses(m: Meter, e: Event): (n: nat)
    requires SoundMeter(m)
    ensures n <= 1
  {
    if e.Poll? then Polled(m.cold, e.coldLow).counter else 0
  }

  /** Litres owed for them, at the step in force. */
  function HotOwed(m: Meter, e: Event): nat
    requires SoundMeter(m)
  {
    StepOf(m.store) * HotPulses(m, e)
  }

  function ColdOwed(m: Meter, e: Event): nat
    requires SoundMeter(m)
  {
    StepOf(m.store) * ColdPulses(m, e)
  }

  /** Litres owed for the pulses of a run. */
  function HotLitres(m: Meter, es: seq<Event>): nat
    requires SoundMeter(m)
    decreases |es|
  {
    if es == [] then 0 else HotLitres(m, es[..|es| - 1]) + HotOwed(After(m, es[..|es| - 1]), es[|es| - 1])
  }

  function ColdLitres(m: Meter, es: seq<Event>): nat
    requires SoundMeter(m)
    decreases |es|
  {
    if es == [] then 0 else ColdLitres(m, es[..|es| - 1]) + ColdOwed(After(m, es[..|es| - 1]), es[|es| - 1])
  }

  // ----- the meter over the persistent cell -----

  /** The persistent cell behind the meter moves with it. */
  function ModelNext(m: Meter, c: ConfigRuns.Model, e: Event): ConfigRuns.Model
    requires SoundMeter(m)
  {
    match e
    case Poll(hotLow, coldLow) =>
      if HotPulses(m, e) != 0 || ColdPulses(m, e) != 0 then
        var counted := Counted(m.store, HotPulses(m, e), ColdPulses(m, e)).ram;
        ConfigRuns.Saved(c.(working := c.working.(hot := counted.hot, cold := counted.cold)))
      else c
    case Sleep(_, _) => c
    case _ => ConfigRuns.ModelNext(m.store, c, StoreEvent(m, e))
  }

  function ModelAfter(m: Meter, c: ConfigRuns.Model, es: seq<Event>): ConfigRuns.Model
    requires SoundMeter(m)
    decreases |es|
  {
    if es == [] then c
    else ModelNext(After(m, es[..|es| - 1]), ModelAfter(m, c, es[..|es| - 1]), es[|es| - 1])
  }

  /** Memory and persistent cell agree on the litres, and sums never leave 32 bits. */
  ghost predicate Kept(m: Meter, c: ConfigRuns.Model)
  {
    SoundMeter(m) && ConfigRuns.Represents(m.store, c)
    && c.stored.hot == c.working.hot <= 4194967295 && c.stored.cold == c.working.cold <= 4194967295
  }

  /** Downloaded bytes are not records of the log. */
  predicate CleanEvent(m: Meter, e: Event)
    requires SoundMeter(m)
  {
    e.Download? ==> ConfigRuns.CleanStep(m.store, StoreEvent(m, e))
  }

  /** A restart that does not find the reading: outside an update, with the newest record in the last page of the log,
      with the log's first page erased for a download, or with an old page that continues the log. */
  predicate Loses(m: Meter, e: Event)
  {
    e.Restart? && m.store.ram.newOta == 0
    && (SlotOf(m.store) == SLOTS - 1 || CutOff(m.store) || ConfigOwn.Misled(m.store))
  }

  /** What it finds instead. */
  function FoundInstead(s: Store): Cell
  {
    if ConfigOwn.Misled(s) then ConfigRuns.Resurrected(s).stored else DEFAULT_CELL
  }

  lemma AddedLitres(litres: u32, step: u8, pulses: u8)
    requires litres <= 4194967295 && pulses <= 1
    ensures Added(litres, step, pulses) % 100000000 == (litres + step * pulses) % 100000000
    ensures Added(litres, step, pulses) <= 4194967295
    ensures litres < COUNTERS_OVERFLOW ==> Added(litres, step, pulses) < COUNTERS_OVERFLOW
  {
  }

  lemma KeptMeans(m: Meter, c: ConfigRuns.Model)
    requires Kept(m, c)
    ensures c.working == CellOf(m.store.ram) && (c.updating <==> m.store.ram.newOta != 0)
    ensures m.store.ram.newOta == 0 ==> c.slot == SlotOf(m.store) && (c.lost <==> CutOff(m.store))
    ensures ConfigOwn.Misled(m.store) ==> !c.updating && !c.lost && c.slot != SLOTS - 1
  {
    PlaceMeans(m, c);
  }

  lemma PlaceMeans(m: Meter, c: ConfigRuns.Model)
    requires ConfigRuns.Represents(m.store, c)
    ensures c.working == CellOf(m.store.ram) && (c.updating <==> m.store.ram.newOta != 0)
    ensures m.store.ram.newOta == 0 ==> c.slot == SlotOf(m.store) && (c.lost <==> CutOff(m.store))
    ensures ConfigOwn.Misled(m.store) ==> !c.updating && !c.lost && c.slot != SLOTS - 1
  {
    hide ConfigRuns.Represents;
    ConfigRuns.RepresentsMeans(m.store, c);
    if ConfigOwn.Misled(m.store) {
      ConfigRuns.MisledMoves(m.store, c);
    }
  }

  /** A poll with pulses is a preset and a save of the store. */
  lemma PollRefines(m: Meter, c: ConfigRuns.Model, e: Event)
    requires SoundMeter(m) && ConfigRuns.Represents(m.store, c) && e.Poll?
    ensures ConfigRuns.Represents(Next(m, e).store, ModelNext(m, c, e))
  {
    hide Written, ConfigRuns.Represents, ConfigRuns.Saved, Added;
    var hot, cold := HotPulses(m, e), ColdPulses(m, e);
    if hot != 0 || cold != 0 {
      ConfigRuns.RepresentsMeans(m.store, c);
      var counted := Counted(m.store, hot, cold);
      var preset := ConfigRuns.Preset(counted.ram.hot, counted.ram.cold, counted.ram.litersPerPulse);
      ConfigRuns.PresetRefines(m.store, c, preset);
      assert ConfigRuns.Step(m.store, preset) == counted;
      ConfigRuns.SaveRefines(counted, ConfigRuns.ModelStep(c, preset));
    }
  }

  lemma NextRefines(m: Meter, c: ConfigRuns.Model, e: Event)
    requires Kept(m, c) && CleanEvent(m, e)
    ensures ConfigRuns.Represents(Next(m, e).store, ModelNext(m, c, e))
  {
    hide ConfigRuns.Represents, Next, ModelNext, CleanEvent;
    EventRefines(m, c, e);
  }

  lemma EventRefines(m: Meter, c: ConfigRuns.Model, e: Event)
    requires SoundMeter(m) && ConfigRuns.Represents(m.store, c) && CleanEvent(m, e)
    ensures ConfigRuns.Represents(Next(m, e).store, ModelNext(m, c, e))
  {
    hide ConfigRuns.Represents, ConfigRuns.Step, ConfigRuns.ModelNext, ConfigOwn.CleanDownload;
    if e.Poll? {
      PollRefines(m, c, e);
    } else if !e.Sleep? {
      ConfigRuns.StepRefines(m.store, c, StoreEvent(m, e));
    }
  }

  /** What an event does to the litres of the cell. */
  lemma ModelLitres(m: Meter, c: ConfigRuns.Model, e: Event)
    requires Kept(m, c) && !e.PresetHot? && !e.PresetCold? && !Loses(m, e)
    ensures var n := ModelNext(m, c, e);
      n.stored.hot == n.working.hot == Added(c.working.hot, StepOf(m.store), HotPulses(m, e))
      && n.stored.cold == n.working.cold == Added(c.working.cold, StepOf(m.store), ColdPulses(m, e))
  {
    KeptMeans(m, c);
    hide ConfigRuns.Represents, CutOff, SlotOf, Overflowed, StepOf, StoreEvent;
    if e.Poll? {
      PollLitres(m, c, e);
    } else if !e.Sleep? {
      StoreLitres(m, c, e);
    }
  }

  lemma PollLitres(m: Meter, c: ConfigRuns.Model, e: Event)
    requires SoundMeter(m) && c.working == CellOf(m.store.ram) && e.Poll?
    requires c.stored.hot == c.working.hot && c.stored.cold == c.working.cold
    ensures var n := ModelNext(m, c, e);
      n.stored.hot == n.working.hot == Added(c.working.hot, StepOf(m.store), HotPulses(m, e))
      && n.stored.cold == n.working.cold == Added(c.working.cold, StepOf(m.store), ColdPulses(m, e))
  {
    hide Overflowed, StepOf;
  }

  lemma StoreLitres(m: Meter, c: ConfigRuns.Model, e: Event)
    requires SoundMeter(m) && c.working == CellOf(m.store.ram) && !e.Poll? && !e.Sleep?
    requires c.stored.hot == c.working.hot && c.stored.cold == c.working.cold
    requires !e.PresetHot? && !e.PresetCold?
    requires e.Restart? ==> (c.updating || (!c.lost && c.slot != SLOTS - 1)) && !ConfigOwn.Misled(m.store)
    ensures var n := ModelNext(m, c, e);
      n.stored.hot == n.working.hot == c.working.hot && n.stored.cold == n.working.cold == c.working.cold
  {
    hide ToByte, StepFrom;
  }

  lemma StepKeeps(m: Meter, c: ConfigRuns.Model, e: Event)
    requires Kept(m, c) && CleanEvent(m, e) && !e.PresetHot? && !e.PresetCold? && !Loses(m, e)
    ensures var n := Next(m, e);
      Kept(n, ModelNext(m, c, e))
      && n.store.ram.hot == Added(m.store.ram.hot, StepOf(m.store), HotPulses(m, e))
      && n.store.ram.cold == Added(m.store.ram.cold, StepOf(m.store), ColdPulses(m, e))
  {
    hide ConfigRuns.Represents, Added, Next, ModelNext, Loses, CleanEvent, HotPulses, ColdPulses, StepOf;
    hide Shaped, CutOff, ConfigOwn.Current, SlotOf, Rec, Overflowed;
    ConfigRuns.RepresentsMeans(m.store, c);
    NextRefines(m, c, e);
    ModelLitres(m, c, e);
    StepSound(m, e);
    ConfigRuns.RepresentsMeans(Next(m, e).store, ModelNext(m, c, e));
    AddedLitres(c.working.hot, StepOf(m.store), HotPulses(m, e));
    AddedLitres(c.working.cold, StepOf(m.store), ColdPulses(m, e));
  }

  lemma AddModulo(a: nat, b: nat, c: nat, d: nat)
    requires a % 100000000 == b % 100000000 && c % 100000000 == (a + d) % 100000000
    ensures c % 100000000 == (b + d) % 100000000
  {
  }

  /** No preset and no restart that loses the reading; downloaded bytes are not records of the log. */
  predicate Counting(m: Meter, es: seq<Event>)
    requires SoundMeter(m)
  {
    forall i :: 0 <= i < |es| ==>
      !es[i].PresetHot? && !es[i].PresetCold? && CleanEvent(After(m, es[..i]), es[i]) && !Loses(After(m, es[..i]), es[i])
  }

  lemma CountingPrefix(m: Meter, es: seq<Event>)
    requires SoundMeter(m) && Counting(m, es) && es != []
    ensures var n := |es| - 1;
      Counting(m, es[..n]) && !es[n].PresetHot? && !es[n].PresetCold?
      && CleanEvent(After(m, es[..n]), es[n]) && !Loses(After(m, es[..n]), es[n])
  {
    hide CleanEvent, Loses, After;
    var init := es[..|es| - 1];
    forall i | 0 <= i < |init|
      ensures !init[i].PresetHot? && !init[i].PresetCold?
      ensures CleanEvent(After(m, init[..i]), init[i]) && !Loses(After(m, init[..i]), init[i])
    {
      assert init[..i] == es[..i] && init[i] == es[i];
    }
  }

  lemma KeptSound(m: Meter, c: ConfigRuns.Model)
    requires Kept(m, c)
    ensures SoundMeter(m)
  {
  }

  lemma {:induction false} KeptAlways(m: Meter, c: ConfigRuns.Model, es: seq<Event>)
    requires Kept(m, c) && Counting(m, es)
    ensures Kept(After(m, es), ModelAfter(m, c, es))
    decreases |es|
  {
    hide Kept, Counting, Next, ModelNext, CleanEvent, Loses, SoundMeter;
    KeptSound(m, c);
    if es != [] {
      CountingPrefix(m, es);
      KeptAlways(m, c, es[..|es| - 1]);
      StepKeeps(After(m, es[..|es| - 1]), ModelAfter(m, c, es[..|es| - 1]), es[|es| - 1]);
    }
  }

  /** One event moves both counters by what is owed. */
  lemma StepConserves(m: Meter, c: ConfigRuns.Model, e: Event)
    requires Kept(m, c) && CleanEvent(m, e) && !e.PresetHot? && !e.PresetCold? && !Loses(m, e)
    ensures var n, b := Next(m, e).store.ram, m.store.ram;
      n.hot % 100000000 == (b.hot + HotOwed(m, e)) % 100000000
      && n.cold % 100000000 == (b.cold + ColdOwed(m, e)) % 100000000
      && (b.hot < COUNTERS_OVERFLOW ==> n.hot < COUNTERS_OVERFLOW)
      && (b.cold < COUNTERS_OVERFLOW ==> n.cold < COUNTERS_OVERFLOW)
  {
    hide ConfigRuns.Represents, Next, ModelNext, CleanEvent, Loses, StepOf, Added, HotPulses, ColdPulses, CutOff, SlotOf;
    StepKeeps(m, c, e);
    KeptMeans(m, c);
    AddedLitres(m.store.ram.hot, StepOf(m.store), HotPulses(m, e));
    AddedLitres(m.store.ram.cold, StepOf(m.store), ColdPulses(m, e));
  }

  /** Over every such run of polls, step changes, sleeps, restarts, erases and updates each counter is its start plus
      the litres of every counted pulse, modulo 100000000, and below that if it began there; and as much is stored. */
  lemma {:induction false} LitresConserved(m: Meter, c: ConfigRuns.Model, es: seq<Event>)
    requires Kept(m, c) && Counting(m, es)
    ensures Kept(After(m, es), ModelAfter(m, c, es))
    ensures var t, b := After(m, es).store.ram, m.store.ram;
      t.hot % 100000000 == (b.hot + HotLitres(m, es)) % 100000000
      && t.cold % 100000000 == (b.cold + ColdLitres(m, es)) % 100000000
      && (b.hot < COUNTERS_OVERFLOW ==> t.hot < COUNTERS_OVERFLOW)
      && (b.cold < COUNTERS_OVERFLOW ==> t.cold < COUNTERS_OVERFLOW)
    decreases |es|
  {
    hide Kept, Counting, Next, ModelNext, HotOwed, ColdOwed, CleanEvent, Loses, SoundMeter, ModelAfter;
    KeptSound(m, c);
    KeptAlways(m, c, es);
    if es != [] {
      var init, e := es[..|es| - 1], es[|es| - 1];
      CountingPrefix(m, es);
      LitresConserved(m, c, init);
      var b := After(m, init);
      StepConserves(b, ModelAfter(m, c, init), e);
      AddModulo(b.store.ram.hot, m.store.ram.hot + HotLitres(m, init), Next(b, e).store.ram.hot, HotOwed(b, e));
      AddModulo(b.store.ram.cold, m.store.ram.cold + ColdLitres(m, init), Next(b, e).store.ram.cold, ColdOwed(b, e));
    }
  }

  /** The restarts left out above come up with the default, or with the last of the old pages that continue the log.
      So the readings are kept if and only if a restart is none of them, or finds the same readings there. */
  lemma RestartKeepsIff(m: Meter, c: ConfigRuns.Model, e: Event)
    requires Kept(m, c) && e.Restart?
    ensures var n, found := CellOf(Next(m, e).store.ram), FoundInstead(m.store);
      (Loses(m, e) ==> n == found)
      && (n.hot == m.store.ram.hot && n.cold == m.store.ram.cold
          <==> !Loses(m, e) || (found.hot == m.store.ram.hot && found.cold == m.store.ram.cold))
  {
    hide ConfigRuns.Represents, CutOff, SlotOf, Next, ModelNext, ConfigRuns.Resurrected, SoundMeter, ConfigOwn.Misled;
    KeptSound(m, c);
    KeptMeans(m, c);
    NextRefines(m, c, e);
    RestartLitres(m, c, e);
    ConfigRuns.RepresentsMeans(Next(m, e).store, ModelNext(m, c, e));
  }

  /** The first boot of a device starts such runs, if the sectors of the other region are in order. */
  lemma NewMeterKept(hot: Input, cold: Input, reg: bv8, s: Store)
    requires Sound(hot) && Sound(cold) && |s.cells| == FLASH_SIZE && (s.nv == None || !Valid(s.nv.value))
    requires ConfigOwn.TidyRegion(s.cells, RegionStart(!s.bootHigh))
    ensures Kept(Meter(hot, cold, reg, Initialised(s)), ConfigRuns.DEFAULT_MODEL)
  {
    hide ConfigRuns.Represents, Initialised, Valid, ConfigOwn.TidyRegion;
    ConfigRuns.FirstBoot(s);
  }

  /** The pulse that goes to the last page is counted and stored, and a restart then finds no litres at all. */
  lemma LastPageLosesLitres(m: Meter, c: ConfigRuns.Model, e: Event, r: Event)
    requires Kept(m, c) && !c.updating && c.slot == SLOTS - 2 && e.Poll? && r.Restart?
    requires HotPulses(m, e) + ColdPulses(m, e) > 0
    ensures SoundMeter(Next(m, e))
    ensures var n := Next(m, e).store.ram;
      n.hot == Added(m.store.ram.hot, StepOf(m.store), HotPulses(m, e))
      && n.cold == Added(m.store.ram.cold, StepOf(m.store), ColdPulses(m, e))
    ensures var n := Next(Next(m, e), r).store.ram; n.hot == 0 && n.cold == 0
  {
    hide ConfigRuns.Represents, CutOff, SlotOf, Next, Counted, StepOf, Added;
    KeptSound(m, c);
    PollIsClean(m, e);
    StepKeeps(m, c, e);
    var n, d := Next(m, e), ModelNext(m, c, e);
    assert d.slot == SLOTS - 1 && !d.updating;
    hide ModelNext, HotPulses, ColdPulses;
    KeptSound(n, d);
    KeptMeans(n, d);
    RestartKeepsIff(n, d, r);
  }

  lemma PollIsClean(m: Meter, e: Event)
    requires SoundMeter(m) && e.Poll?
    ensures CleanEvent(m, e) && !Loses(m, e)
  {
  }

  lemma RestartLitres(m: Meter, c: ConfigRuns.Model, e: Event)
    requires SoundMeter(m) && e.Restart? && c.stored.hot == c.working.hot && c.stored.cold == c.working.cold
    ensures var n := ModelNext(m, c, e).working;
      if ConfigOwn.Misled(m.store) then n == ConfigRuns.Resurrected(m.store).stored
      else if !c.updating && (c.lost || c.slot == SLOTS - 1) then n == DEFAULT_CELL
      else n.hot == c.working.hot && n.cold == c.working.cold
  {
  }

  /** A step change is in force from the next pulse on. */
  lemma StepInForce(m: Meter, w: u16)
    requires SoundMeter(m)
    ensures StepOf(Next(m, SetStep(w)).store) == StepFrom(w)
  {
    hide ByteValue, ToByte;
    ByteRoundTrip(StepFrom(w));
  }

  // ----- runs of the meter as runs of the store -----

  /** What an event does to the store: a poll with pulses is a preset and a save. */
  function StoreEvents(m: Meter, e: Event): seq<ConfigRuns.Event>
    requires SoundMeter(m)
  {
    match e
    case Poll(_, _) =>
      if HotPulses(m, e) == 0 && ColdPulses(m, e) == 0 then []
      else
        var c := Counted(m.store, HotPulses(m, e), ColdPulses(m, e)).ram;
        [ConfigRuns.Preset(c.hot, c.cold, c.litersPerPulse), ConfigRuns.Save]
    case Sleep(_, _) => []
    case _ => [StoreEvent(m, e)]
  }

  function StoreRun(m: Meter, es: seq<Event>): seq<ConfigRuns.Event>
    requires SoundMeter(m)
    decreases |es|
  {
    if es == [] then []
    else StoreRun(m, es[..|es| - 1]) + StoreEvents(After(m, es[..|es| - 1]), es[|es| - 1])
  }

  lemma StoreEventsAre(m: Meter, e: Event)
    requires SoundMeter(m)
    ensures Next(m, e).store == ConfigRuns.Run(m.store, StoreEvents(m, e))
  {
    hide ConfigRuns.Run, ConfigRuns.Step, Written, Added, StoreEvent, HotPulses, ColdPulses, StepOf;
    ConfigRuns.NoEvents(m.store, ConfigRuns.DEFAULT_MODEL);
    if e.Poll? {
      PollEventsAre(m, e);
    } else if !e.Sleep? {
      ConfigRuns.RunOneMore(m.store, [], StoreEvent(m, e));
      assert [] + [StoreEvent(m, e)] == [StoreEvent(m, e)];
    }
  }

  lemma PollEventsAre(m: Meter, e: Event)
    requires SoundMeter(m) && e.Poll?
    ensures Next(m, e).store == ConfigRuns.Run(m.store, StoreEvents(m, e))
  {
    hide ConfigRuns.Run, Written, Added, StepOf;
    ConfigRuns.NoEvents(m.store, ConfigRuns.DEFAULT_MODEL);
    if HotPulses(m, e) != 0 || ColdPulses(m, e) != 0 {
      var c := Counted(m.store, HotPulses(m, e), ColdPulses(m, e));
      var preset := ConfigRuns.Preset(c.ram.hot, c.ram.cold, c.ram.litersPerPulse);
      ConfigRuns.ThreeEvents(m.store, preset, ConfigRuns.Save, ConfigRuns.Save);
      assert ConfigRuns.Step(m.store, preset) == c;
    }
  }

  lemma {:induction false} StoreRunIs(m: Meter, es: seq<Event>)
    requires SoundMeter(m)
    ensures After(m, es).store == ConfigRuns.Run(m.store, StoreRun(m, es))
    decreases |es|
  {
    hide Next, StoreEvents, ConfigRuns.Step, Sound;
    if es != [] {
      var init := es[..|es| - 1];
      StoreRunIs(m, init);
      StoreEventsAre(After(m, init), es[|es| - 1]);
      ConfigRuns.RunOn(m.store, StoreRun(m, init), StoreEvents(After(m, init), es[|es| - 1]));
    }
  }

  /** Over fewer than 2^32 counted pulses, old pages play no part in a restart, as long as no restart goes back to the
      default and leaves pages behind in the other region. */
  lemma YoungMeterLoses(m: Meter, c: ConfigRuns.Model, es: seq<Event>, e: Event, n: nat)
    requires SoundMeter(m) && ConfigRuns.Represents(m.store, c) && c.stored.top == c.working.top
    requires ConfigRuns.CleanRun(m.store, StoreRun(m, es)) && ConfigAge.Aged(m.store.cells, m.store.ram.top, n)
    requires n + ConfigAge.LogSaves(m.store, StoreRun(m, es)) + SLOTS <= 0x1_0000_0000
    requires ConfigAge.NothingLeftBehind(m.store, StoreRun(m, es))
    ensures var t := After(m, es).store;
      Loses(After(m, es), e) <==> e.Restart? && t.ram.newOta == 0 && (SlotOf(t) == SLOTS - 1 || CutOff(t))
  {
    hide ConfigRuns.Represents, ConfigRuns.CleanRun, ConfigAge.Aged, ConfigAge.LogSaves, ConfigOwn.Misled, CutOff, SlotOf;
    hide StoreRun, After, ConfigRuns.Run, ConfigAge.NothingLeftBehind;
    StoreRunIs(m, es);
    ConfigAge.YoungPagesNeverMislead(m.store, c, StoreRun(m, es), n);
  }

  // ----- single inputs -----

  predicate Polls(es: seq<Event>) { forall e <- es :: e.Poll? }

  /** The levels that the polls find at the two pins; true is low. */
  function HotLevels(es: seq<Event>): (s: seq<bool>)
    ensures |s| == |es|
  {
    seq(|es|, i requires 0 <= i < |es| => es[i].Poll? && es[i].hotLow)
  }

  function ColdLevels(es: seq<Event>): (s: seq<bool>)
    ensures |s| == |es|
  {
    seq(|es|, i requires 0 <= i < |es| => es[i].Poll? && es[i].coldLow)
  }

  lemma PollKeepsStep(m: Meter, e: Event)
    requires SoundMeter(m) && e.Poll?
    ensures Next(m, e).store.ram.litersPerPulse == m.store.ram.litersPerPulse
    ensures Next(m, e).hot == Polled(m.hot, e.hotLow).(counter := 0)
    ensures Next(m, e).cold == Polled(m.cold, e.coldLow).(counter := 0)
  {
    hide Encode, Checksum, Programmed, PageReady, Added;
  }

  /** What a poll counts of one pin, a pulse still waiting from a restart apart. */
  lemma PollCounts(i: Input, low: bool)
    requires Sound(i)
    ensures var p := Polled(Input(0, i.debounce), low);
      Polled(i, low).counter == i.counter + p.counter && Polled(i, low).debounce == p.debounce
  {
  }

  lemma OneLevelMore(es: seq<Event>, d: nat, f: nat)
    requires es != [] && 1 <= d <= 32 && 1 <= f <= 32 && es[|es| - 1].Poll?
    ensures var init, e := es[..|es| - 1], es[|es| - 1];
      Walk(d, HotLevels(es)) == Polled(Input(0, Walk(d, HotLevels(init))), e.hotLow).debounce
      && Walk(f, ColdLevels(es)) == Polled(Input(0, Walk(f, ColdLevels(init))), e.coldLow).debounce
      && Counts(d, HotLevels(es))
           == Counts(d, HotLevels(init)) + Polled(Input(0, Walk(d, HotLevels(init))), e.hotLow).counter
      && Counts(f, ColdLevels(es))
           == Counts(f, ColdLevels(init)) + Polled(Input(0, Walk(f, ColdLevels(init))), e.coldLow).counter
  {
    hide Polled;
    var n := |es| - 1;
    assert HotLevels(es)[..n] == HotLevels(es[..n]) && ColdLevels(es)[..n] == ColdLevels(es[..n]);
  }

  lemma NoLevels(d: nat)
    requires 1 <= d <= 32
    ensures Walk(d, HotLevels([])) == Walk(d, ColdLevels([])) == d
    ensures Counts(d, HotLevels([])) == Counts(d, ColdLevels([])) == 0
  {
  }

  lemma OnePollMore(m: Meter, es: seq<Event>)
    requires SoundMeter(m) && es != [] && es[|es| - 1].Poll?
    ensures var t, n, e := After(m, es[..|es| - 1]), After(m, es), es[|es| - 1];
      n.hot == Polled(t.hot, e.hotLow).(counter := 0) && n.cold == Polled(t.cold, e.coldLow).(counter := 0)
      && StepOf(n.store) == StepOf(t.store)
      && HotLitres(m, es) == HotLitres(m, es[..|es| - 1]) + StepOf(t.store) * Polled(t.hot, e.hotLow).counter
      && ColdLitres(m, es) == ColdLitres(m, es[..|es| - 1]) + StepOf(t.store) * Polled(t.cold, e.coldLow).counter
  {
    hide Next, ByteValue, Polled;
    PollKeepsStep(After(m, es[..|es| - 1]), es[|es| - 1]);
  }

  /** Along polls alone the litres of each pin are the step times what the debounce walk counts from the height it
      stands at, and one pulse more if one was waiting. */
  lemma {:induction false} PollsAreCounts(m: Meter, es: seq<Event>)
    requires SoundMeter(m) && Polls(es) && es != []
    ensures var n := After(m, es);
      n.hot == Input(0, Walk(m.hot.debounce, HotLevels(es))) && n.cold == Input(0, Walk(m.cold.debounce, ColdLevels(es)))
      && StepOf(n.store) == StepOf(m.store)
    ensures HotLitres(m, es) == StepOf(m.store) * (m.hot.counter + Counts(m.hot.debounce, HotLevels(es)))
    ensures ColdLitres(m, es) == StepOf(m.store) * (m.cold.counter + Counts(m.cold.debounce, ColdLevels(es)))
    decreases |es|
  {
    hide Next, StepOf, Polled, HotLevels, ColdLevels, Walk, Counts, After, HotLitres, ColdLitres;
    var init, e := es[..|es| - 1], es[|es| - 1];
    OneLevelMore(es, m.hot.debounce, m.cold.debounce);
    OnePollMore(m, es);
    if init == [] {
      NothingYet(m);
      NoLevels(m.hot.debounce);
      NoLevels(m.cold.debounce);
      PollCounts(m.hot, e.hotLow);
      PollCounts(m.cold, e.coldLow);
    } else {
      PollsAreCounts(m, init);
      var before, step := After(m, init), StepOf(m.store);
      Distribute(step, m.hot.counter + Counts(m.hot.debounce, HotLevels(init)), Polled(before.hot, e.hotLow).counter);
      Distribute(step, m.cold.counter + Counts(m.cold.debounce, ColdLevels(init)),
                 Polled(before.cold, e.coldLow).counter);
    }
  }

  lemma NothingYet(m: Meter)
    requires SoundMeter(m)
    ensures After(m, []) == m && HotLitres(m, []) == 0 && ColdLitres(m, []) == 0
  {
  }

  /** After a restart a low pin starts the walk at the top and a high one at the bottom, and a pin that the retained
      register remembers as high and that is low now has one pulse waiting. */
  lemma PollsAfterRestart(m: Meter, r: Event, es: seq<Event>)
    requires SoundMeter(m) && r.Restart? && Polls(es) && es != []
    ensures SoundMeter(Next(m, r))
    ensures var n, flagged := Next(m, r), !r.powerOn && m.reg & 4 != 0;
      HotLitres(n, es)
        == StepOf(n.store) * ((if flagged && m.reg & 1 != 0 && r.hotLow then 1 else 0)
                              + Counts(if r.hotLow then 32 else 1, HotLevels(es)))
      && ColdLitres(n, es)
        == StepOf(n.store) * ((if flagged && m.reg & 2 != 0 && r.coldLow then 1 else 0)
                              + Counts(if r.coldLow then 32 else 1, ColdLevels(es)))
  {
    hide Next, Walk, HotLevels, ColdLevels, Counts, HotLitres, ColdLitres, StepOf, After;
    StepSound(m, r);
    RestartInputs(m, r);
    PollsAreCounts(Next(m, r), es);
  }

  lemma RestartInputs(m: Meter, r: Event)
    requires SoundMeter(m) && r.Restart?
    ensures var n, flagged := Next(m, r), !r.powerOn && m.reg & 4 != 0;
      n.hot == Input(if flagged && m.reg & 1 != 0 && r.hotLow then 1 else 0, if r.hotLow then 32 else 1)
      && n.cold == Input(if flagged && m.reg & 2 != 0 && r.coldLow then 1 else 0, if r.coldLow then 32 else 1)
  {
    hide ConfigRuns.Step;
    NoFlags();
  }

  /** The register works once: a restart right after a restart adds nothing to what is stored, on either pin. */
  lemma SecondRestartAddsNothing(m: Meter, r: Event, again: Event, e: Event)
    requires SoundMeter(m) && r.Restart? && again.Restart? && e.Poll?
    ensures SoundMeter(Next(m, r)) && SoundMeter(Next(Next(m, r), again))
    ensures var n := Next(Next(m, r), again); HotPulses(n, e) == ColdPulses(n, e) == 0
  {
    hide ConfigRuns.Step;
    StepSound(m, r);
    RestartInputs(Next(m, r), again);
    NoFlags();
  }

  lemma NoFlags()
    ensures 0 as bv8 & 4 == 0
  {
  }

  /** So a pin held low through sleep and restart counts nothing, however long it is polled, and one that fell
      meanwhile counts once. */
  lemma HeldPinAddsEdgeOnly(m: Meter, hotHigh: bool, coldHigh: bool, powerOn: bool, es: seq<Event>)
    requires SoundMeter(m) && Polls(es) && es != [] && forall e <- es :: e.hotLow && e.coldLow
    ensures SoundMeter(Next(m, Sleep(hotHigh, coldHigh)))
    ensures var n := Next(Next(m, Sleep(hotHigh, coldHigh)), Restart(powerOn, true, true));
      SoundMeter(n)
      && HotLitres(n, es) == (if !powerOn && hotHigh then StepOf(n.store) else 0)
      && ColdLitres(n, es) == (if !powerOn && coldHigh then StepOf(n.store) else 0)
  {
    hide ConfigRuns.Step, HotLitres, ColdLitres, StepOf;
    RegisterBits(hotHigh, coldHigh);
    StepSound(m, Sleep(hotHigh, coldHigh));
    var asleep := Next(m, Sleep(hotHigh, coldHigh));
    PollsAfterRestart(asleep, Restart(powerOn, true, true), es);
    HeldCounts(HotLevels(es));
    HeldCounts(ColdLevels(es));
  }

  lemma {:induction false} HeldCounts(s: seq<bool>)
    requires forall i :: 0 <= i < |s| ==> s[i]
    ensures Walk(32, s) == 32 && Counts(32, s) == 0
    decreases |s|
  {
    if s != [] {
      HeldCounts(s[..|s| - 1]);
    }
  }

  lemma Distribute(a: nat, b: nat, c: nat)
    ensures a * b + a * c == a * (b + c)
  {
  }

  lemma RegisterBits(hotHigh: bool, coldHigh: bool)
    ensures var reg: bv8 := 4 | (if hotHigh then 1 else 0) | (if coldHigh then 2 else 0);
      reg & 4 != 0 && (reg & 1 != 0 <==> hotHigh) && (reg & 2 != 0 <==> coldHigh)
  {
  }

  /** A falling edge across a flagged restart adds exactly one pulse at the next poll, no other pair of levels adds
      any, and a power-on adds none; an update that ends in a reset counts as a flagged restart. */
  lemma EdgeAcrossRestart(m: Meter, hotHigh: bool, coldHigh: bool, powerOn: bool, hotLow: bool, coldLow: bool, e: Event)
    requires SoundMeter(m) && e.Poll?
    ensures SoundMeter(Next(m, Sleep(hotHigh, coldHigh)))
    ensures var n := Next(Next(m, Sleep(hotHigh, coldHigh)), Restart(powerOn, hotLow, coldLow));
      SoundMeter(n)
      && HotPulses(n, e) == (if !powerOn && hotHigh && hotLow then 1 else 0)
      && ColdPulses(n, e) == (if !powerOn && coldHigh && coldLow then 1 else 0)
    ensures var n := Next(m, OtaSuccess(hotHigh, coldHigh, hotLow, coldLow));
      m.store.ram.newOta != 0 ==>
        SoundMeter(n) && HotPulses(n, e) == (if hotHigh && hotLow then 1 else 0)
        && ColdPulses(n, e) == (if coldHigh && coldLow then 1 else 0)
  {
    hide ConfigRuns.Step;
    RegisterBits(hotHigh, coldHigh);
    StepSound(m, Sleep(hotHigh, coldHigh));
  }

  /** Without the flag a restart adds nothing, and leaves no flag. */
  lemma UnflaggedRestartAddsNothing(m: Meter, e: Event)
    requires SoundMeter(m) && e.Restart? && (e.powerOn || m.reg & 4 == 0)
    ensures var n := Next(m, e); n.hot.counter == 0 && n.cold.counter == 0 && n.reg & 4 == 0
  {
    hide ConfigRuns.Step;
  }

  /** Presets and step changes that no pulse has followed leave no trace of themselves in a restart. */
  lemma PresetNotSaved(m: Meter, e: Event, powerOn: bool, hotLow: bool, coldLow: bool)
    requires SoundMeter(m) && (e.PresetHot? || e.PresetCold? || e.SetStep?)
    ensures SoundMeter(Next(m, e))
    ensures Next(Next(m, e), Restart(powerOn, hotLow, coldLow)) == Next(m, Restart(powerOn, hotLow, coldLow))
  {
    hide Initialised, Restarted, PresetTo, StepFrom, ToByte, ByteValue;
    StepSound(m, e);
    assert PowerCycled(Next(m, e).store) == PowerCycled(m.store);
  }
}
