/** Litres over runs with presets: what memory holds, what flash holds, and when they agree. */
module Accounts {
  import opened Bytes
  import opened Flash
  import opened ConfigStore
  import opened ConfigSteps
  import opened Counter
  import opened Litres
  import ConfigOwn
  import ConfigRuns

  /** Litres as they ought to stand, in memory and as stored. */
  datatype Account = Account(hot: nat, cold: nat, storedHot: nat, storedCold: nat)

  /** A preset sets the memory side of its counter. A counted pulse of either input adds what is owed and stores both
      counters; so does an update start, without adding. A restart, and an update that ends, go back to what is
      stored. */
  function Booked(m: Meter, e: Event, a: Account): Account
    requires SoundMeter(m)
  {
    match e
    case Poll(_, _) =>
      var hot, cold := a.hot + HotOwed(m, e), a.cold + ColdOwed(m, e);
      if HotPulses(m, e) != 0 || ColdPulses(m, e) != 0 then Account(hot, cold, hot, cold) else a
    case PresetHot(v) => if StepOf(m.store) == 0 then a else a.(hot := PresetTo(v, StepOf(m.store)))
    case PresetCold(v) => if StepOf(m.store) == 0 then a else a.(cold := PresetTo(v, StepOf(m.store)))
    case OtaStart => a.(storedHot := a.hot, storedCold := a.cold)
    case Restart(_, _, _) => a.(hot := a.storedHot, cold := a.storedCold)
    case OtaFail => if m.store.ram.newOta != 0 then a.(hot := a.storedHot, cold := a.storedCold) else a
    case OtaSuccess(_, _, _, _) =>
      if m.store.ram.newOta != 0 then a.(hot := a.storedHot, cold := a.storedCold) else a
    case _ => a
  }

  predicate Same(n: nat, a: nat) { n <= 4194967295 && n % 100000000 == a % 100000000 }

  /** Memory and persistent cell stand as the account says, modulo the counter's limit. */
  ghost predicate Agrees(m: Meter, c: ConfigRuns.Model, a: Account)
  {
    SoundMeter(m) && ConfigRuns.Represents(m.store, c)
    && Same(c.working.hot, a.hot) && Same(c.working.cold, a.cold)
    && Same(c.stored.hot, a.storedHot) && Same(c.stored.cold, a.storedCold)
  }

  lemma Owed(litres: u32, step: u8, pulses: u8, a: nat)
    requires Same(litres, a) && pulses <= 1
    ensures Same(Added(litres, step, pulses), a + step * pulses)
  {
    hide Added;
    AddedLitres(litres, step, pulses);
    AddModulo(litres, a, Added(litres, step, pulses), step * pulses);
  }

  /** What a counted pulse makes of the cell, presets pending or not. */
  lemma PollBooked(m: Meter, c: ConfigRuns.Model, e: Event, a: Account)
    requires SoundMeter(m) && c.working == CellOf(m.store.ram) && e.Poll?
    requires Same(c.working.hot, a.hot) && Same(c.working.cold, a.cold)
    requires Same(c.stored.hot, a.storedHot) && Same(c.stored.cold, a.storedCold)
    ensures var n, b := ModelNext(m, c, e), Booked(m, e, a);
      Same(n.working.hot, b.hot) && Same(n.working.cold, b.cold)
      && Same(n.stored.hot, b.storedHot) && Same(n.stored.cold, b.storedCold)
    ensures HotPulses(m, e) + ColdPulses(m, e) > 0 ==>
              var n := ModelNext(m, c, e); n.stored.hot == n.working.hot && n.stored.cold == n.working.cold
  {
    hide Added, StepOf, HotPulses, ColdPulses, Same;
    Owed(c.working.hot, StepOf(m.store), HotPulses(m, e), a.hot);
    Owed(c.working.cold, StepOf(m.store), ColdPulses(m, e), a.cold);
  }

  lemma StoreBooked(m: Meter, c: ConfigRuns.Model, e: Event, a: Account)
    requires SoundMeter(m) && c.working == CellOf(m.store.ram) && !e.Poll? && !e.Sleep?
    requires c.updating <==> m.store.ram.newOta != 0
    requires Same(c.working.hot, a.hot) && Same(c.working.cold, a.cold)
    requires Same(c.stored.hot, a.storedHot) && Same(c.stored.cold, a.storedCold)
    requires e.Restart? ==> (c.updating || (!c.lost && c.slot != SLOTS - 1)) && !ConfigOwn.Misled(m.store)
    ensures var n, b := ModelNext(m, c, e), Booked(m, e, a);
      Same(n.working.hot, b.hot) && Same(n.working.cold, b.cold)
      && Same(n.stored.hot, b.storedHot) && Same(n.stored.cold, b.storedCold)
  {
    hide ToByte, StepFrom, StepOf, PresetTo;
  }

  lemma StepBooked(m: Meter, c: ConfigRuns.Model, e: Event, a: Account)
    requires Agrees(m, c, a) && CleanEvent(m, e) && !Loses(m, e)
    ensures Agrees(Next(m, e), ModelNext(m, c, e), Booked(m, e, a))
  {
    hide ConfigRuns.Represents, Next, CleanEvent, Same, ModelNext, Booked, CutOff, SlotOf, ConfigOwn.Misled;
    StepSound(m, e);
    PlaceMeans(m, c);
    EventRefines(m, c, e);
    if e.Poll? {
      PollBooked(m, c, e, a);
    } else if e.Sleep? {
      SleepBooked(m, c, e, a);
    } else {
      StoreBooked(m, c, e, a);
    }
  }

  lemma SleepBooked(m: Meter, c: ConfigRuns.Model, e: Event, a: Account)
    requires SoundMeter(m) && e.Sleep?
    ensures ModelNext(m, c, e) == c && Booked(m, e, a) == a
  {
  }

  /** Presets, and restarts that do not lose the reading, in any order. */
  predicate Safe(m: Meter, es: seq<Event>)
    requires SoundMeter(m)
  {
    forall i :: 0 <= i < |es| ==> CleanEvent(After(m, es[..i]), es[i]) && !Loses(After(m, es[..i]), es[i])
  }

  lemma SafePrefix(m: Meter, es: seq<Event>)
    requires SoundMeter(m) && Safe(m, es) && es != []
    ensures var n := |es| - 1;
      Safe(m, es[..n]) && CleanEvent(After(m, es[..n]), es[n]) && !Loses(After(m, es[..n]), es[n])
  {
    hide CleanEvent, Loses, After;
    var init := es[..|es| - 1];
    forall i | 0 <= i < |init|
      ensures CleanEvent(After(m, init[..i]), init[i]) && !Loses(After(m, init[..i]), init[i])
    {
      assert init[..i] == es[..i] && init[i] == es[i];
    }
  }

  function AccountAfter(m: Meter, a: Account, es: seq<Event>): Account
    requires SoundMeter(m)
    decreases |es|
  {
    if es == [] then a
    else Booked(After(m, es[..|es| - 1]), es[|es| - 1], AccountAfter(m, a, es[..|es| - 1]))
  }

  /** Over every run without a losing restart, presets included, both counters stand as their account says in memory
      and in flash, modulo 100000000. */
  lemma {:induction false} LitresAccounted(m: Meter, c: ConfigRuns.Model, a: Account, es: seq<Event>)
    requires Agrees(m, c, a) && SoundMeter(m) && Safe(m, es)
    ensures Agrees(After(m, es), ModelAfter(m, c, es), AccountAfter(m, a, es))
    decreases |es|
  {
    hide Agrees, Safe, Next, ModelNext, Booked, CleanEvent, Loses, SoundMeter;
    if es != [] {
      var init := es[..|es| - 1];
      SafePrefix(m, es);
      LitresAccounted(m, c, a, init);
      StepBooked(After(m, init), ModelAfter(m, c, init), es[|es| - 1], AccountAfter(m, a, init));
    }
  }

  /** A preset re-bases memory only; a restart before the next pulse brings the stored litres back; the next counted
      pulse of either input makes memory and flash agree again, with what it owes added to the preset. */
  lemma PresetRebases(m: Meter, c: ConfigRuns.Model, e: Event, after: Event)
    requires SoundMeter(m) && ConfigRuns.Represents(m.store, c) && StepOf(m.store) > 0
    requires e.PresetHot? || e.PresetCold?
    requires CleanEvent(Next(m, e), after) && !Loses(Next(m, e), after)
    ensures SoundMeter(Next(m, e)) && ConfigRuns.Represents(Next(m, e).store, ModelNext(m, c, e))
    ensures var n, d := Next(m, e).store.ram, ModelNext(m, c, e);
      d.stored == c.stored
      && n.hot == (if e.PresetHot? then PresetTo(e.value, StepOf(m.store)) else m.store.ram.hot)
      && n.cold == (if e.PresetCold? then PresetTo(e.value, StepOf(m.store)) else m.store.ram.cold)
    ensures var n := Next(m, e); var t := Next(n, after).store.ram;
      after.Restart? ==> t.hot == c.stored.hot && t.cold == c.stored.cold
    ensures var n := Next(m, e); var t, d := Next(n, after).store.ram, ModelNext(n, ModelNext(m, c, e), after);
      after.Poll? && HotPulses(n, after) + ColdPulses(n, after) > 0 ==>
        d.stored == d.working == CellOf(t)
        && t.hot == Added(n.store.ram.hot, StepOf(n.store), HotPulses(n, after))
        && t.cold == Added(n.store.ram.cold, StepOf(n.store), ColdPulses(n, after))
  {
    hide ConfigRuns.Represents, CleanEvent, CutOff, SlotOf, Added, StepOf, PresetTo, AfterPoll, Loses;
    hide SoundMeter, HotPulses, ColdPulses;
    var n, d := Next(m, e), ModelNext(m, c, e);
    StepSound(m, e);
    PresetIsClean(m, e);
    EventRefines(m, c, e);
    PlaceMeans(m, c);
    PlaceMeans(n, d);
    EventRefines(n, d, after);
    StepSound(n, after);
    PlaceMeans(Next(n, after), ModelNext(n, d, after));
    AfterPreset(m, c, e);
    if after.Restart? {
      RestartReturns(n, d, after);
    } else if after.Poll? {
      PulseStores(n, d, after);
    }
    hide Next, ModelNext;
  }

  lemma PresetIsClean(m: Meter, e: Event)
    requires SoundMeter(m) && (e.PresetHot? || e.PresetCold?)
    ensures CleanEvent(m, e)
  {
  }

  lemma AfterPreset(m: Meter, c: ConfigRuns.Model, e: Event)
    requires SoundMeter(m) && (e.PresetHot? || e.PresetCold?) && StepOf(m.store) > 0
    ensures var n := Next(m, e).store.ram;
      ModelNext(m, c, e).stored == c.stored
      && n.hot == (if e.PresetHot? then PresetTo(e.value, StepOf(m.store)) else m.store.ram.hot)
      && n.cold == (if e.PresetCold? then PresetTo(e.value, StepOf(m.store)) else m.store.ram.cold)
  {
    hide StepOf, PresetTo;
  }

  lemma RestartReturns(m: Meter, c: ConfigRuns.Model, e: Event)
    requires SoundMeter(m) && e.Restart? && !Loses(m, e)
    requires (c.updating <==> m.store.ram.newOta != 0)
    requires !c.updating ==> c.slot == SlotOf(m.store) && (c.lost <==> CutOff(m.store))
    ensures ModelNext(m, c, e).working == c.stored
  {
    hide CutOff, SlotOf;
  }

  lemma PulseStores(m: Meter, c: ConfigRuns.Model, e: Event)
    requires SoundMeter(m) && c.working == CellOf(m.store.ram) && e.Poll?
    ensures var d := ModelNext(m, c, e);
      HotPulses(m, e) + ColdPulses(m, e) > 0 ==>
        d.stored == d.working && d.working.hot == Added(m.store.ram.hot, StepOf(m.store), HotPulses(m, e))
        && d.working.cold == Added(m.store.ram.cold, StepOf(m.store), ColdPulses(m, e))
  {
    hide Added, StepOf, HotPulses, ColdPulses;
  }
}
