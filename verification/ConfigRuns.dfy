/** The configuration log refines one persistent cell, over every run of saves, updates, erases and reboots. */
module ConfigRuns {
  import opened Bytes
  import opened Flash
  import opened ConfigStore
  import opened ConfigLog
  import opened ConfigSteps
  import opened ConfigOwn

  /** Save is write_config. EraseArea is what a download erases before it begins, and before the firmware may refuse
      it; Download is whatever an update does to flash. OtaFail is an update that fails or is refused, OtaSuccess one
      that ends in a reset on the other boot address. */
  datatype Event =
    | Preset(hot: u32, cold: u32, litersPerPulse: byte)
    | Save
    | EraseArea(sectors: nat)
    | OtaStart
    | Download(cells: seq<byte>)
    | OtaFail
    | OtaSuccess
    | Reboot

  function Step(s: Store, e: Event): (r: Store)
    requires |s.cells| == FLASH_SIZE
    ensures |r.cells| == FLASH_SIZE
  {
    match e
    case Preset(hot, cold, litres) => s.(ram := s.ram.(hot := hot, cold := cold, litersPerPulse := litres))
    case Save => Written(s)
    case EraseArea(sectors) => s.(cells := Wiped(s.cells, RegionStart(s.bootHigh), 4096 * sectors))
    case OtaStart => Written(s.(ram := s.ram.(newOta := 1)))
    case Download(cells) => if s.ram.newOta != 0 && |cells| == FLASH_SIZE then s.(cells := cells) else s
    case OtaFail => if s.ram.newOta != 0 then Initialised(s) else s
    case OtaSuccess => if s.ram.newOta != 0 then Initialised(PowerCycled(s.(bootHigh := !s.bootHigh))) else s
    case Reboot => Initialised(PowerCycled(s))
  }

  /** The persistent cell as last stored, its working copy in RAM, the position in the log, and whether the stored
      value has lost its place in flash. */
  datatype Model = Model(stored: Cell, working: Cell, updating: bool, slot: nat, lost: bool)

  const DEFAULT_MODEL := Model(DEFAULT_CELL, DEFAULT_CELL, false, 0, false)

  /** What the store makes of the model; in every sector of both regions are the device's own pages, or none. */
  ghost predicate Represents(s: Store, m: Model)
  {
    m.working == CellOf(s.ram) && (m.updating <==> s.ram.newOta != 0) && Tidy(s.cells)
    && if m.updating then !m.lost && m.slot == 0 && Updating(s) && m.stored == Durable(s)
       else m.slot == SlotOf(s) && Current(s) && if m.lost then CutOff(s) else Shaped(s) && m.stored == Durable(s)
  }

  /** A write outside an update goes to the next page; the one that comes round to page 0 closes a gap. */
  function Saved(m: Model): Model
  {
    if m.updating then m.(stored := m.working)
    else
      var w := m.working.(top := NextTop(m.working.top));
      Model(w, w, false, NextSlot(m.slot), m.lost && NextSlot(m.slot) != 0)
  }

  function Restored(m: Model): Model
  {
    Model(m.stored, m.stored, false, 0, false)
  }

  /** One event, when a reset does not meet an old page. */
  function ModelStep(m: Model, e: Event): Model
  {
    match e
    case Preset(hot, cold, litres) => m.(working := m.working.(hot := hot, cold := cold, litersPerPulse := litres))
    case Save => Saved(m)
    case EraseArea(sectors) => if m.updating || sectors == 0 then m else m.(lost := true)
    case OtaStart => Model(m.working, m.working, true, 0, false)
    case Download(_) => m
    case OtaFail => if m.updating then Restored(m) else m
    case OtaSuccess => if m.updating then Restored(m) else m
    case Reboot =>
      if m.updating then Restored(m)
      else if m.lost || m.slot == SLOTS - 1 then DEFAULT_MODEL
      else m.(working := m.stored)
  }

  /** What a reset finds that does: the last of the old pages that continue the log. */
  function Resurrected(s: Store): Model
    requires Region(s.cells, s.start) && SlotOf(s) < SLOTS
  {
    match Scan(s.cells, s.start, SlotOf(s))
    case None => DEFAULT_MODEL
    case Some(k) => var c := CellOf(Rec(s.cells, s.start, k)); Model(c, c, false, k, false)
  }

  function ModelNext(s: Store, m: Model, e: Event): Model
  {
    if e.Reboot? && Misled(s) then Resurrected(s) else ModelStep(m, e)
  }

  /** Downloaded bytes are not records of the log. */
  predicate CleanStep(s: Store, e: Event)
    requires |s.cells| == FLASH_SIZE
  {
    e.Download? && s.ram.newOta != 0 ==> CleanDownload(s.cells, e.cells)
  }

  /** The step ends an update, so the log restarts in a region that may hold old pages. */
  predicate Restarts(s: Store, e: Event)
  {
    s.ram.newOta != 0 && (e.OtaFail? || e.OtaSuccess? || e.Reboot?)
  }

  lemma BootTidy(s: Store)
    requires |s.cells| == FLASH_SIZE && s.nv.Some? && Valid(s.nv.value) && Decode(s.nv.value).newOta != 0 && Tidy(s.cells)
    ensures Tidy(Initialised(s).cells) && Current(Initialised(s))
  {
    hide Decode, Valid, RestoreWritten, Tidy, Current;
    ValidIdentifier(s.nv.value);
    var t := s.(start := RegionStart(s.bootHigh));
    var c := Decode(s.nv.value).(newOta := 0, addrStart := t.start, addrEnd := t.start + USER_DATA_SIZE);
    RestartTidy(t.(ram := c, defaultConfig := true));
  }

  lemma UpdateEnds(s: Store, e: Event)
    requires Updating(s) && Restarts(s, e) && Tidy(s.cells)
    ensures var r := Step(s, e);
      Shaped(r) && Durable(r) == CellOf(r.ram) == Durable(s) && SlotOf(r) == 0 && r.ram.newOta == 0
      && Tidy(r.cells) && Current(r)
  {
    hide Initialised, Decode, Valid, Log, RestErased, Tidy, Current, Shaped;
    var t := match e
      case OtaFail => s
      case OtaSuccess => PowerCycled(s.(bootHigh := !s.bootHigh))
      case _ => PowerCycled(s);
    BootDuringUpdate(t);
    BootTidy(t);
    assert Step(s, e) == Initialised(t);
  }

  lemma SaveRefines(s: Store, m: Model)
    requires Represents(s, m)
    ensures Represents(Written(s), Saved(m))
  {
    hide Written, Decode, Valid, Log, RestErased, Rec, NextTop, Tidy, Current;
    if m.updating {
      NvWriteStep(s);
      NvKeepsCells(s);
    } else {
      SaveTidy(s);
      if m.lost {
        CutOffSave(s);
      } else {
        AppendStep(s);
      }
    }
  }

  lemma NvKeepsCells(s: Store)
    requires Updating(s)
    ensures Written(s).cells == s.cells
  {
  }

  lemma RebootRefines(s: Store, m: Model)
    requires Represents(s, m)
    ensures |s.cells| == FLASH_SIZE
    ensures Represents(Step(s, Reboot), ModelNext(s, m, Reboot))
  {
    hide Initialised, Decode, Valid, Log, RestErased, Rec, Tidy, Current, Scan, Continues;
    if m.updating {
      UpdateEnds(s, Reboot);
    } else if m.lost {
      CutOffBoot(s);
      CutOffTidy(s);
    } else {
      CutOffIsNotShaped(s);
      ScanBoot(s);
      ScanAtEnd(s);
    }
  }

  lemma ScanAtEnd(s: Store)
    requires Region(s.cells, s.start)
    ensures SlotOf(s) == SLOTS - 1 ==> Scan(s.cells, s.start, SlotOf(s)) == None
  {
  }

  lemma CutOffTidy(s: Store)
    requires CutOff(s) && Tidy(s.cells)
    ensures var r := Initialised(PowerCycled(s)); Tidy(r.cells) && Current(r)
  {
    hide Decode, Valid, Page, RestErased, Scan, Defaulted, Tidy, Current;
    DefaultTidy(PowerCycled(s).(start := s.start));
  }

  lemma EraseRefines(s: Store, m: Model, sectors: nat)
    requires Represents(s, m)
    ensures |s.cells| == FLASH_SIZE
    ensures Represents(Step(s, EraseArea(sectors)), ModelStep(m, EraseArea(sectors)))
  {
    hide Decode, Valid, Log, RestErased, Rec, Wiped, Tidy, Current, CutOff;
    RepresentsMeans(s, m);
    WipeTidy(s.cells, RegionStart(s.bootHigh), sectors);
    if sectors == 0 {
      NothingWiped(s.cells, RegionStart(s.bootHigh));
    } else if !m.updating {
      CutOffSteady(s);
      EraseCutsOff(s, sectors);
      EraseCurrent(s, sectors);
    }
  }

  /** One event of the firmware is one step of the cell. */
  lemma StepRefines(s: Store, m: Model, e: Event)
    requires |s.cells| == FLASH_SIZE && Represents(s, m) && CleanStep(s, e)
    ensures Represents(Step(s, e), ModelNext(s, m, e))
  {
    hide Initialised, Written, Decode, Valid, Log, RestErased, Rec, CutOff, Tidy, Current, Misled, CleanDownload;
    match e {
      case Preset(_, _, _) =>
        PresetRefines(s, m, e);
      case Save =>
        SaveRefines(s, m);
      case EraseArea(sectors) =>
        EraseRefines(s, m, sectors);
      case OtaStart =>
        StartRefines(s, m);
      case Download(cells) =>
        if s.ram.newOta != 0 && |cells| == FLASH_SIZE {
          DownloadTidy(s.cells, cells);
        }
      case Reboot =>
        RebootRefines(s, m);
      case _ =>
        if m.updating {
          UpdateEnds(s, e);
        }
    }
  }

  lemma StartRefines(s: Store, m: Model)
    requires Represents(s, m)
    ensures |s.cells| == FLASH_SIZE && Represents(Step(s, OtaStart), ModelStep(m, OtaStart))
  {
    hide Written, Decode, Valid, Log, RestErased, Rec, CutOff, Tidy, Current;
    CutOffSteady(s);
    var t := s.(ram := s.ram.(newOta := 1));
    NvWriteStep(t);
    StartKeepsCells(s);
  }

  lemma StartKeepsCells(s: Store)
    requires Steady(s)
    ensures Written(s.(ram := s.ram.(newOta := 1))).cells == s.cells
  {
  }

  lemma PresetRefines(s: Store, m: Model, e: Event)
    requires Represents(s, m) && e.Preset?
    ensures |s.cells| == FLASH_SIZE && Represents(Step(s, e), ModelStep(m, e))
  {
    hide Decode, Valid, Log, RestErased, Rec, Tidy, TidyTo, GoodPage;
  }

  lemma CutOffSteady(s: Store)
    ensures CutOff(s) ==> Steady(s)
  {
    hide Decode, Valid, RestErased, Rec;
  }

  // ----- runs -----

  function Run(s: Store, es: seq<Event>): (r: Store)
    requires |s.cells| == FLASH_SIZE
    ensures |r.cells| == FLASH_SIZE
    decreases |es|
  {
    if es == [] then s else Step(Run(s, es[..|es| - 1]), es[|es| - 1])
  }

  function ModelRun(s: Store, m: Model, es: seq<Event>): Model
    requires |s.cells| == FLASH_SIZE
    decreases |es|
  {
    if es == [] then m
    else ModelNext(Run(s, es[..|es| - 1]), ModelRun(s, m, es[..|es| - 1]), es[|es| - 1])
  }

  /** The one assumption about a run is on its input: no downloaded sector opens with a valid record. */
  predicate CleanRun(s: Store, es: seq<Event>)
    requires |s.cells| == FLASH_SIZE
  {
    forall i :: 0 <= i < |es| ==> CleanStep(Run(s, es[..i]), es[i])
  }

  lemma CleanPrefix(s: Store, es: seq<Event>)
    requires |s.cells| == FLASH_SIZE && CleanRun(s, es) && es != []
    ensures var n := |es| - 1; CleanRun(s, es[..n]) && CleanStep(Run(s, es[..n]), es[n])
  {
    hide CleanStep, Run;
    var init := es[..|es| - 1];
    forall i | 0 <= i < |init|
      ensures CleanStep(Run(s, init[..i]), init[i])
    {
      assert init[..i] == es[..i];
    }
  }

  /** Every run of the firmware is a run of the cell. */
  lemma {:induction false} RunRefines(s: Store, m: Model, es: seq<Event>)
    requires |s.cells| == FLASH_SIZE && Represents(s, m) && CleanRun(s, es)
    ensures Represents(Run(s, es), ModelRun(s, m, es))
    decreases |es|
  {
    hide Represents, Step, ModelNext, CleanStep, CleanRun;
    if es != [] {
      var n := |es| - 1;
      CleanPrefix(s, es);
      RunRefines(s, m, es[..n]);
      StepRefines(Run(s, es[..n]), ModelRun(s, m, es[..n]), es[n]);
    }
  }

  lemma RepresentsMeans(s: Store, m: Model)
    requires Represents(s, m)
    ensures |s.cells| == FLASH_SIZE && m.working == CellOf(s.ram) && (m.updating <==> s.ram.newOta != 0)
    ensures !m.updating ==> Current(s) && m.slot == SlotOf(s) < SLOTS && (m.lost <==> CutOff(s))
    ensures !m.updating && !m.lost ==> Shaped(s) && m.stored == CellOf(Rec(s.cells, s.start, SlotOf(s)))
    ensures m.updating ==> m.slot == 0 && !m.lost
  {
    hide Decode, Valid, Log, RestErased, Rec, TidyTo, GoodPage;
    CutOffIsNotShaped(s);
  }

  // ----- exactly when a reset brings the stored value back -----

  /** An erase of the region outside an update. */
  predicate Uproots(m: Model, e: Event)
  {
    e.EraseArea? && e.sectors > 0 && !m.updating
  }

  /** What puts the stored value back in its place: NV takes it over, or the log restarts at its first page. */
  predicate Roots(m: Model, e: Event)
  {
    e.OtaStart? || e.Reboot? || (e.Save? && m.slot == SLOTS - 1)
  }

  /** The region was erased and nothing has rooted the value since. */
  predicate Uprooted(s: Store, m: Model, es: seq<Event>)
    requires |s.cells| == FLASH_SIZE
  {
    exists i :: 0 <= i < |es| && Uproots(ModelRun(s, m, es[..i]), es[i])
                && forall j :: i < j < |es| ==> !Roots(ModelRun(s, m, es[..j]), es[j])
  }

  /** The stored value is out of place exactly in the runs that say so. */
  lemma {:induction false} LostIffUprooted(s: Store, m: Model, es: seq<Event>)
    requires |s.cells| == FLASH_SIZE && !m.lost && m.slot < SLOTS
    ensures var t := ModelRun(s, m, es); (t.lost <==> Uprooted(s, m, es)) && t.slot < SLOTS && (t.updating ==> !t.lost)
    decreases |es|
  {
    hide Uproots, Roots, ModelNext, Uprooted, Run;
    if es == [] {
      NeverUprooted(s, m);
    } else {
      var init, e := es[..|es| - 1], es[|es| - 1];
      LostIffUprooted(s, m, init);
      LostOneMore(Run(s, init), ModelRun(s, m, init), e);
      UprootedOneMore(s, m, es, init);
    }
  }

  lemma NeverUprooted(s: Store, m: Model)
    requires |s.cells| == FLASH_SIZE
    ensures !Uprooted(s, m, [])
  {
  }

  lemma LostOneMore(s: Store, m: Model, e: Event)
    requires m.slot < SLOTS && (m.updating ==> !m.lost)
    ensures var n := ModelNext(s, m, e);
      (n.lost <==> Uproots(m, e) || (m.lost && !Roots(m, e))) && n.slot < SLOTS && (n.updating ==> !n.lost)
  {
    hide Decode, Continues, CutOff, Rec;
  }

  lemma UprootedOneMore(s: Store, m: Model, es: seq<Event>, init: seq<Event>)
    requires |s.cells| == FLASH_SIZE && es != [] && init == es[..|es| - 1]
    ensures var before, e := ModelRun(s, m, init), es[|es| - 1];
      Uprooted(s, m, es) <==> Uproots(before, e) || (Uprooted(s, m, init) && !Roots(before, e))
  {
    hide Uproots, Roots, ModelRun;
    var n := |init|;
    if Uproots(ModelRun(s, m, init), es[n]) {
      assert es[..n] == init;
    } else if !Roots(ModelRun(s, m, init), es[n]) && Uprooted(s, m, init) {
      var i :| 0 <= i < n && Uproots(ModelRun(s, m, init[..i]), init[i])
               && forall j :: i < j < n ==> !Roots(ModelRun(s, m, init[..j]), init[j]);
      StaysUprooted(s, m, es, init, i);
    } else if Uprooted(s, m, es) {
      var i :| 0 <= i <= n && Uproots(ModelRun(s, m, es[..i]), es[i])
               && forall j :: i < j <= n ==> !Roots(ModelRun(s, m, es[..j]), es[j]);
      WasUprooted(s, m, es, i);
    }
  }

  lemma StaysUprooted(s: Store, m: Model, es: seq<Event>, init: seq<Event>, i: nat)
    requires |s.cells| == FLASH_SIZE && es != [] && init == es[..|es| - 1]
    requires i < |init| && Uproots(ModelRun(s, m, init[..i]), init[i])
    requires forall j :: i < j < |init| ==> !Roots(ModelRun(s, m, init[..j]), init[j])
    requires !Roots(ModelRun(s, m, init), es[|es| - 1])
    ensures Uprooted(s, m, es)
  {
    hide Uproots, Roots, ModelRun;
    assert init[..i] == es[..i];
    forall j | i < j < |es|
      ensures !Roots(ModelRun(s, m, es[..j]), es[j])
    {
      if j < |init| {
        assert init[..j] == es[..j];
      }
    }
  }

  lemma WasUprooted(s: Store, m: Model, es: seq<Event>, i: nat)
    requires |s.cells| == FLASH_SIZE && es != [] && i < |es| && Uproots(ModelRun(s, m, es[..i]), es[i])
    requires forall j :: i < j < |es| ==> !Roots(ModelRun(s, m, es[..j]), es[j])
    ensures i < |es| - 1 ==>
              Uprooted(s, m, es[..|es| - 1]) && !Roots(ModelRun(s, m, es[..|es| - 1]), es[|es| - 1])
    ensures i == |es| - 1 ==> Uproots(ModelRun(s, m, es[..|es| - 1]), es[|es| - 1])
  {
    hide Uproots, Roots, ModelRun;
    var n := |es| - 1;
    var init := es[..n];
    if i < n {
      assert init[..i] == es[..i] && init[i] == es[i];
      forall j | i < j < n
        ensures !Roots(ModelRun(s, m, init[..j]), init[j])
      {
        assert init[..j] == es[..j];
      }
    }
  }

  /** A misled reset comes up behind the newest record, with another record counter, or with the default. */
  lemma MisledMoves(s: Store, m: Model)
    requires Represents(s, m) && Misled(s)
    ensures !m.updating && !m.lost && m.slot < SLOTS - 1
    ensures match Scan(s.cells, s.start, m.slot)
      case None => Resurrected(s) == DEFAULT_MODEL
      case Some(k) => k > m.slot && Resurrected(s).stored == CellOf(Rec(s.cells, s.start, k)) != m.stored
                      && Resurrected(s).stored.top == TopAfter(m.stored.top, k - m.slot)
  {
    hide Represents, Decode, Valid, Page, RestErased, Tidy, Current, Initialised;
    RepresentsMeans(s, m);
    RepresentsTidy(s, m);
    ScanBoot(s);
    NotAfterItself(m.stored.top);
    hide Continues, CutOff;
  }

  lemma RepresentsTidy(s: Store, m: Model)
    requires Represents(s, m)
    ensures Tidy(s.cells)
  {
    hide Tidy;
  }

  lemma NotAfterItself(top: u32)
    ensures forall d :: 0 < d < SLOTS ==> TopAfter(top, d) != top
  {
  }

  /** A reset that loses the stored value for the default: the region was erased under it, its page is the last one,
      or old pages continue the log to the end of the region. */
  predicate Defaults(s: Store, m: Model, es: seq<Event>)
    requires |s.cells| == FLASH_SIZE
  {
    var t, u := ModelRun(s, m, es), Run(s, es);
    !t.updating && (Uprooted(s, m, es) || t.slot == SLOTS - 1
                    || (Misled(u) && Scan(u.cells, u.start, SlotOf(u)) == None))
  }

  /** After every run, a reset brings back the value last stored if and only if an update holds it in NV, or the region
      has not been erased without the value being rooted again, its page is not the last one and no old page
      continues the log behind it. All other resets bring the default, or the last of those old pages. */
  lemma ResetRestoresIff(s: Store, m: Model, es: seq<Event>)
    requires |s.cells| == FLASH_SIZE && Represents(s, m) && CleanRun(s, es) && !m.lost
    ensures var t, u, r := ModelRun(s, m, es), Run(s, es), CellOf(Run(s, es + [Reboot]).ram);
      (r == t.stored <==>
         t.updating || (!Uprooted(s, m, es) && t.slot != SLOTS - 1 && !Misled(u))
         || (Defaults(s, m, es) && t.stored == DEFAULT_CELL))
      && (Defaults(s, m, es) ==> r == DEFAULT_CELL)
      && (r == t.stored || r == DEFAULT_CELL || (Misled(u) && r == Resurrected(u).stored))
  {
    hide Represents, CleanRun, Uprooted, Run, ModelRun, Step, Misled, Scan, Resurrected, SlotOf, CutOff;
    RepresentsMeans(s, m);
    RunRefines(s, m, es);
    RunOneMore(s, es, Reboot);
    LostIffUprooted(s, m, es);
    ResetFinds(Run(s, es), ModelRun(s, m, es));
  }

  lemma ResetFinds(u: Store, t: Model)
    requires |u.cells| == FLASH_SIZE && Represents(u, t)
    ensures var c := CellOf(Step(u, Reboot).ram);
      (t.updating ==> c == t.stored)
      && (!t.updating && (t.lost || t.slot == SLOTS - 1) ==> c == DEFAULT_CELL)
      && (!t.updating && !t.lost && t.slot != SLOTS - 1 && !Misled(u) ==> c == t.stored)
    ensures Misled(u) ==>
              var c := CellOf(Step(u, Reboot).ram);
              Region(u.cells, u.start) && t.slot == SlotOf(u) < SLOTS && !t.updating && !t.lost && t.slot != SLOTS - 1
              && c == Resurrected(u).stored
              && (Scan(u.cells, u.start, SlotOf(u)).None? ==> c == DEFAULT_CELL)
              && (Scan(u.cells, u.start, SlotOf(u)).Some? ==> c != t.stored)
  {
    hide Represents, Step, Scan, SlotOf, CutOff, Decode, Continues, TopAfter;
    RepresentsMeans(u, t);
    StepRefines(u, t, Reboot);
    RepresentsMeans(Step(u, Reboot), ModelNext(u, t, Reboot));
    if Misled(u) {
      MisledMoves(u, t);
    }
  }

  lemma ModelOneMore(s: Store, m: Model, es: seq<Event>, e: Event)
    requires |s.cells| == FLASH_SIZE
    ensures ModelRun(s, m, es + [e]) == ModelNext(Run(s, es), ModelRun(s, m, es), e)
  {
    hide ModelNext, Run;
    assert (es + [e])[..|es|] == es;
  }

  lemma RunOneMore(s: Store, es: seq<Event>, e: Event)
    requires |s.cells| == FLASH_SIZE
    ensures Run(s, es + [e]) == Step(Run(s, es), e)
  {
    hide Step;
    assert (es + [e])[..|es|] == es;
  }

  lemma {:induction false} RunOn(s: Store, a: seq<Event>, b: seq<Event>)
    requires |s.cells| == FLASH_SIZE
    ensures Run(s, a + b) == Run(Run(s, a), b)
    decreases |b|
  {
    hide Step;
    if b == [] {
      assert a + b == a;
    } else {
      assert (a + b)[..|a + b| - 1] == a + b[..|b| - 1];
      RunOn(s, a, b[..|b| - 1]);
    }
  }

  lemma {:induction false} ModelOn(s: Store, m: Model, a: seq<Event>, b: seq<Event>)
    requires |s.cells| == FLASH_SIZE
    ensures ModelRun(s, m, a + b) == ModelRun(Run(s, a), ModelRun(s, m, a), b)
    decreases |b|
  {
    hide ModelNext, Step;
    if b == [] {
      assert a + b == a;
    } else {
      assert (a + b)[..|a + b| - 1] == a + b[..|b| - 1];
      ModelOn(s, m, a, b[..|b| - 1]);
      RunOn(s, a, b[..|b| - 1]);
    }
  }

  /** What a pulse makes write_config store comes back after a reset, unless it went to the last page: then the
      counters start again from nothing. Old pages behind it can only stand in for it at the end of a sector. */
  lemma SavedReadingReturns(s: Store, m: Model, hot: u32, cold: u32, litersPerPulse: byte)
    requires |s.cells| == FLASH_SIZE && Represents(s, m) && !m.updating && !m.lost
    ensures var t := Run(s, [Preset(hot, cold, litersPerPulse), Save]);
      CellOf(Run(s, [Preset(hot, cold, litersPerPulse), Save, Reboot]).ram)
        == (if m.slot == SLOTS - 2 then DEFAULT_CELL
            else if Misled(t) then Resurrected(t).stored
            else Cell(NextTop(m.working.top), hot, cold, litersPerPulse))
      && (Misled(t) ==> (m.slot + 2) % 16 == 0 && m.slot < SLOTS - 2)
  {
    hide Represents, Step, Run, Misled, ModelRun, Resurrected, NextTop, Shaped, CutOff, Current, Scan, Rec, SlotOf;
    var preset := Preset(hot, cold, litersPerPulse);
    ThreeEvents(s, preset, Save, Reboot);
    SaveOfPreset(s, m, preset);
    var t, m2 := Step(Step(s, preset), Save), Saved(ModelStep(m, preset));
    RepresentsMeans(t, m2);
    ResetFinds(t, m2);
    if Misled(t) {
      MisledAtSectorEnd(t);
    }
  }

  lemma SaveOfPreset(s: Store, m: Model, preset: Event)
    requires |s.cells| == FLASH_SIZE && Represents(s, m) && preset.Preset?
    ensures Represents(Step(Step(s, preset), Save), Saved(ModelStep(m, preset)))
  {
    hide Represents, Step, Saved;
    StepRefines(s, m, preset);
    StepRefines(Step(s, preset), ModelStep(m, preset), Save);
  }

  lemma ThreeEvents(s: Store, a: Event, b: Event, c: Event)
    requires |s.cells| == FLASH_SIZE
    ensures Run(s, [a, b]) == Step(Step(s, a), b) && Run(s, [a, b, c]) == Step(Step(Step(s, a), b), c)
  {
    hide Step, Run;
    NoEvents(s, DEFAULT_MODEL);
    RunOneMore(s, [], a);
    RunOneMore(s, [a], b);
    RunOneMore(s, [a, b], c);
    assert [] + [a] == [a] && [a] + [b] == [a, b] && [a, b] + [c] == [a, b, c];
  }

  /** A reset can only be misled where the next page opens a sector that the log has not entered on this lap. */
  lemma MisledAtSectorEnd(s: Store)
    requires Misled(s) && Shaped(s)
    ensures (SlotOf(s) + 1) % 16 == 0
  {
    hide Decode, Valid, Page, Rec;
    if (SlotOf(s) + 1) % 16 != 0 {
      ErasedNeighbour(s.cells, s.start, SlotOf(s));
    }
  }

  lemma NoEvents(s: Store, m: Model)
    requires |s.cells| == FLASH_SIZE
    ensures Run(s, []) == s && ModelRun(s, m, []) == m
  {
  }

  /** The first boot of a device, whatever its flash holds, ends in a whole log with nothing else in its region; it
      starts such a run if and only if every sector of the other region is in order too. */
  lemma FirstBoot(s: Store)
    requires |s.cells| == FLASH_SIZE && (s.nv == None || !Valid(s.nv.value))
    ensures var r := Initialised(s);
      Logging(r) && CellOf(r.ram) == DEFAULT_CELL && SlotOf(r) == 0 && TidyRegion(r.cells, r.start)
      && (Represents(r, DEFAULT_MODEL) <==> TidyRegion(s.cells, RegionStart(!s.bootHigh)))
  {
    hide Defaulted, Shaped, NoImpostor, TidyRegion, Current;
    var t := s.(start := RegionStart(s.bootHigh));
    DefaultStep(t);
    DefaultNotUpdating(t);
    DefaultedRegion(t);
  }

  lemma DefaultNotUpdating(t: Store)
    ensures Defaulted(t).ram.newOta == 0
  {
  }

  /** On a new device: 500 litres are counted and stored, a download erases one sector and is refused, a reset
      follows, and the meter reads nothing. */
  lemma RefusedUpdateLosesReading(s: Store)
    requires |s.cells| == FLASH_SIZE && s.nv == None
    ensures var es := [Preset(500, 0, LITERS_PER_PULSE), Save, EraseArea(1), OtaFail];
      var booted := Step(s, Reboot);
      Run(booted, es).ram.hot == 500 && Run(booted, es + [Reboot]).ram.hot == 0
  {
    hide Step, Run, Logging;
    var preset, es := Preset(500, 0, LITERS_PER_PULSE), [Preset(500, 0, LITERS_PER_PULSE), Save, EraseArea(1), OtaFail];
    var booted := Step(s, Reboot);
    ThreeEvents(booted, preset, Save, EraseArea(1));
    RunOneMore(booted, [preset, Save, EraseArea(1)], OtaFail);
    RunOneMore(booted, es, Reboot);
    assert [preset, Save, EraseArea(1)] + [OtaFail] == es;
    FreshBoot(s);
    ErasedThenReset(booted, preset);
  }

  lemma FreshBoot(s: Store)
    requires |s.cells| == FLASH_SIZE && s.nv == None
    ensures Logging(Step(s, Reboot))
  {
    hide Initialised, Logging, Valid, Represents, TidyRegion, SlotOf;
    FirstBoot(PowerCycled(s));
  }

  lemma ErasedThenReset(s: Store, preset: Event)
    requires Logging(s) && preset.Preset?
    ensures |s.cells| == FLASH_SIZE
    ensures var t := Step(Step(Step(Step(s, preset), Save), EraseArea(1)), OtaFail);
      t.ram.hot == preset.hot && CellOf(Step(t, Reboot).ram) == DEFAULT_CELL
  {
    hide Written, Initialised, Wiped, Log, NoImpostor, Decode, Valid, RestErased, Rec;
    var p := Step(s, preset);
    AppendStep(p);
    EraseCutsOff(Written(p), 1);
    CutOffBoot(Written(p).(cells := Wiped(Written(p).cells, Written(p).start, 4096)));
  }
}
