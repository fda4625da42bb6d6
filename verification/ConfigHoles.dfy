/** A save that was skipped, a reset, and a save that is carried out: what the next reset finds. */
module ConfigHoles {
  import opened Bytes
  import opened Flash
  import opened ConfigStore
  import opened ConfigLog
  import opened ConfigSteps
  import opened ConfigFaults
  import opened ConfigBattery

  /** The working copy names the same end of the region as the newest record; every boot ends so. */
  predicate Settled(s: Store)
  {
    Logging(s) && s.ram.addrEnd == Rec(s.cells, s.start, SlotOf(s)).addrEnd
  }

  lemma BootSettles(s: Store)
    requires Logging(s)
    ensures Settled(Initialised(PowerCycled(s)))
  {
    hide Decode, Valid, Page, RestErased, Scan, NoImpostor, RestoreWritten;
    BootOutsideUpdate(s);
    FirstPageKnown(s);
    if SlotOf(s) == SLOTS - 1 {
      ScanFindsNewest(s.cells, s.start, SlotOf(s));
      DefaultSettles(PowerCycled(s).(start := s.start));
    } else {
      NoSuccessor(s.cells, s.start, SlotOf(s));
      ScanFindsNewest(s.cells, s.start, SlotOf(s));
    }
  }

  lemma DefaultSettles(t: Store)
    requires Region(t.cells, t.start) && t.start == RegionStart(t.bootHigh)
    ensures var r := Defaulted(t);
      Region(r.cells, t.start) && r.start == t.start && r.ram.addrEnd == Rec(r.cells, t.start, 0).addrEnd
  {
    hide Encode, Decode, Valid, Page, Checksum, Programmed, Erased, Wiped, RestErased;
    RestartedLog(Wiped(t.cells, t.start, USER_DATA_SIZE), t.start, DefaultConfig(t.start));
    RecordRoundTrip(Seal(DefaultConfig(t.start)));
  }

  /** A save that is carried out keeps it so. */
  lemma SaveSettles(s: Store, r: Reading)
    requires Settled(s) && SlotOf(s) + 1 < SLOTS
    ensures var w := Written(Ready(s, r));
      Settled(w) && SlotOf(w) == SlotOf(s) + 1 && w.start == s.start
      && Durable(w) == CellOf(w.ram) == Cell(NextTop(s.ram.top), r.hot, r.cold, r.litersPerPulse)
  {
    hide Encode, Decode, Valid, Page, RestErased, Checksum, NextTop, NoImpostor, Written, Log, Appended;
    var t, next := Ready(s, r), SlotOf(s) + 1;
    ReadyLogging(s, r);
    LogWriteStep(t);
    LogWriteIsAppend(t);
    var c := t.ram.(addrStart := t.start + 256 * next, top := NextTop(t.ram.top));
    LogRest(s);
    AppendStores(t.cells, t.start, SlotOf(t), c);
    EndOfRegion(s.cells, s.start, SlotOf(s));
    RecordRoundTrip(Seal(c));
  }

  lemma LogRest(s: Store)
    requires Logging(s)
    ensures RestErased(s.cells, s.start, SlotOf(s))
  {
    hide RestErased, Chain, NoImpostor;
  }

  lemma EndOfRegion(cells: seq<byte>, start: nat, k: nat)
    requires Region(cells, start) && k < SLOTS
    ensures Rec(cells, start, k).addrEnd < 0x1_0000_0000
  {
    hide U32Of;
  }

  // ----- series of saves -----

  lemma {:induction false} TriesOn(s: Store, a: seq<Try>, b: seq<Try>)
    ensures Tries(s, a + b) == Tries(Tries(s, a), b)
    decreases |b|
  {
    hide Attempted;
    if b == [] {
      assert a + b == a;
    } else {
      assert (a + b)[..|a + b| - 1] == a + b[..|b| - 1];
      TriesOn(s, a, b[..|b| - 1]);
    }
  }

  lemma {:induction false} TriesPlace(s: Store, ts: seq<Try>)
    requires AtSlot(s) && SlotOf(s) + |ts| < SLOTS
    ensures var t := Tries(s, ts);
      AtSlot(t) && t.start == s.start && SlotOf(t) == SlotOf(s) + |ts| && t.nv == s.nv && t.bootHigh == s.bootHigh
    decreases |ts|
  {
    hide Decode, Valid, Attempted, SlotOf;
    if ts != [] {
      var init := ts[..|ts| - 1];
      TriesPlace(s, init);
      ReadyPlace(Tries(s, init), ts[|ts| - 1].r);
      AttemptPlace(Ready(Tries(s, init), ts[|ts| - 1].r), ts[|ts| - 1].battery);
    }
  }

  lemma ReadyPlace(s: Store, r: Reading)
    requires AtSlot(s)
    ensures AtSlot(Ready(s, r)) && SlotOf(Ready(s, r)) == SlotOf(s)
  {
    hide Decode, Valid;
  }

  lemma {:induction false} CarriedSettles(s: Store, ts: seq<Try>)
    requires Settled(s) && SlotOf(s) + |ts| < SLOTS && forall i :: 0 <= i < |ts| ==> ts[i].battery == Enough
    ensures var t := Tries(s, ts);
      Settled(t) && SlotOf(t) == SlotOf(s) + |ts| && t.start == s.start
      && (ts != [] ==> Durable(t) == CellOf(t.ram))
    decreases |ts|
  {
    hide Settled, Written, SlotOf, Durable, Shaped, Updating;
    if ts != [] {
      CarriedSettles(s, ts[..|ts| - 1]);
      SaveSettles(Tries(s, ts[..|ts| - 1]), ts[|ts| - 1].r);
    }
  }

  // ----- filling the hole -----

  /** The working copies agree but for the counter values and the checksum, which every save replaces. */
  predicate SameFrame(a: Config, b: Config)
  {
    a.(hot := 0, cold := 0, litersPerPulse := 0, crc := 0) == b.(hot := 0, cold := 0, litersPerPulse := 0, crc := 0)
  }

  lemma SealForgets(a: Config, b: Config)
    requires a.(crc := 0) == b.(crc := 0)
    ensures Seal(a) == Seal(b)
  {
    assert Encode(a)[..26] == Encode(b)[..26] by {
      hide U32Bytes, Word16Bytes;
    }
    hide Encode;
  }

  /** u is t with a record programmed at address a, behind which both stand. */
  predicate Filled(t: Store, u: Store, a: nat, data: seq<byte>)
  {
    |t.cells| == FLASH_SIZE && u == t.(cells := Programmed(t.cells, a, data), ram := u.ram) && SameFrame(t.ram, u.ram)
    && !t.defaultConfig && t.ram.newOta == 0
    && a % 256 == 0 && t.ram.addrStart % 256 == 0 && a <= t.ram.addrStart && |data| == RECORD_SIZE
  }

  /** Saves behind the hole are the same with the hole filled. */
  lemma FilledStays(t: Store, u: Store, a: nat, data: seq<byte>, try: Try)
    requires Filled(t, u, a, data) && t.ram.addrStart + 256 < t.start + USER_DATA_SIZE
    ensures var t', u' := Attempted(Ready(t, try.r), try.battery), Attempted(Ready(u, try.r), try.battery);
      Filled(t', u', a, data) && t'.ram == u'.ram && t'.ram.addrStart == t.ram.addrStart + 256 && t'.start == t.start
  {
    hide Encode, Checksum, Programmed, Erased, NextTop;
    var next := t.ram.addrStart + 256;
    var x, y := Ready(t, try.r).ram.(addrStart := next, top := NextTop(t.ram.top)),
                Ready(u, try.r).ram.(addrStart := next, top := NextTop(u.ram.top));
    SealForgets(x, y);
    ReadyCommutes(t.cells, a, data, next);
    ProgramCommutes(PageReady(t.cells, next), a, data, next, Encode(Seal(x)));
  }

  lemma ReadyCommutes(cells: seq<byte>, a: nat, data: seq<byte>, next: nat)
    requires a + 256 <= next && |data| == RECORD_SIZE
    ensures PageReady(Programmed(cells, a, data), next) == Programmed(PageReady(cells, next), a, data)
  {
  }

  lemma ProgramCommutes(cells: seq<byte>, a: nat, x: seq<byte>, b: nat, y: seq<byte>)
    requires a + |x| <= b
    ensures Programmed(Programmed(cells, a, x), b, y) == Programmed(Programmed(cells, b, y), a, x)
  {
  }

  lemma {:induction false} FilledAll(t: Store, u: Store, a: nat, data: seq<byte>, us: seq<Try>)
    requires Filled(t, u, a, data) && t.ram.addrStart + 256 * |us| < t.start + USER_DATA_SIZE
    ensures var t', u' := Tries(t, us), Tries(u, us);
      Filled(t', u', a, data) && (us != [] ==> t'.ram == u'.ram)
      && t'.ram.addrStart == t.ram.addrStart + 256 * |us| && t'.start == t.start
    decreases |us|
  {
    hide Attempted, Filled;
    if us != [] {
      var init := us[..|us| - 1];
      FilledAll(t, u, a, data, init);
      FilledStays(Tries(t, init), Tries(u, init), a, data, us[|us| - 1]);
    }
  }

  // ----- the reset behind the hole -----

  /** It finds what a reset before the skipped save would have found, over the cells as they are now. */
  lemma ResetBehind(s: Store, t: Store)
    requires Logging(s) && SlotOf(s) < SLOTS - 1 && t.nv == s.nv && t.bootHigh == s.bootHigh
    requires Hidden(t, s.start, SlotOf(s), Page(s.cells, s.start, SlotOf(s)))
    ensures Initialised(PowerCycled(t)) == Initialised(PowerCycled(s)).(cells := t.cells)
  {
    hide Decode, Valid, Page, RestErased, Scan, NoImpostor, Chain, Continues, Defaulted, RestoreWritten;
    NoSuccessor(s.cells, s.start, SlotOf(s));
    ScanFindsNewest(s.cells, s.start, SlotOf(s));
    ScanFindsNewest(t.cells, t.start, SlotOf(s));
    ChainStart(s.cells, s.start, SlotOf(s));
    ChainStart(t.cells, t.start, SlotOf(s));
  }

  /** The working copy after a reset is that before it, but for the counter values. */
  lemma ResetFrame(s: Store)
    requires Settled(s) && SlotOf(s) < SLOTS - 1
    ensures var r := Initialised(PowerCycled(s));
      Settled(r) && r.cells == s.cells && r.start == s.start && r.nv == s.nv && r.bootHigh == s.bootHigh
      && SlotOf(r) == SlotOf(s) && SameFrame(s.ram, r.ram)
  {
    hide Decode, Valid, Page, RestErased, Scan, NoImpostor, Defaulted, RestoreWritten;
    BootSettles(s);
    BootOutsideUpdate(s);
    NoSuccessor(s.cells, s.start, SlotOf(s));
    ScanFindsNewest(s.cells, s.start, SlotOf(s));
    FirstPageKnown(s);
    assert GoodPage(s.cells, s.start, SlotOf(s));
    ValidIdentifier(Page(s.cells, s.start, SlotOf(s)));
  }

  /** A save does the same whatever the cells are. */
  lemma WrittenOn(s: Store, cells: seq<byte>)
    requires AtSlot(s) && |cells| == FLASH_SIZE
    ensures var a := NextAddr(s);
      Written(s.(cells := cells))
        == Written(s).(cells := Programmed(PageReady(cells, a), a, Encode(Written(s).ram)))
  {
    hide Encode, Checksum, Programmed, PageReady, Decode, Valid, NextTop;
  }

  /** A hole within a sector is filled by the save after the reset. */
  lemma HoleFilled(s: Store, r: Reading, battery: Battery, us: seq<Try>, v: Reading)
    requires Settled(s) && SlotOf(s) + 1 + |us| < SLOTS && battery != Enough && (SlotOf(s) + 1) % 16 != 0
    ensures var first, filled := Attempted(Ready(s, r), battery), Written(Ready(Initialised(PowerCycled(s)), v));
      var t := Tries(first, us);
      PowerCycled(Written(Ready(Initialised(PowerCycled(s)).(cells := t.cells), v))) == PowerCycled(Tries(filled, us))
      && (us != [] ==> t.ram == Tries(filled, us).ram)
  {
    hide Encode, Decode, Valid, Programmed, PageReady, Shaped, NoImpostor, NextAddr, Initialised, Rec, Written, Attempted;
    hide SameFrame, SlotOf;
    SettledPlace(s);
    ResetFrame(s);
    var b := Initialised(PowerCycled(s));
    SettledPlace(b);
    ReadyPlace(s, r);
    ReadyPlace(b, v);
    AttemptPlace(Ready(s, r), battery);
    var first, filled := Attempted(Ready(s, r), battery), Written(Ready(b, v));
    var a := s.start + 256 * (SlotOf(s) + 1);
    FilledFirst(s, b, r, battery, v);
    FilledAll(first, filled, a, Encode(filled.ram), us);
    TriesPlace(first, us);
    WrittenOn(Ready(b, v), Tries(first, us).cells);
  }

  lemma SettledPlace(s: Store)
    requires Settled(s)
    ensures AtSlot(s) && Logging(s) && |s.cells| == FLASH_SIZE && SlotOf(s) < SLOTS
    ensures Rec(s.cells, s.start, SlotOf(s)).top == s.ram.top
  {
    hide Log, Rec, NoImpostor, Decode, Valid;
  }

  lemma FilledFirst(s: Store, b: Store, r: Reading, battery: Battery, v: Reading)
    requires AtSlot(s) && AtSlot(b) && SlotOf(s) + 1 < SLOTS && battery != Enough && (SlotOf(s) + 1) % 16 != 0
    requires b == s.(ram := b.ram) && SameFrame(s.ram, b.ram)
    ensures var first, filled := Attempted(Ready(s, r), battery), Written(Ready(b, v));
      Filled(first, filled, s.start + 256 * (SlotOf(s) + 1), Encode(filled.ram))
      && first.ram.addrStart == s.start + 256 * (SlotOf(s) + 1) && first.start == s.start
      && NextAddr(Ready(b, v)) == s.start + 256 * (SlotOf(s) + 1)
      && forall cells :: PageReady(cells, NextAddr(Ready(b, v))) == cells
  {
    hide Encode, Decode, Valid, Checksum, Programmed, Erased, NextTop, SlotOf;
    var a := s.start + 256 * (SlotOf(s) + 1);
    assert a % 4096 == 256 * ((SlotOf(s) + 1) % 16);
  }

  /** A hole that opens a sector is erased with its sector, and the record that comes there ends the log. */
  lemma HoleErased(r: Store, v: Reading)
    requires AtSlot(r) && SlotOf(r) + 1 < SLOTS && (SlotOf(r) + 1) % 16 == 0
    requires Chain(r.cells, r.start, SlotOf(r)) && Rec(r.cells, r.start, SlotOf(r)).top == r.ram.top
    ensures var again := Initialised(PowerCycled(Written(Ready(r, v))));
      SlotOf(again) == SlotOf(r) + 1
      && CellOf(again.ram) == Cell(NextTop(r.ram.top), v.hot, v.cold, v.litersPerPulse)
  {
    hide Encode, Decode, Valid, Checksum, Page, Programmed, PageReady, RestErased, NextTop, Scan, Continues, Chain;
    hide Written;
    var t, h := Ready(r, v), SlotOf(r);
    ReadyPlace(r, v);
    var c := t.ram.(addrStart := t.start + 256 * (h + 1), top := NextTop(t.ram.top));
    LogWriteIsAppend(t);
    var w := Written(t);
    ErasedAppend(r.cells, r.start, h, c);
    SealedRecord(c);
    assert GoodPage(w.cells, w.start, h + 1) && Rec(w.cells, w.start, h + 1).top == c.top;
    ErasedEnds(w.cells, w.start, h + 1);
    ScanFindsNewest(w.cells, w.start, h + 1);
    ChainStart(w.cells, w.start, h + 1);
    AddressSlot(w.start, h + 1);
  }

  lemma ErasedAppend(cells: seq<byte>, start: nat, h: nat, c: Config)
    requires Chain(cells, start, h) && h + 1 < SLOTS && (h + 1) % 16 == 0
    requires c.id == ID_CONFIG && c.top == NextTop(Rec(cells, start, h).top)
    ensures var after := Appended(cells, start, h, c);
      Log(after, start, h + 1) && Page(after, start, h + 1) == Encode(Seal(c))
  {
    hide Encode, Decode, Valid, Page, Programmed, Erased, RestErased, NextTop, TopAfter;
    var a := start + 256 * (h + 1);
    assert a % 4096 == 256 * ((h + 1) % 16);
    SectorErased(cells, start, h + 1);
    RecordStored(Erased(cells, a), start, h + 1, Encode(Seal(c)));
    SealedRecord(c);
    var after := Appended(cells, start, h, c);
    forall j | 0 <= j <= h
      ensures Page(after, start, j) == Page(cells, start, j)
    {
      assert j / 16 != (h + 1) / 16;
    }
    SameChain(cells, after, start, h);
    OneMoreInChain(after, start, h);
  }

  lemma OneMoreInChain(cells: seq<byte>, start: nat, h: nat)
    requires Chain(cells, start, h) && h + 1 < SLOTS
    requires GoodPage(cells, start, h + 1) && Rec(cells, start, h + 1).top == NextTop(Rec(cells, start, h).top)
    ensures Chain(cells, start, h + 1)
  {
    hide Decode, Valid, Page, TopAfter, NextTop;
    TopAfterNone(Rec(cells, start, h + 1).top);
    forall j | 0 <= j <= h
      ensures Rec(cells, start, h + 1).top == TopAfter(Rec(cells, start, j).top, h + 1 - j)
    {
      TopAfterOneMore(Rec(cells, start, j).top, h - j);
      assert Rec(cells, start, h).top == TopAfter(Rec(cells, start, j).top, h - j);
    }
  }

  /** A reset finds page h; after one save the next reset finds that save, or m pages behind it the last one. */
  predicate SavedThenReset(t: Store, v: Reading, h: nat, m: nat, last: Store)
  {
    |t.cells| == FLASH_SIZE
    && var r := Initialised(PowerCycled(t));
    var again := Initialised(PowerCycled(Written(Ready(r, v))));
    SlotOf(r) == h
    && (h + 1 + m < SLOTS - 1 ==>
          SlotOf(again) == h + 1 + m
          && CellOf(again.ram) == if m == 0 then Cell(NextTop(r.ram.top), v.hot, v.cold, v.litersPerPulse)
                                  else CellOf(last.ram))
    && (h + 1 + m == SLOTS - 1 ==> CellOf(again.ram) == DEFAULT_CELL)
  }

  /** Saves carried out right behind the first one that was not, if that one left its hole within a sector. */
  function Behind(h: nat, ts: seq<Try>): (m: nat)
    requires Carried(ts) < |ts|
    ensures Carried(ts) + 1 + m <= |ts|
  {
    if (h + 1) % 16 == 0 then 0 else Carried(ts[Carried(ts) + 1..])
  }

  /** After the first skipped save of a lap, any further ones, a reset, and one save that is carried out, the next
      reset finds that save exactly if the skipped page opens a sector or the save behind it was skipped too. Otherwise
      it goes on through the saves that were carried out behind the hole, to the one before the next skipped; and to
      the default if they run to the last page. */
  lemma SecondReset(s: Store, ts: seq<Try>, v: Reading)
    requires Settled(s) && SlotOf(s) + |ts| < SLOTS && Carried(ts) < |ts|
    ensures var n, m := Carried(ts), Behind(SlotOf(s) + Carried(ts), ts);
      SavedThenReset(Tries(s, ts), v, SlotOf(s) + n, m, Tries(s, ts[..n + 1 + m]))
  {
    hide SavedThenReset, Attempted, Settled, Decode, Valid, SlotOf, Durable, Initialised, Written, Tries, Behind, Carried;
    var n, m := Carried(ts), Behind(SlotOf(s) + Carried(ts), ts);
    SecondResetAt(s, ts, v, n, m);
  }

  lemma SecondResetAt(s: Store, ts: seq<Try>, v: Reading, n: nat, m: nat)
    requires Settled(s) && SlotOf(s) + |ts| < SLOTS && n == Carried(ts) < |ts| && m == Behind(SlotOf(s) + n, ts)
    ensures SavedThenReset(Tries(s, ts), v, SlotOf(s) + n, m, Tries(s, ts[..n + 1 + m]))
  {
    hide SavedThenReset, Attempted, Settled, Decode, Valid, SlotOf, Durable, Initialised, Written, Tries, Carried;
    var whole, us := Tries(s, ts[..n]), ts[n + 1..];
    CarriedSettles(s, ts[..n]);
    TriesFromMiss(s, ts, n, m);
    HoleThenReset(whole, ts[n], us, v);
  }

  lemma TriesFromMiss(s: Store, ts: seq<Try>, n: nat, m: nat)
    requires n < |ts| && m <= |ts| - n - 1
    ensures Tries(s, ts[..n + 1 + m]) == Tries(Tries(s, ts[..n]), [ts[n]] + ts[n + 1..][..m])
    ensures Tries(s, ts) == Tries(Tries(s, ts[..n]), [ts[n]] + ts[n + 1..])
  {
    hide Tries;
    assert ts == ts[..n] + ([ts[n]] + ts[n + 1..]);
    TriesOn(s, ts[..n], [ts[n]] + ts[n + 1..]);
    assert ts[..n + 1 + m] == ts[..n] + ([ts[n]] + ts[n + 1..][..m]);
    TriesOn(s, ts[..n], [ts[n]] + ts[n + 1..][..m]);
  }

  /** What the first reset finds: all but the cells is as if the saves had not been tried. */
  lemma HoleSeen(s: Store, miss: Try, us: seq<Try>)
    requires Settled(s) && SlotOf(s) + 1 + |us| < SLOTS && miss.battery != Enough
    ensures |s.cells| == FLASH_SIZE
    ensures var t, b := Tries(s, [miss] + us), Initialised(PowerCycled(s));
      t == Tries(Attempted(Ready(s, miss.r), miss.battery), us)
      && Initialised(PowerCycled(t)) == b.(cells := t.cells) && Region(t.cells, s.start)
      && Chain(t.cells, s.start, SlotOf(s)) && Page(t.cells, s.start, SlotOf(s)) == Page(s.cells, s.start, SlotOf(s))
  {
    hide Attempted, Logging, Settled, Initialised, Decode, Valid, Page, Chain, Continues, Carried, SlotOf, Tries;
    SettledPlace(s);
    OneThenMore(s, miss, us);
    MissHides(s, miss, us);
    TriesPlace(s, [miss] + us);
    ResetBehind(s, Tries(s, [miss] + us));
  }

  lemma OneThenMore(s: Store, miss: Try, us: seq<Try>)
    ensures Tries(s, [miss] + us) == Tries(Attempted(Ready(s, miss.r), miss.battery), us)
  {
    hide Attempted;
    TriesOn(s, [miss], us);
    assert [miss][..0] == [];
    assert Tries(s, [miss]) == Attempted(Ready(s, miss.r), miss.battery);
  }

  lemma MissHides(s: Store, miss: Try, us: seq<Try>)
    requires Logging(s) && SlotOf(s) + 1 + |us| < SLOTS && miss.battery != Enough
    ensures |s.cells| == FLASH_SIZE
    ensures Hidden(Tries(s, [miss] + us), s.start, SlotOf(s), Page(s.cells, s.start, SlotOf(s)))
  {
    hide Attempted, Logging, Page, Carried, Hidden, Tries, SlotOf;
    LoggingSize(s);
    var ts := [miss] + us;
    MissFirst(miss, us);
    TriesOnLap(s, ts);
    assert ts[..0] == [];
    NoTries(s);
  }

  lemma LoggingSize(s: Store)
    requires Logging(s)
    ensures Region(s.cells, s.start) && SlotOf(s) < SLOTS
  {
    hide Log, Rec, NoImpostor, Decode, Valid;
  }

  lemma NoTries(s: Store)
    ensures Tries(s, []) == s
  {
  }

  lemma MissFirst(miss: Try, us: seq<Try>)
    requires miss.battery != Enough
    ensures Carried([miss] + us) == 0
  {
  }

  /** The same, from the record before the hole on. */
  lemma HoleThenReset(s: Store, miss: Try, us: seq<Try>, v: Reading)
    requires Settled(s) && SlotOf(s) + 1 + |us| < SLOTS && miss.battery != Enough
    ensures var m := if (SlotOf(s) + 1) % 16 == 0 then 0 else Carried(us);
      SavedThenReset(Tries(s, [miss] + us), v, SlotOf(s), m, Tries(s, [miss] + us[..m]))
  {
    hide Attempted, Logging, Settled, Initialised, Decode, Valid, Page, Chain, Carried, SlotOf, Written, NextTop, Tries;
    SettledPlace(s);
    HoleSeen(s, miss, us);
    ResetFrame(s);
    var b, t := Initialised(PowerCycled(s)), Tries(s, [miss] + us);
    SettledPlace(b);
    SameSlot(b, t.cells);
    if (SlotOf(s) + 1) % 16 == 0 {
      HoleErased(b.(cells := t.cells), v);
    } else {
      HoleFilled(s, miss.r, miss.battery, us, v);
      FilledReset(s, miss, us, v);
    }
  }

  lemma SameSlot(s: Store, cells: seq<byte>)
    requires AtSlot(s) && |cells| == FLASH_SIZE
    ensures AtSlot(s.(cells := cells)) && SlotOf(s.(cells := cells)) == SlotOf(s)
  {
    hide Decode, Valid;
  }

  lemma FilledReset(s: Store, miss: Try, us: seq<Try>, v: Reading)
    requires Settled(s) && SlotOf(s) + 1 + |us| < SLOTS && miss.battery != Enough && (SlotOf(s) + 1) % 16 != 0
    ensures |s.cells| == FLASH_SIZE
    ensures var b, m := Initialised(PowerCycled(s)), Carried(us);
      var filled := Written(Ready(b, v));
      var again, h := Initialised(PowerCycled(Tries(filled, us))), SlotOf(s);
      (h + 1 + m < SLOTS - 1 ==>
         SlotOf(again) == h + 1 + m
         && CellOf(again.ram) == if m == 0 then Cell(NextTop(b.ram.top), v.hot, v.cold, v.litersPerPulse)
                                 else CellOf(Tries(s, [miss] + us[..m]).ram))
      && (h + 1 + m == SLOTS - 1 ==> CellOf(again.ram) == DEFAULT_CELL)
  {
    hide Attempted, Logging, Settled, Initialised, Decode, Valid, Page, Chain, Carried, SlotOf, Written, NextTop, Durable;
    SettledPlace(s);
    ResetFrame(s);
    var b, m := Initialised(PowerCycled(s)), Carried(us);
    SettledPlace(b);
    SaveSettles(b, v);
    var filled := Written(Ready(b, v));
    SettledPlace(filled);
    ResetAfterTries(filled, us);
    CarriedSettles(filled, us[..m]);
    HoleSeen(s, miss, us[..m]);
    HoleFilled(s, miss.r, miss.battery, us[..m], v);
  }
}
