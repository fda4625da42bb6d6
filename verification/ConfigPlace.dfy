/** The log and the running firmware never meet, whatever the flash holds. */
module ConfigPlace {
  import opened Bytes
  import opened Flash
  import opened ConfigStore
  import opened ConfigSteps
  import opened ConfigRuns

  /** Between events the log stands at some page of its region. */
  predicate Placed(s: Store)
  {
    |s.cells| == FLASH_SIZE && s.start == RegionStart(s.bootHigh) && !s.defaultConfig
    && s.start <= s.ram.addrStart < s.start + USER_DATA_SIZE && (s.ram.addrStart - s.start) % 256 == 0
  }

  predicate InRegion(before: seq<byte>, after: seq<byte>, bootHigh: bool)
  {
    SameOutside(before, after, RegionStart(bootHigh), RegionStart(bootHigh) + USER_DATA_SIZE)
  }

  lemma RegionSparesFirmware(before: seq<byte>, after: seq<byte>, bootHigh: bool)
    requires InRegion(before, after, bootHigh)
    ensures SameFirmware(before, after, bootHigh)
  {
  }

  lemma PageInRegion(s: Store, a: nat, data: seq<byte>)
    requires |s.cells| == FLASH_SIZE && |data| == RECORD_SIZE
    requires RegionStart(s.bootHigh) <= a < RegionStart(s.bootHigh) + USER_DATA_SIZE
    requires (a - RegionStart(s.bootHigh)) % 256 == 0
    ensures InRegion(s.cells, Programmed(PageReady(s.cells, a), a, data), s.bootHigh)
    ensures a == RegionStart(s.bootHigh) ==> InRegion(s.cells, Programmed(Erased(s.cells, a), a, data), s.bootHigh)
  {
    var off := a - RegionStart(s.bootHigh);
    assert off + 256 <= USER_DATA_SIZE;
    if a % 4096 == 0 {
      assert SectorOf(a) == a && off % 4096 == 0 && off + 4096 <= USER_DATA_SIZE;
    }
  }

  lemma SavePlace(s: Store)
    requires Placed(s)
    ensures Placed(Written(s)) && InRegion(s.cells, Written(s).cells, s.bootHigh) && Written(s).bootHigh == s.bootHigh
  {
    hide Encode, Checksum, Programmed, PageReady, Erased, NextTop, InRegion;
    NothingOutside(s);
    if s.ram.newOta == 0 {
      PageInRegion(s, NextAddr(s), Encode(Written(s).ram));
    }
  }

  lemma NothingOutside(s: Store)
    ensures InRegion(s.cells, s.cells, s.bootHigh)
  {
  }

  lemma RestorePlace(t: Store)
    requires |t.cells| == FLASH_SIZE && t.start == RegionStart(t.bootHigh) && t.ram.addrStart == t.start
    ensures var r := RestoreWritten(t); Placed(r) && InRegion(t.cells, r.cells, t.bootHigh) && r.bootHigh == t.bootHigh
  {
    hide Encode, Checksum, Programmed, Erased, InRegion;
    PageInRegion(t, t.start, Encode(Seal(t.ram)));
  }

  lemma DefaultPlace(t: Store)
    requires |t.cells| == FLASH_SIZE && t.start == RegionStart(t.bootHigh)
    ensures var r := Defaulted(t); Placed(r) && InRegion(t.cells, r.cells, t.bootHigh) && r.bootHigh == t.bootHigh
  {
    hide RestoreWritten;
    RestorePlace(t.(cells := Wiped(t.cells, t.start, USER_DATA_SIZE),
                    ram := DefaultConfig(t.start), defaultConfig := true));
  }

  /** A boot, from any flash and any NV item, ends with the log placed and nothing else touched. */
  lemma BootPlace(s: Store)
    requires |s.cells| == FLASH_SIZE && !s.defaultConfig
    ensures var r := Initialised(s);
      Placed(r) && InRegion(s.cells, r.cells, s.bootHigh) && r.bootHigh == s.bootHigh
  {
    hide Decode, Valid, Defaulted, RestoreWritten, Scan, InRegion;
    NothingOutside(s);
    var t := s.(start := RegionStart(s.bootHigh));
    DefaultPlace(t);
    if s.nv.Some? && Valid(s.nv.value) {
      ValidIdentifier(s.nv.value);
      RestorePlace(t.(ram := Decode(s.nv.value).(newOta := 0, addrStart := t.start, addrEnd := t.start + USER_DATA_SIZE),
                      defaultConfig := true));
    }
  }

  /** The boot address after an event. */
  function HighAfter(s: Store, e: Event): bool
  {
    if e.OtaSuccess? && s.ram.newOta != 0 then !s.bootHigh else s.bootHigh
  }

  /** An event whose erase, if it is one, is for an image that ends before the other half of the flash. */
  predicate WithinHalf(s: Store, e: Event)
  {
    !e.Download? && (e.EraseArea? && s.bootHigh ==> e.sectors <= 64)
  }

  lemma StepPlace(s: Store, e: Event)
    requires Placed(s)
    ensures |s.cells| == FLASH_SIZE && Placed(Step(s, e)) && Step(s, e).bootHigh == HighAfter(s, e)
    ensures WithinHalf(s, e) ==> SameFirmware(s.cells, Step(s, e).cells, HighAfter(s, e))
  {
    hide Written, Initialised, SameFirmware;
    NothingOutside(s);
    RegionSparesFirmware(s.cells, s.cells, s.bootHigh);
    match e
    case Save =>
      SavePlace(s);
      RegionSparesFirmware(s.cells, Written(s).cells, s.bootHigh);
    case OtaStart =>
      var t := s.(ram := s.ram.(newOta := 1));
      SavePlace(t);
      RegionSparesFirmware(t.cells, Written(t).cells, t.bootHigh);
    case EraseArea(sectors) =>
      if s.bootHigh ==> sectors <= 64 {
        EraseSpares(s, sectors);
      }
    case OtaFail => BootSpares(s);
    case OtaSuccess => BootSpares(PowerCycled(s.(bootHigh := !s.bootHigh)));
    case Reboot => BootSpares(PowerCycled(s));
    case _ =>
  }

  lemma BootSpares(s: Store)
    requires |s.cells| == FLASH_SIZE && !s.defaultConfig
    ensures Placed(Initialised(s)) && Initialised(s).bootHigh == s.bootHigh
    ensures SameFirmware(s.cells, Initialised(s).cells, s.bootHigh)
  {
    hide Initialised, SameFirmware;
    BootPlace(s);
    RegionSparesFirmware(s.cells, Initialised(s).cells, s.bootHigh);
  }

  lemma EraseSpares(s: Store, sectors: nat)
    requires |s.cells| == FLASH_SIZE && (s.bootHigh ==> sectors <= 64)
    ensures SameFirmware(s.cells, Wiped(s.cells, RegionStart(s.bootHigh), 4096 * sectors), s.bootHigh)
  {
  }

  /** From any flash, any NV item and either boot address: neither the boot nor any later save, preset, update start,
      failed or successful update or reset, nor an erase for an image of the other half, changes a cell of the firmware
      that runs then. Downloads may come in between and put anything anywhere. */
  lemma {:induction false} FirmwareSpared(s: Store, es: seq<Event>)
    requires |s.cells| == FLASH_SIZE && !s.defaultConfig
    ensures SameFirmware(s.cells, Initialised(s).cells, s.bootHigh)
    ensures var booted := Initialised(s);
      Placed(Run(booted, es))
      && forall i :: 0 <= i < |es| && WithinHalf(Run(booted, es[..i]), es[i]) ==>
           SameFirmware(Run(booted, es[..i]).cells, Step(Run(booted, es[..i]), es[i]).cells,
                        HighAfter(Run(booted, es[..i]), es[i]))
           && Step(Run(booted, es[..i]), es[i]).bootHigh == HighAfter(Run(booted, es[..i]), es[i])
    decreases |es|
  {
    hide Initialised, SameFirmware, Step, WithinHalf, HighAfter, Placed;
    BootSpares(s);
    var booted := Initialised(s);
    if es != [] {
      var init := es[..|es| - 1];
      FirmwareSpared(s, init);
      StepPlace(Run(booted, init), es[|es| - 1]);
      forall i | 0 <= i < |init|
        ensures init[..i] == es[..i] && init[i] == es[i]
      {
      }
    }
  }

  /** For larger images the erase runs on into the firmware exactly when that lies in the upper half. */
  lemma EraseSparesIff(s: Store, sectors: nat)
    requires Placed(s) && s.cells[Running(s.bootHigh)] != 0xff
    ensures SameFirmware(s.cells, Step(s, EraseArea(sectors)).cells, s.bootHigh) <==> !s.bootHigh || sectors <= 64
  {
    if !s.bootHigh || sectors <= 64 {
      EraseSpares(s, sectors);
    }
  }
}
