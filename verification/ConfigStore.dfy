/** The wear-levelled configuration log of src/app_dev_config.c: records, pages and the two entry points. */
module ConfigStore {
  import opened Bytes
  import opened Flash
  import Crc16

  const ID_CONFIG: u32 := 0x0FED1410
  const GENERATOR: bv16 := 0xa010
  const LITERS_PER_PULSE: byte := 10
  const RECORD_SIZE: nat := 28
  const USER_DATA_SIZE: nat := 0x34000
  const BEGIN_USER_DATA1: nat := 0
  const BEGIN_USER_DATA2: nat := 0x40000
  const SLOTS: nat := 832

  // ----- records -----

  datatype Config = Config(
    id: u32, newOta: byte, top: u32, addrStart: nat, addrEnd: nat,
    hot: u32, cold: u32, litersPerPulse: byte, crc: bv16)

  function AddrBytes(a: nat): (r: seq<byte>)
    ensures |r| == 4
  {
    U32Bytes(a % 0x1_0000_0000)
  }

  function Encode(c: Config): (r: seq<byte>)
    ensures |r| == RECORD_SIZE
  {
    U32Bytes(c.id) + [c.newOta] + U32Bytes(c.top) + AddrBytes(c.addrStart) + AddrBytes(c.addrEnd)
    + U32Bytes(c.hot) + U32Bytes(c.cold) + [c.litersPerPulse] + Word16Bytes(c.crc)
  }

  function Decode(p: seq<byte>): Config
    requires |p| == RECORD_SIZE
  {
    Config(U32Of(p[0..4]), p[4], U32Of(p[5..9]), U32Of(p[9..13]), U32Of(p[13..17]),
           U32Of(p[17..21]), U32Of(p[21..25]), p[25], Word16(p[26..28]))
  }

  function Checksum(p: seq<byte>): bv16
    requires |p| >= 2
  {
    Crc16.Fold(GENERATOR, 0xffff, p[..|p| - 2])
  }

  /** The record carries the identifier and its own checksum. */
  predicate Valid(p: seq<byte>)
  {
    |p| == RECORD_SIZE && Decode(p).id == ID_CONFIG && Decode(p).crc == Checksum(p)
  }

  function Seal(c: Config): Config
  {
    c.(crc := Checksum(Encode(c)))
  }

  /** What a record means to the rest of the firmware. */
  datatype Cell = Cell(top: u32, hot: u32, cold: u32, litersPerPulse: byte)

  function CellOf(c: Config): Cell
  {
    Cell(c.top, c.hot, c.cold, c.litersPerPulse)
  }

  // ----- the store as a value -----

  datatype Store = Store(
    cells: seq<byte>, nv: Option<seq<byte>>, bootHigh: bool,
    ram: Config, defaultConfig: bool, start: nat)

  function RegionStart(bootHigh: bool): nat
  {
    if bootHigh then BEGIN_USER_DATA1 else BEGIN_USER_DATA2
  }

  /** Where the running firmware lies: the other half of the flash, told by the boot address. */
  function Running(bootHigh: bool): nat { if bootHigh then 0x40000 else 0 }

  /** The 0x34000 bytes that a firmware image may take are the same. */
  predicate SameFirmware(a: seq<byte>, b: seq<byte>, bootHigh: bool)
  {
    |a| == |b| && forall i :: Running(bootHigh) <= i < Running(bootHigh) + 0x34000 && i < |a| ==> a[i] == b[i]
  }

  function Page(cells: seq<byte>, start: nat, k: nat): (p: seq<byte>)
    requires |cells| == FLASH_SIZE && start <= BEGIN_USER_DATA2 && k < SLOTS
    ensures |p| == RECORD_SIZE
  {
    cells[start + 256 * k..start + 256 * k + RECORD_SIZE]
  }

  function NextAddr(s: Store): nat
  {
    var a := s.ram.addrStart + PAGE_SIZE;
    if a == s.start + USER_DATA_SIZE then s.start else a
  }

  /** The sectors one write_config erases. */
  function WriteErases(s: Store): (r: seq<nat>)
    ensures |r| <= 1
  {
    if s.defaultConfig then [s.ram.addrStart]
    else if s.ram.newOta == 0 then PageErases(NextAddr(s))
    else []
  }

  /** The first page of a sector is erased, with its sector, before it is programmed. */
  function PageErases(a: nat): seq<nat>
  {
    if a % 4096 == 0 then [a] else []
  }

  function PageReady(cells: seq<byte>, a: nat): (r: seq<byte>)
    ensures |r| == |cells|
  {
    if a % 4096 == 0 then Erased(cells, a) else cells
  }

  function RestoreWritten(s: Store): (r: Store)
    ensures |r.cells| == |s.cells|
  {
    var c := Seal(s.ram);
    s.(ram := c, nv := Some(Encode(c)), defaultConfig := false,
       cells := Programmed(Erased(s.cells, c.addrStart), c.addrStart, Encode(c)))
  }

  function LogWritten(s: Store): (r: Store)
    ensures |r.cells| == |s.cells|
  {
    var a := NextAddr(s);
    var c := Seal(s.ram.(addrStart := a, top := NextTop(s.ram.top)));
    s.(ram := c, cells := Programmed(PageReady(s.cells, a), a, Encode(c)))
  }

  function NvWritten(s: Store): Store
  {
    var c := Seal(s.ram);
    s.(ram := c, nv := Some(Encode(c)))
  }

  function Written(s: Store): (r: Store)
    ensures |r.cells| == |s.cells|
  {
    if s.defaultConfig then RestoreWritten(s)
    else if s.ram.newOta == 0 then LogWritten(s)
    else NvWritten(s)
  }

  /** What the drivers carry out during one write: on a low battery they return without an effect, and the battery may
      drop between the erase and the programming. */
  datatype Battery = Enough | FailsAfterErase | Low

  /** Flash after write_config; everything else is as if it had been written. */
  function Attempted(s: Store, battery: Battery): (r: Store)
    ensures |r.cells| == |s.cells|
  {
    match battery
    case Enough => Written(s)
    case FailsAfterErase =>
      Written(s).(cells :=
        if s.defaultConfig then Erased(s.cells, s.ram.addrStart)
        else if s.ram.newOta == 0 then PageReady(s.cells, NextAddr(s))
        else s.cells)
    case Low => Written(s).(cells := s.cells)
  }

  function DefaultConfig(start: nat): Config
  {
    Config(ID_CONFIG, 0, 0, start, start + USER_DATA_SIZE, 0, 0, LITERS_PER_PULSE, 0)
  }

  /** clear_user_data followed by init_default_config */
  function Defaulted(s: Store): (r: Store)
    ensures |r.cells| == |s.cells|
  {
    RestoreWritten(s.(
      cells := Wiped(s.cells, s.start, USER_DATA_SIZE),
      ram := DefaultConfig(s.start), defaultConfig := true))
  }

  /** The record counter counts writes modulo 2^32. */
  function NextTop(top: u32): u32 { (top + 1) % 0x1_0000_0000 }

  /** The comparison of init_config; its second half covers the wrap-around. */
  predicate IsNextTop(top: u32, next: u32)
  {
    top + 1 == next || (top == 0xFFFFFFFF && next == 0)
  }

  /** Page k + 1 continues the log that page k ends so far. */
  predicate Continues(cells: seq<byte>, start: nat, k: nat)
    requires |cells| == FLASH_SIZE && start <= BEGIN_USER_DATA2 && k + 1 < SLOTS
  {
    Valid(Page(cells, start, k + 1))
    && IsNextTop(Decode(Page(cells, start, k)).top, Decode(Page(cells, start, k + 1)).top)
  }

  /** Where the scan of init_config stops, or nothing when it runs off the region. */
  function Scan(cells: seq<byte>, start: nat, k: nat): (r: Option<nat>)
    requires |cells| == FLASH_SIZE && start <= BEGIN_USER_DATA2 && k < SLOTS
    ensures r.Some? ==> k <= r.value < SLOTS - 1
    decreases SLOTS - k, start
  {
    if k + 1 == SLOTS then None
    else if Continues(cells, start, k) then Scan(cells, start, k + 1)
    else Some(k)
  }

  /** The store after init_config. */
  function Initialised(s: Store): (r: Store)
    requires |s.cells| == FLASH_SIZE
    ensures |r.cells| == FLASH_SIZE
  {
    var t := s.(start := RegionStart(s.bootHigh));
    if t.nv.None? || !Valid(t.nv.value) then Defaulted(t)
    else
      var restore := Decode(t.nv.value);
      if restore.newOta != 0 then
        RestoreWritten(t.(
          ram := restore.(newOta := 0, addrStart := t.start, addrEnd := t.start + USER_DATA_SIZE),
          defaultConfig := true))
      else if Decode(Page(t.cells, t.start, 0)).id != ID_CONFIG then Defaulted(t)
      else
        match Scan(t.cells, t.start, 0)
        case None => Defaulted(t)
        case Some(k) =>
          t.(ram := Decode(Page(t.cells, t.start, k)).(addrStart := t.start + 256 * k))
  }

  // ----- the code -----

  /** checksum() of the firmware, bit by bit. */
  method ComputeChecksum(src: seq<byte>) returns (crc: bv16)
    requires |src| >= 2
    ensures crc == Checksum(src)
  {
    hide Crc16.Step;
    crc := 0xffff;
    var len := |src| - 2;
    for i := 0 to len
      invariant crc == Crc16.Fold(GENERATOR, 0xffff, src[..i])
    {
      crc := ChecksumByte(crc, src[i]);
      assert src[..i + 1][..i] == src[..i];
    }
  }

  /** The inner loop, one byte. */
  method ChecksumByte(before: bv16, b: byte) returns (crc: bv16)
    ensures crc == Crc16.Step(GENERATOR, before, b)
  {
    hide Crc16.Shift8;
    ghost var fed := Crc16.Xor(before, b as bv16);
    crc := before ^ (b as bv16);
    var bit := 8;
    while bit > 0
      invariant 0 <= bit <= 8
      invariant Shifts(crc, bit) == Shifts(fed, 8)
    {
      if crc & 1 == 1 {
        crc := (crc >> 1) ^ GENERATOR;
      } else {
        crc := crc >> 1;
      }
      bit := bit - 1;
    }
    EightShifts(fed);
  }

  function Shifts(crc: bv16, n: nat): bv16
    decreases n
  {
    if n == 0 then crc else Shifts(Crc16.Shift1(GENERATOR, crc), n - 1)
  }

  lemma EightShifts(crc: bv16)
    ensures Shifts(crc, 8) == Crc16.Shift8(GENERATOR, crc)
  {
    hide Crc16.Shift1;
    TwoShifts(crc, 6);
    TwoShifts(Crc16.Shift2(GENERATOR, crc), 4);
    TwoShifts(Crc16.Shift4(GENERATOR, crc), 2);
    TwoShifts(Crc16.Shift2(GENERATOR, Crc16.Shift4(GENERATOR, crc)), 0);
  }

  lemma TwoShifts(crc: bv16, n: nat)
    ensures Shifts(crc, n + 2) == Shifts(Crc16.Shift2(GENERATOR, crc), n)
  {
    hide Crc16.Shift1;
    assert Shifts(crc, n + 2) == Shifts(Crc16.Shift1(GENERATOR, crc), n + 1);
  }

  class Device {
    const chip: Chip
    var nv: Option<seq<byte>>
    var bootHigh: bool
    var watermeterConfig: Config
    var defaultConfig: bool
    var configAddrStart: nat
    var configAddrEnd: nat

    constructor (chip: Chip, nv: Option<seq<byte>>, bootHigh: bool)
      ensures this.chip == chip && this.nv == nv && this.bootHigh == bootHigh
    {
      this.chip := chip;
      this.nv := nv;
      this.bootHigh := bootHigh;
      watermeterConfig := Config(0, 0, 0, 0, 0, 0, 0, 0, 0);
      defaultConfig := false;
      configAddrStart, configAddrEnd := 0, 0;
    }

    ghost predicate Ready()
      reads this, chip
    {
      |chip.cells| == FLASH_SIZE && configAddrEnd == configAddrStart + USER_DATA_SIZE
    }

    ghost function State(): Store
      reads this, chip
    {
      Store(chip.cells, nv, bootHigh, watermeterConfig, defaultConfig, configAddrStart)
    }

    method GetUserDataAddr()
      modifies `configAddrStart, `configAddrEnd
      ensures configAddrStart == RegionStart(bootHigh)
      ensures configAddrEnd == configAddrStart + USER_DATA_SIZE <= FLASH_SIZE
      ensures configAddrEnd <= Running(bootHigh) || Running(bootHigh) + 0x34000 <= configAddrStart
    {
      if bootHigh {
        configAddrStart := BEGIN_USER_DATA1;
        configAddrEnd := BEGIN_USER_DATA1 + USER_DATA_SIZE;
      } else {
        configAddrStart := BEGIN_USER_DATA2;
        configAddrEnd := BEGIN_USER_DATA2 + USER_DATA_SIZE;
      }
    }

    method ClearUserData(flashAddr: nat)
      requires flashAddr % 4096 == 0
      modifies chip
      ensures chip.cells == Wiped(old(chip.cells), flashAddr, USER_DATA_SIZE)
    {
      var addr, end := flashAddr, flashAddr + USER_DATA_SIZE;
      while addr < end
        invariant flashAddr <= addr <= end && addr % 4096 == 0
        invariant chip.cells == Wiped(old(chip.cells), flashAddr, addr - flashAddr)
        decreases end - addr
      {
        chip.Erase(addr);
        addr := addr + SECTOR_SIZE;
      }
    }

    method WriteRestoreConfig()
      modifies `watermeterConfig, `nv
      ensures watermeterConfig == Seal(old(watermeterConfig))
      ensures nv == Some(Encode(watermeterConfig))
    {
      var crc := ComputeChecksum(Encode(watermeterConfig));
      watermeterConfig := watermeterConfig.(crc := crc);
      nv := Some(Encode(watermeterConfig));
    }

    /** flash_erase, which does nothing on a low battery. */
    method FlashErase(addr: nat, battery: Battery)
      modifies chip
      ensures chip.cells == if battery == Low then old(chip.cells) else Erased(old(chip.cells), addr)
      ensures chip.erasures == old(chip.erasures) + if battery == Low then [] else [addr]
    {
      if battery == Low {
        return;
      }
      chip.Erase(addr);
    }

    /** flash_write, likewise. */
    method FlashWrite(addr: nat, buf: seq<byte>, battery: Battery)
      modifies chip`cells
      ensures chip.cells == if battery == Enough then Programmed(old(chip.cells), addr, buf) else old(chip.cells)
    {
      if battery != Enough {
        return;
      }
      chip.Write(addr, buf);
    }

    /** write_config, log branch: step to the next page and erase its sector when it is the first there. */
    method NextPage(battery: Battery)
      requires Ready()
      modifies `watermeterConfig, chip
      ensures watermeterConfig == old(watermeterConfig).(addrStart := NextAddr(old(State())))
      ensures chip.cells == if battery == Low then old(chip.cells)
                            else PageReady(old(chip.cells), watermeterConfig.addrStart)
      ensures chip.erasures
           == old(chip.erasures) + if battery == Low then [] else PageErases(watermeterConfig.addrStart)
    {
      hide Erased;
      watermeterConfig := watermeterConfig.(addrStart := watermeterConfig.addrStart + PAGE_SIZE);
      if watermeterConfig.addrStart == configAddrEnd {
        watermeterConfig := watermeterConfig.(addrStart := configAddrStart);
      }
      if watermeterConfig.addrStart % 4096 == 0 {
        FlashErase(watermeterConfig.addrStart, battery);
      }
    }

    /** write_config, log branch: count the write, seal the record and program it. */
    method AppendRecord(battery: Battery)
      requires Ready() && !defaultConfig && watermeterConfig.newOta == 0
      modifies `watermeterConfig, chip
      ensures Ready() && State() == Attempted(old(State()), battery)
      ensures chip.erasures
           == old(chip.erasures) + if battery == Low then [] else PageErases(NextAddr(old(State())))
    {
      hide Encode, Checksum, Programmed, PageReady, PageErases, NextTop, NextAddr;
      NextPage(battery);
      watermeterConfig := watermeterConfig.(top := NextTop(watermeterConfig.top));
      var crc := ComputeChecksum(Encode(watermeterConfig));
      watermeterConfig := watermeterConfig.(crc := crc);
      FlashWrite(watermeterConfig.addrStart, Encode(watermeterConfig), battery);
    }

    method WriteConfig(battery: Battery)
      requires Ready()
      modifies `watermeterConfig, `nv, `defaultConfig, chip
      ensures Ready() && State() == Attempted(old(State()), battery)
      ensures chip.erasures == old(chip.erasures) + if battery == Low then [] else WriteErases(old(State()))
    {
      hide Encode, Checksum, Programmed, Erased, PageErases, PageReady, NextTop, NextAddr;
      if defaultConfig {
        WriteRestoreConfig();
        FlashErase(watermeterConfig.addrStart, battery);
        FlashWrite(watermeterConfig.addrStart, Encode(watermeterConfig), battery);
        defaultConfig := false;
      } else {
        if watermeterConfig.newOta == 0 {
          AppendRecord(battery);
        } else {
          WriteRestoreConfig();
        }
      }
    }

    method InitDefaultConfig()
      requires Ready()
      modifies `watermeterConfig, `nv, `defaultConfig, chip
      ensures Ready()
      ensures State() == RestoreWritten(old(State()).(ram := DefaultConfig(configAddrStart), defaultConfig := true))
    {
      hide RestoreWritten;
      watermeterConfig := Config(0, 0, 0, 0, 0, 0, 0, 0, 0);
      watermeterConfig := watermeterConfig.(id := ID_CONFIG, litersPerPulse := LITERS_PER_PULSE);
      watermeterConfig := watermeterConfig.(addrStart := configAddrStart, addrEnd := configAddrEnd);
      defaultConfig := true;
      WriteConfig(Enough);
    }

    /** clear_user_data and init_default_config, as init_config always pairs them. */
    method ClearAndDefault()
      requires Ready() && configAddrStart % 4096 == 0
      modifies `watermeterConfig, `nv, `defaultConfig, chip
      ensures Ready() && State() == Defaulted(old(State()))
    {
      hide Wiped, RestoreWritten;
      ClearUserData(configAddrStart);
      InitDefaultConfig();
    }

    /** The scan loop of init_config, from the record of page 0 on. */
    method ScanLog(first: Config) returns (findConfig: bool, curr: Config, flashAddr: nat)
      requires Ready() && configAddrStart <= BEGIN_USER_DATA2
      requires first == Decode(Page(chip.cells, configAddrStart, 0))
      ensures var r := Scan(chip.cells, configAddrStart, 0);
        findConfig == r.Some?
        && (findConfig ==> curr == Decode(Page(chip.cells, configAddrStart, r.value))
                           && flashAddr == configAddrStart + 256 * (r.value + 1))
    {
      hide Decode, Checksum, IsNextTop;
      curr := first;
      findConfig := false;
      flashAddr := configAddrStart + PAGE_SIZE;
      ghost var k := 0;
      while flashAddr < configAddrEnd
        invariant k < SLOTS && flashAddr == configAddrStart + 256 * (k + 1)
        invariant curr == Decode(Page(chip.cells, configAddrStart, k))
        invariant Scan(chip.cells, configAddrStart, 0) == Scan(chip.cells, configAddrStart, k)
        invariant !findConfig
        decreases configAddrEnd - flashAddr
      {
        var page := chip.Read(flashAddr, RECORD_SIZE);
        var next := Decode(page);
        var crc := ComputeChecksum(page);
        if next.id == ID_CONFIG && crc == next.crc {
          if IsNextTop(curr.top, next.top) {
            curr := next;
            flashAddr := flashAddr + PAGE_SIZE;
            k := k + 1;
            continue;
          }
          findConfig := true;
          assert Scan(chip.cells, configAddrStart, k) == Some(k);
          break;
        }
        findConfig := true;
        assert Scan(chip.cells, configAddrStart, k) == Some(k);
        break;
      }
    }

    method InitConfig()
      requires |chip.cells| == FLASH_SIZE
      modifies this, chip
      ensures Ready() && State() == Initialised(old(State()))
    {
      hide Decode, Checksum, IsNextTop, Scan, Defaulted, RestoreWritten;
      GetUserDataAddr();
      if nv.None? || |nv.value| != RECORD_SIZE {
        ClearAndDefault();
        return;
      }
      var restore := Decode(nv.value);
      var crc := ComputeChecksum(nv.value);
      if restore.id != ID_CONFIG || crc != restore.crc {
        ClearAndDefault();
        return;
      }
      if restore.newOta != 0 {
        watermeterConfig := restore.(newOta := 0, addrStart := configAddrStart, addrEnd := configAddrEnd);
        defaultConfig := true;
        WriteConfig(Enough);
        return;
      }
      var page := chip.Read(configAddrStart, RECORD_SIZE);
      var curr := Decode(page);
      if curr.id != ID_CONFIG {
        ClearAndDefault();
        return;
      }
      var findConfig, flashAddr;
      findConfig, curr, flashAddr := ScanLog(curr);
      if findConfig {
        watermeterConfig := curr.(addrStart := flashAddr - PAGE_SIZE);
      } else {
        ClearAndDefault();
      }
    }

    /** What a download erases before its start is reported (tl_zigbee_sdk/zigbee/ota/ota.c): the region of the log,
        as many sectors as the image needs. */
    method EraseDownloadArea(imageSize: u32)
      modifies chip
      ensures State() == old(State()).(
                cells := Wiped(old(chip.cells), RegionStart(bootHigh), 4096 * ((imageSize / 4096 + 1) % 65536)))
      ensures imageSize <= 0x34000 && |old(chip.cells)| == FLASH_SIZE ==>
                SameFirmware(old(chip.cells), chip.cells, bootHigh)
                && Blank(chip.cells, Running(!bootHigh), Running(!bootHigh) + imageSize)
    {
      var sectorNumUsed := (imageSize / 4096 + 1) % 65536;
      var baseAddr := if bootHigh then 0 else 0x40000;
      chip.EraseSectors(baseAddr, sectorNumUsed);
    }

    /** app_otaProcessMsgHandler, start event; below half charge the update is refused and completes as a failure. */
    method OtaStart(batteryLow: bool, success: bool)
      requires Ready()
      modifies this, chip
      ensures Ready()
      ensures State() == if batteryLow then
                           if old(watermeterConfig).newOta != 0 then Initialised(old(State())) else old(State())
                         else if success then Written(old(State()).(ram := old(watermeterConfig).(newOta := 1)))
                         else old(State())
    {
      hide Initialised, Written;
      if batteryLow {
        var reboot := OtaComplete(false);
        return;
      }
      if success {
        watermeterConfig := watermeterConfig.(newOta := 1);
        WriteConfig(Enough);
      }
    }

    /** app_otaProcessMsgHandler, complete event; a successful update ends in a reboot. */
    method OtaComplete(success: bool) returns (reboot: bool)
      requires Ready()
      modifies this, chip
      ensures Ready() && reboot == success
      ensures State() == if !success && old(watermeterConfig).newOta != 0
                         then Initialised(old(State())) else old(State())
    {
      reboot := success;
      if !success && watermeterConfig.newOta != 0 {
        InitConfig();
      }
    }
  }
}
