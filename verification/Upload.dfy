/** The UART receiver of the boot loader: an image arrives block by block in the staging area. */
module Upload {
  import opened Bytes
  import opened Flash
  import opened BootImage

  const BLOCK_MAX: nat := 40
  const RETRY_MAX: nat := 5

  datatype Status = Success | GetBlockTimeout | InProgress | IncorrectOffset | FileOversize | ErrBlockRsp

  /** The bytes behind a block header; the receive buffer always has room for a whole block. */
  type Payload = s: seq<byte> | |s| >= 40 witness seq(40, _ => 0)

  datatype Event =
    | Start(size: u32)
    | Response(status: u8, offset: u32, len: u8, payload: Payload)
    | Tick

  datatype Reply =
    | Silent
    | StartRsp(start: nat, total: nat, offset: nat, sta: Status)
    | BlockRequest(offset: nat, len: nat)
    | OtaEnd(total: nat, offset: nat, sta: Status)
    | Ack(sta: Status)

  /** upgradeInfo; armed says whether the block request timer is running. */
  datatype Session = Session(start: nat, total: nat, offset: nat, retryCnt: nat, armed: bool)

  const IDLE: Session := Session(0, 0, 0, 0, false)

  datatype State = State(up: Session, cells: seq<byte>, checkArmed: bool)

  /** What every step keeps: a session is all zero, or inside a staged image with the boot check held off. */
  predicate Sound(s: State)
  {
    |s.cells| == FLASH_SIZE
    && (s.up == IDLE
        || (s.up.start == OTA && s.up.total <= IMAGE_MAX && s.up.retryCnt <= RETRY_MAX && !s.checkArmed
            && (s.up.offset < s.up.total || s.up.offset == s.up.total == 0)))
  }

  predicate Receiving(s: State) { s.up.start != 0 && s.up.total > 0 }

  // ----- what each message and timer does -----

  function RequestLen(u: Session): nat
    requires u.offset <= u.total
  {
    if u.total - u.offset >= BLOCK_MAX then BLOCK_MAX else u.total - u.offset
  }

  /** The first block loses its start-up flag byte, wherever that byte lies. */
  function Masked(offset: nat, payload: Payload): (r: Payload)
    ensures |r| == |payload|
  {
    if offset == 0 then payload[FLAG_OFFSET := 0xff] else payload
  }

  predicate Begins(s: State, e: Event)
  {
    e.Start? && s.up.start == 0 && e.size <= IMAGE_MAX
  }

  /** A block that is programmed: right offset, one to forty bytes. */
  predicate Taken(s: State, e: Event)
  {
    e.Response? && e.status == 0 && s.up.total != 0 && e.offset == s.up.offset && 0 < e.len <= BLOCK_MAX
  }

  predicate Completes(s: State, e: Event)
  {
    Taken(s, e) && s.up.offset + e.len == s.up.total
  }

  function Programs(s: State, e: Event): (r: seq<byte>)
    requires Taken(s, e)
    ensures |r| == |s.cells|
  {
    Programmed(s.cells, s.up.start + e.offset, Masked(e.offset, e.payload)[..e.len])
  }

  function Next(s: State, e: Event): State
  {
    match e
    case Start(size) =>
      if Begins(s, e) then State(Session(OTA, size, 0, 0, true), Wiped(s.cells, OTA, SectorUp(size)), false) else s
    case Tick =>
      if !s.up.armed then s
      else if s.up.retryCnt < RETRY_MAX then s.(up := s.up.(retryCnt := s.up.retryCnt + 1))
      else s.(up := IDLE)
    case Response(status, offset, len, payload) =>
      if Completes(s, e) then
        State(IDLE, Programmed(Programs(s, e), s.up.start + FLAG_OFFSET, [0x4b]), true)
      else if Taken(s, e) then
        var o := s.up.offset + len;
        State(if o > s.up.total then IDLE else Session(s.up.start, s.up.total, o, 0, true), Programs(s, e), s.checkArmed)
      else if status != 0 || s.up.total == 0 then s.(up := IDLE)
      else s.(up := s.up.(armed := false))
  }

  function Answer(s: State, e: Event): Reply
    requires s.up.offset <= s.up.total
  {
    match e
    case Start(size) =>
      if Begins(s, e) then StartRsp(OTA, size, 0, Success)
      else StartRsp(s.up.start, s.up.total, s.up.offset, if s.up.start != 0 then InProgress else FileOversize)
    case Tick =>
      if !s.up.armed then Silent
      else if s.up.retryCnt < RETRY_MAX then BlockRequest(s.up.offset, RequestLen(s.up))
      else OtaEnd(s.up.total, s.up.offset, GetBlockTimeout)
    case Response(status, offset, len, payload) =>
      if Taken(s, e) then
        var o := s.up.offset + len;
        if o < s.up.total then Ack(Success)
        else OtaEnd(s.up.total, o, if o == s.up.total then Success else IncorrectOffset)
      else if status != 0 || s.up.total == 0 then OtaEnd(s.up.total, s.up.offset, ErrBlockRsp)
      else Ack(IncorrectOffset)
  }

  // ----- the receiver itself -----

  class Receiver {
    var flashStartAddr: nat
    var totalImageSize: nat
    var offset: nat
    var retryCnt: nat
    var upgradeTimer: bool
    var otaChkTimer: bool
    const chip: Chip

    ghost function View(): State
      reads this, chip
    {
      State(Session(flashStartAddr, totalImageSize, offset, retryCnt, upgradeTimer), chip.cells, otaChkTimer)
    }

    constructor (chip: Chip, otaChkTimer: bool)
      ensures this.chip == chip && View() == State(IDLE, chip.cells, otaChkTimer)
    {
      this.chip := chip;
      this.otaChkTimer := otaChkTimer;
      flashStartAddr, totalImageSize, offset, retryCnt, upgradeTimer := 0, 0, 0, 0, false;
    }

    /** bootloader_uartBlockReq */
    method UartBlockReq() returns (sent: Reply)
      requires offset <= totalImageSize
      ensures sent.BlockRequest? && sent.offset == offset && sent.offset + sent.len <= totalImageSize
      ensures sent.len <= BLOCK_MAX && (sent.len < BLOCK_MAX ==> sent.offset + sent.len == totalImageSize)
    {
      var blockReqLen;
      if totalImageSize - offset >= BLOCK_MAX {
        blockReqLen := BLOCK_MAX;
      } else {
        blockReqLen := totalImageSize - offset;
      }
      sent := BlockRequest(offset, blockReqLen);
    }

    method Reset()
      modifies this
      ensures View() == State(IDLE, chip.cells, old(otaChkTimer))
    {
      flashStartAddr, totalImageSize, offset, retryCnt, upgradeTimer := 0, 0, 0, 0, false;
    }

    /** bootloader_uartOtaComplete */
    method UartOtaComplete(sta: Status) returns (sent: Reply)
      modifies this
      ensures View() == State(IDLE, chip.cells, old(otaChkTimer))
      ensures sent == OtaEnd(old(totalImageSize), old(offset), sta)
    {
      sent := OtaEnd(totalImageSize, offset, sta);
      Reset();
    }

    /** upgradeBlockReqTimerCb */
    method UpgradeBlockReqTimerCb() returns (sent: Reply)
      requires Sound(View()) && upgradeTimer
      modifies this
      ensures View() == Next(old(View()), Tick) && sent == Answer(old(View()), Tick)
    {
      var tries := retryCnt;
      retryCnt := retryCnt + 1;
      if tries < RETRY_MAX {
        sent := UartBlockReq();
      } else {
        sent := OtaEnd(totalImageSize, offset, GetBlockTimeout);
        Reset();
      }
    }

    /** bootloader_upgrade, start request */
    method UpgradeStart(size: u32) returns (sent: Reply)
      requires Sound(View())
      modifies this, chip
      ensures View() == Next(old(View()), Start(size)) && sent == Answer(old(View()), Start(size))
    {
      var sta := Success;
      if flashStartAddr == 0 {
        if size <= IMAGE_MAX {
          otaChkTimer := false;
          retryCnt := 0;
          offset := 0;
          flashStartAddr := OTA;
          totalImageSize := size;
          SectorCount(totalImageSize);
          chip.EraseSectors(OTA, (totalImageSize + 4095) / 4096);
          upgradeTimer := true;
        } else {
          sta := FileOversize;
        }
      } else {
        sta := InProgress;
      }
      sent := StartRsp(flashStartAddr, totalImageSize, offset, sta);
    }

    /** bootloader_upgrade, block response */
    method UpgradeBlock(status: u8, rcvOffset: u32, rcvBlockLen: u8, payload: Payload) returns (sent: Reply)
      requires Sound(View())
      modifies this, chip
      ensures View() == Next(old(View()), Response(status, rcvOffset, rcvBlockLen, payload))
      ensures sent == Answer(old(View()), Response(status, rcvOffset, rcvBlockLen, payload))
    {
      hide Programmed;
      upgradeTimer := false;
      if status != 0 || totalImageSize == 0 {
        sent := UartOtaComplete(ErrBlockRsp);
        return;
      }
      if rcvOffset == offset && rcvBlockLen != 0 && rcvBlockLen <= BLOCK_MAX {
        var pData := payload;
        if rcvOffset == 0 {
          pData := pData[FLAG_OFFSET := 0xff];
        }
        chip.Write(flashStartAddr + rcvOffset, pData[..rcvBlockLen]);
        offset := offset + rcvBlockLen;
        if offset == totalImageSize {
          chip.Write(flashStartAddr + FLAG_OFFSET, [0x4b]);
          otaChkTimer := true;
          sent := UartOtaComplete(Success);
          return;
        } else if offset > totalImageSize {
          sent := UartOtaComplete(IncorrectOffset);
          return;
        }
        retryCnt := 0;
        upgradeTimer := true;
        sent := Ack(Success);
      } else {
        sent := Ack(IncorrectOffset);
      }
    }
  }

  lemma SectorCount(size: nat)
    ensures 4096 * ((size + 4095) / 4096) == SectorUp(size)
  {
  }
}
