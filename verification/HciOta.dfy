/** The second image receiver, fed over the host interface of a running device. */
module HciOta {
  import opened Bytes
  import opened Flash
  import Crc32
  import Crc32Table

  const BLOCK_MAX: nat := 40
  const RETRY_MAX: nat := 5
  const FLAG_OFFSET: nat := 8
  const REMOTE_BIN: u8 := 0
  const LOCAL_BIN: u8 := 1

  /** Where downloads go when running from address 0, the size limit, both whole sectors, and whether a boot loader
      installs them. */
  datatype Layout = Layout(otaAddr: nat, max: nat, bootLoader: bool)

  ghost predicate Fits(lay: Layout, cells: seq<byte>)
  {
    lay.otaAddr % 4096 == 0 && lay.max % 4096 == 0
    && lay.max <= lay.otaAddr && lay.otaAddr + lay.max + 4096 <= |cells| <= 0x1000000
  }

  datatype Status = Success | GetBlockTimeout | InProgress | IncorrectOffset | FileOversize | IncorrectData
                  | MatchBootFlag | BootAddrError

  type Four = s: seq<byte> | |s| == 4 witness [0, 0, 0, 0]

  /** The bytes behind a block header; the message buffer is longer than any block. */
  type Payload = s: seq<byte> | |s| >= 264 witness seq(264, _ => 0)

  datatype Timer = Off | BlockTimer | RebootTimer

  datatype Info = Info(start: nat, total: u32, offset: u32, crc: bv32, bootFlag: Four,
                       findBootFlag: bool, started: bool, requestCnt: nat, binType: u8)

  const IDLE: Info := Info(0, 0, 0, 0, [0, 0, 0, 0], false, false, 0, REMOTE_BIN)

  datatype State = State(info: Info, timer: Timer, cells: seq<byte>)

  datatype Reply =
    | Silent
    | StartRsp(sta: Status)
    | BlockRequest(offset: nat, len: nat)
    | OtaEnd(total: nat, offset: nat, sta: Status)

  datatype Step = Step(to: State, sent: Reply)

  predicate Sound(s: State)
  {
    s.info.offset <= s.info.total
  }

  // ----- what each message does -----

  /** uart_send_ota_end: a failed session erases what it may have written; the count has 16 bits. */
  function Ended(s: State, sta: Status): Step
  {
    Step(State(IDLE, s.timer,
               if sta == Success then s.cells
               else Wiped(s.cells, s.info.start, 4096 * ((s.info.offset / 4096 + 1) % 65536))),
         OtaEnd(s.info.total, s.info.offset, sta))
  }

  function Ticked(s: State): Step
    requires Sound(s)
  {
    if s.info.requestCnt < RETRY_MAX then
      Step(s.(info := s.info.(requestCnt := s.info.requestCnt + 1)),
           BlockRequest(s.info.offset,
                        if s.info.total - s.info.offset >= BLOCK_MAX then BLOCK_MAX
                        else s.info.total - s.info.offset))
    else
      Ended(s, GetBlockTimeout).(to := Ended(s, GetBlockTimeout).to.(timer := Off))
  }

  function Started(lay: Layout, s: State, boot: Option<nat>, size: u32, bin: Option<u8>): Step
  {
    if s.info.started then Step(s, StartRsp(InProgress))
    else if boot.None? then Step(s, StartRsp(BootAddrError))
    else
      var start := if boot.value != 0 then 0 else lay.otaAddr;
      if size < lay.max then
        Step(State(Info(start, size, 0, 0xffffffff, s.info.bootFlag, false, true, 0,
                        if bin.Some? then bin.value else REMOTE_BIN),
                   BlockTimer, Wiped(s.cells, start, 4096 * (size / 4096 + 1))),
             StartRsp(Success))
      else
        Step(s.(info := s.info.(start := start, total := size)), StartRsp(FileOversize))
  }

  /** Bytes of a block that the running CRC takes in: all of it, except for the last four of the file. */
  function CrcLen(total: u32, offset: u32, blockLen: u8): (r: nat)
    requires offset <= total
    ensures r <= 255
  {
    var rest := total - offset;
    if rest < 4 then 0
    else if blockLen > rest || rest - blockLen >= 4 then blockLen  // the first case is a wrapped difference
    else rest - 4
  }

  /** The byte at the flag offset is looked at even when the block ends right before it. */
  predicate SeesFlag(offset: u32, blockLen: u8)
  {
    offset <= FLAG_OFFSET <= offset + blockLen
  }

  function Kept(info: Info, blockLen: u8, payload: Payload): Four
  {
    seq(4, k requires 0 <= k < 4 =>
      if info.offset <= 8 + k < info.offset + blockLen then payload[8 + k - info.offset] else info.bootFlag[k])
  }

  function Scanned(info: Info, blockLen: u8, payload: Payload): Info
  {
    info.(bootFlag := Kept(info, blockLen, payload), findBootFlag := info.offset <= 11 < info.offset + blockLen)
  }

  /** The addresses a block response can read lie inside the device. */
  predicate Addressable(s: State, blockLen: u8)
  {
    s.info.start % 4096 == 0 && s.info.start + 12 <= |s.cells|
    && (s.info.offset + blockLen == s.info.total && s.info.binType == LOCAL_BIN ==>
          4 <= s.info.start + s.info.total <= |s.cells|)
  }

  /** Programming a block and going on to the next, or to the end of the session. */
  function Stored(s: State, blockLen: u8, block: seq<byte>): Step
  {
    var o := (s.info.offset + blockLen) % 0x1_0000_0000;
    var t := s.(info := s.info.(offset := o), cells := Programmed(s.cells, s.info.start + s.info.offset, block));
    if o < s.info.total then
      Step(t.(info := t.info.(requestCnt := 0), timer := BlockTimer), Silent)
    else if o > s.info.total then Ended(t, IncorrectOffset)
    else if s.info.binType != LOCAL_BIN then Ended(t, Success)
    else if Verified(t) then Ended(t.(timer := RebootTimer), Success)
    else Ended(t, IncorrectData)
  }

  /** The check of a complete local image: its last four bytes are the running CRC, and the flag is held back. */
  predicate Verified(t: State)
  {
    var end := t.info.start + t.info.total;
    t.info.start + 12 <= |t.cells| && 4 <= end <= |t.cells|
    && Word32(t.cells[end - 4..end]) == t.info.crc
    && t.cells[t.info.start + 8..t.info.start + 12] == [0xff, 0x4e, 0x4c, 0x54]
  }

  function Received(s: State, status: u8, recvOffset: u32, blockLen: u8, payload: Payload): Step
    requires Sound(s)
  {
    var u := s.(timer := Off);
    if status != 0 then Ended(u, IncorrectData)
    else if recvOffset != s.info.offset then Step(s, Silent)
    else if s.info.binType == LOCAL_BIN then
      var crc := Crc32.Fold(Crc32Table.POLYNOMIAL, s.info.crc, payload[..CrcLen(s.info.total, recvOffset, blockLen)]);
      var v := u.(info := u.info.(crc := crc));
      if !SeesFlag(recvOffset, blockLen) then Stored(v, blockLen, payload[..blockLen])
      else if payload[8 - recvOffset] != 0x4b then Ended(v, IncorrectData)
      else Stored(v, blockLen, payload[8 - recvOffset := 0xff][..blockLen])
    else if s.info.findBootFlag then Stored(u, blockLen, payload[..blockLen])
    else
      var v := u.(info := Scanned(u.info, blockLen, payload));
      if v.info.findBootFlag && v.info.bootFlag == [0x4b, 0x4e, 0x4c, 0x54] then Ended(v, MatchBootFlag)
      else Stored(v, blockLen, payload[..blockLen])
  }

  // ----- the reset that follows -----

  /** What ota_newImageValid feeds to the CRC: all but the last four bytes, with the flag byte as it will be. */
  function CoveredBytes(cells: seq<byte>, addr: nat, size: nat): seq<byte>
    requires addr + size <= |cells|
  {
    var s := if size < 4 then [] else cells[addr..addr + size - 4];
    if |s| > 8 then s[8 := 0x4b] else s
  }

  function SizeField(cells: seq<byte>, addr: nat): u32
    requires addr + 0x1c <= |cells|
  {
    U32Of(cells[addr + 0x18..addr + 0x1c])
  }

  /** ota_newImageValid */
  predicate NewImageValid(lay: Layout, cells: seq<byte>, addr: nat)
    requires addr + 256 <= |cells| && addr + lay.max <= |cells|
  {
    var size := SizeField(cells, addr);
    size <= lay.max && addr + size >= 4 && cells[addr + 9..addr + 12] == [0x4e, 0x4c, 0x54]
    && Word32(cells[addr + size - 4..addr + size])
         == Crc32.Fold(Crc32Table.POLYNOMIAL, 0xffffffff, CoveredBytes(cells, addr, size))
  }

  /** local_ota_reboot_delay: the flag of the new image is set, and without a boot loader that of the old one cleared. */
  function Switched(lay: Layout, cells: seq<byte>, boot: nat): (r: seq<byte>)
    ensures |r| == |cells|
  {
    var newAddr := if boot != 0 then 0 else lay.otaAddr;
    var flagged := Programmed(cells, newAddr + FLAG_OFFSET, [0x4b]);
    if newAddr + FLAG_OFFSET < |cells| && flagged[newAddr + FLAG_OFFSET] == 0x4b && !lay.bootLoader then
      Programmed(flagged, (if boot != 0 then lay.otaAddr else 0) + FLAG_OFFSET, [0])
    else flagged
  }

  predicate WholeFlag(cells: seq<byte>, addr: nat)
    requires addr + 12 <= |cells|
  {
    cells[addr + 8..addr + 12] == [0x4b, 0x4e, 0x4c, 0x54]
  }

  /** mcuBootAddrGet: where the chip starts, told by the start-up flags of the two areas. */
  function BootAddr(lay: Layout, cells: seq<byte>): Option<nat>
    requires lay.otaAddr + 12 <= |cells|
  {
    if lay.bootLoader || WholeFlag(cells, 0) then Some(0)
    else if WholeFlag(cells, lay.otaAddr) then Some(lay.otaAddr)
    else None
  }

  // ----- the receiver itself -----

  class Receiver {
    const lay: Layout
    const chip: Chip
    var otaInfo: Info
    var hciOtaTimer: Timer

    ghost function View(): State
      reads this, chip
    {
      State(otaInfo, hciOtaTimer, chip.cells)
    }

    constructor (lay: Layout, chip: Chip)
      ensures this.lay == lay && this.chip == chip && View() == State(IDLE, Off, chip.cells)
    {
      this.lay, this.chip := lay, chip;
      otaInfo, hciOtaTimer := IDLE, Off;
    }

    /** uart_send_ota_block_request */
    method UartSendOtaBlockRequest() returns (sent: Reply)
      requires Sound(View())
      ensures sent.BlockRequest? && sent.offset == otaInfo.offset && sent.offset + sent.len <= otaInfo.total
      ensures sent.len <= BLOCK_MAX && (sent.len < BLOCK_MAX ==> sent.offset + sent.len == otaInfo.total)
    {
      var nextBlockLen;
      if otaInfo.total - otaInfo.offset >= BLOCK_MAX {
        nextBlockLen := BLOCK_MAX;
      } else {
        nextBlockLen := otaInfo.total - otaInfo.offset;
      }
      sent := BlockRequest(otaInfo.offset, nextBlockLen);
    }

    /** uart_send_ota_end */
    method UartSendOtaEnd(sta: Status) returns (sent: Reply)
      requires otaInfo.start % 4096 == 0
      modifies this`otaInfo, chip
      ensures Step(View(), sent) == Ended(old(View()), sta)
    {
      hide Wiped;
      sent := OtaEnd(otaInfo.total, otaInfo.offset, sta);
      if sta != Success {
        var sectorNumUsed := (otaInfo.offset / 4096 + 1) % 65536;
        chip.EraseSectors(otaInfo.start, sectorNumUsed);
      }
      otaInfo := IDLE;
    }

    /** recv_ota_block_response_cb */
    method RecvOtaBlockResponseCb() returns (sent: Reply)
      requires Sound(View()) && otaInfo.start % 4096 == 0
      modifies this, chip
      ensures Step(View(), sent) == Ticked(old(View()))
    {
      hide Wiped;
      var tries := otaInfo.requestCnt;
      otaInfo := otaInfo.(requestCnt := otaInfo.requestCnt + 1);
      if tries < RETRY_MAX {
        sent := UartSendOtaBlockRequest();
      } else {
        sent := UartSendOtaEnd(GetBlockTimeout);
        hciOtaTimer := Off;
      }
    }

    /** zbhci_uartOTAHandle, start request; boot is the running address, if one can be told. */
    method StartRequest(boot: Option<nat>, size: u32, bin: Option<u8>) returns (sent: Reply)
      requires lay.otaAddr % 4096 == 0 && lay.max <= 0x1000000
      modifies this, chip
      ensures Step(View(), sent) == Started(lay, old(View()), boot, size, bin)
    {
      hide Wiped;
      var status := Success;
      if !otaInfo.started {
        if boot.None? {
          status := BootAddrError;
        } else {
          otaInfo := otaInfo.(start := if boot.value != 0 then 0 else lay.otaAddr, total := size);
          if otaInfo.total < lay.max {
            otaInfo := otaInfo.(binType := REMOTE_BIN);
            if bin.Some? {
              otaInfo := otaInfo.(binType := bin.value);
            }
            otaInfo := otaInfo.(offset := 0, started := true);
            var sectorNumUsed := otaInfo.total / 4096 + 1;
            chip.EraseSectors(otaInfo.start, sectorNumUsed);
            otaInfo := otaInfo.(findBootFlag := false, requestCnt := 0, crc := 0xffffffff);
            hciOtaTimer := BlockTimer;
          } else {
            status := FileOversize;
          }
        }
      } else {
        status := InProgress;
      }
      sent := StartRsp(status);
    }

    /** The search of a relayed file for a start-up flag, across blocks. */
    method ScanBootFlag(blockLen: u8, blockData: Payload) returns (matched: bool)
      requires !otaInfo.findBootFlag
      modifies this`otaInfo
      ensures otaInfo == Scanned(old(otaInfo), blockLen, blockData)
      ensures matched == (otaInfo.findBootFlag && otaInfo.bootFlag == [0x4b, 0x4e, 0x4c, 0x54])
    {
      var at := otaInfo.offset;
      var i := 0;
      while i < blockLen
        invariant 0 <= i <= blockLen && (at <= 11 ==> at + i <= 11 || i == 0)
        invariant otaInfo == old(otaInfo).(bootFlag := Kept(old(otaInfo), i, blockData))
      {
        if at + i >= FLAG_OFFSET && at + i < FLAG_OFFSET + 4 {
          otaInfo := otaInfo.(bootFlag := otaInfo.bootFlag[at + i - FLAG_OFFSET := blockData[i]]);
          if at + i - FLAG_OFFSET == 3 {
            otaInfo := otaInfo.(findBootFlag := true);
            matched := otaInfo.bootFlag == [0x4b, 0x4e, 0x4c, 0x54];
            assert otaInfo.bootFlag == Kept(old(otaInfo), blockLen, blockData);
            return;
          }
        }
        i := i + 1;
      }
      matched := false;
    }

    /** The final comparison, and is_valid_fw_flag. */
    method CheckImage() returns (verified: bool)
      requires otaInfo.start + 12 <= |chip.cells| && 4 <= otaInfo.start + otaInfo.total <= |chip.cells|
      ensures verified == Verified(View())
    {
      hide Word32;
      var end := otaInfo.start + otaInfo.total;
      var crcRecv := chip.Read(end - 4, 4);
      var flag := chip.Read(otaInfo.start + FLAG_OFFSET, 4);
      verified := Word32(crcRecv) == otaInfo.crc && flag == [0xff, 0x4e, 0x4c, 0x54];
    }

    /** ota_newImageValid; for sizes below four at address 0 the compared bytes lie outside the device. */
    method CheckNewImage(addr: nat) returns (valid: bool)
      requires addr + 256 <= |chip.cells| && addr + lay.max <= |chip.cells|
      ensures addr + SizeField(chip.cells, addr) >= 4 ==> valid == NewImageValid(lay, chip.cells, addr)
      ensures valid ==> SizeField(chip.cells, addr) <= lay.max && chip.cells[addr + 9..addr + 12] == [0x4e, 0x4c, 0x54]
    {
      hide Word32, U32Of, Crc32.Fold;
      var fwSize := SizeField(chip.cells, addr);
      if fwSize > lay.max {
        return false;
      }
      var crcVal: bv32 := *;
      if addr + fwSize >= 4 {
        var crcBytes := chip.Read(addr + fwSize - 4, 4);
        crcVal := Word32(crcBytes);
      }
      if chip.cells[addr + 9..addr + 12] != [0x4e, 0x4c, 0x54] {
        return false;
      }
      var curCrc := NewImageCrc(addr, fwSize);
      valid := curCrc == crcVal;
    }

    /** Its CRC loop over 256-byte pieces, the first one with the flag byte put in. */
    method NewImageCrc(addr: nat, fwSize: u32) returns (curCrc: bv32)
      requires addr + fwSize <= |chip.cells|
      ensures curCrc == Crc32.Fold(Crc32Table.POLYNOMIAL, 0xffffffff, CoveredBytes(chip.cells, addr, fwSize))
    {
      hide Crc32.Fold;
      var totalLen: int := fwSize - 4;
      ghost var covered := CoveredBytes(chip.cells, addr, fwSize);
      var oft := 0;
      curCrc := 0xffffffff;
      NothingFolded();
      assert covered[..0] == [];
      while totalLen > 0
        invariant fwSize >= 4 ==> totalLen >= 0 && oft + totalLen == |covered| == fwSize - 4
        invariant fwSize < 4 ==> totalLen < 0 && oft == 0 == |covered|
        invariant oft % 256 == 0 || totalLen == 0
        invariant curCrc == Crc32.Fold(Crc32Table.POLYNOMIAL, 0xffffffff, covered[..oft])
        decreases totalLen
      {
        var wLen := if totalLen > 256 then 256 else totalLen;
        var buf := chip.Read(addr + oft, wLen);
        if oft == 0 && wLen > FLAG_OFFSET {
          buf := buf[FLAG_OFFSET := 0x4b];
        }
        PieceCovered(chip.cells, addr, fwSize, oft, wLen, buf);
        Crc32.FoldAppend(Crc32Table.POLYNOMIAL, 0xffffffff, covered[..oft], buf);
        assert covered[..oft] + buf == covered[..oft + wLen];
        curCrc := Crc32Table.Xcrc32(buf, curCrc);
        totalLen := totalLen - wLen;
        oft := oft + wLen;
      }
      assert covered[..oft] == covered;
    }

    /** local_ota_reboot_delay; boot is the running address, if one can be told. */
    method LocalOtaRebootDelay(boot: Option<nat>) returns (reset: bool)
      requires lay.otaAddr + 256 <= |chip.cells| && lay.otaAddr + lay.max <= |chip.cells|
      modifies this`hciOtaTimer, chip
      ensures hciOtaTimer == Off && otaInfo == old(otaInfo)
      ensures boot.None? ==> !reset && chip.cells == old(chip.cells)
      ensures boot.Some? ==>
                (!reset && chip.cells == old(chip.cells)) || chip.cells == Switched(lay, old(chip.cells), boot.value)
      ensures boot.Some? ==>
                var newAddr := if boot.value != 0 then 0 else lay.otaAddr;
                newAddr + SizeField(old(chip.cells), newAddr) >= 4 ==>
                  if NewImageValid(lay, old(chip.cells), newAddr) then
                    chip.cells == Switched(lay, old(chip.cells), boot.value)
                    && (reset <==> old(chip.cells)[newAddr + FLAG_OFFSET] & 0x4b == 0x4b)
                  else !reset && chip.cells == old(chip.cells)
      ensures boot.Some? && 12 <= lay.otaAddr ==>
                var newAddr := if boot.value != 0 then 0 else lay.otaAddr;
                var oldAddr := if boot.value != 0 then lay.otaAddr else 0;
                |chip.cells| == |old(chip.cells)|
                && (reset ==> chip.cells[newAddr + 8] == 0x4b)
                && (reset && !lay.bootLoader ==>
                      chip.cells[oldAddr + 8] == 0 && BootAddr(lay, chip.cells) == Some(newAddr))
                && forall i :: 0 <= i < |chip.cells| && i != newAddr + 8
                               && (i != oldAddr + 8 || lay.bootLoader || !reset) ==>
                     chip.cells[i] == old(chip.cells)[i]
    {
      hide NewImageValid, SizeField, Programmed, BootAddr, Switched;
      hciOtaTimer := Off;
      reset := false;
      if boot.None? {
        return;
      }
      var newAddr := if boot.value != 0 then 0 else lay.otaAddr;
      var valid := CheckNewImage(newAddr);
      if !valid {
        return;
      }
      if 12 <= lay.otaAddr {
        SwitchedBytes(lay, chip.cells, boot.value);
      }
      var written := WriteWithCheck(newAddr + FLAG_OFFSET, 0x4b);
      if written {
        if !lay.bootLoader {
          var baseAddr := if boot.value != 0 then lay.otaAddr else 0;
          chip.Write(baseAddr + FLAG_OFFSET, [0]);
        }
        reset := true;
      }
      SwitchedIs(lay, old(chip.cells), boot.value);
    }

    /** flash_writeWithCheck of one byte. */
    method WriteWithCheck(addr: nat, b: byte) returns (same: bool)
      requires addr < |chip.cells|
      modifies chip`cells
      ensures chip.cells == Programmed(old(chip.cells), addr, [b])
      ensures chip.cells[addr] == old(chip.cells)[addr] & b && (same <==> chip.cells[addr] == b)
    {
      chip.Write(addr, [b]);
      var back := chip.Read(addr, 1);
      assert back == [chip.cells[addr]];
      same := back == [b];
    }

    /** Storing a block and deciding how to go on. */
    method StoreBlock(blockLen: u8, blockData: Payload) returns (sent: Reply)
      requires Sound(View()) && Addressable(View(), blockLen)
      modifies this, chip
      ensures Step(View(), sent) == Stored(old(View()), blockLen, blockData[..blockLen])
    {
      hide Word32, Programmed, Wiped, Verified;
      sent := Silent;
      chip.Write(otaInfo.start + otaInfo.offset, blockData[..blockLen]);
      otaInfo := otaInfo.(offset := (otaInfo.offset + blockLen) % 0x1_0000_0000);
      if otaInfo.offset < otaInfo.total {
        otaInfo := otaInfo.(requestCnt := 0);
        hciOtaTimer := BlockTimer;
      } else if otaInfo.offset == otaInfo.total {
        var finalStatus := Success;
        if otaInfo.binType == LOCAL_BIN {
          var verified := CheckImage();
          if verified {
            hciOtaTimer := RebootTimer;
          } else {
            finalStatus := IncorrectData;
          }
        }
        sent := UartSendOtaEnd(finalStatus);
      } else {
        sent := UartSendOtaEnd(IncorrectOffset);
      }
    }

    /** zbhci_uartOTAHandle, block response. */
    method BlockResponse(status: u8, recvOffset: u32, blockLen: u8, payload: Payload) returns (sent: Reply)
      requires Sound(View()) && Addressable(View(), blockLen)
      modifies this, chip
      ensures Step(View(), sent) == Received(old(View()), status, recvOffset, blockLen, payload)
    {
      hide Stored, Ended, Kept, Crc32.Fold;
      sent := Silent;
      if status != 0 {
        hciOtaTimer := Off;
        sent := UartSendOtaEnd(IncorrectData);
        return;
      }
      if recvOffset == otaInfo.offset {
        hciOtaTimer := Off;
        var blockData := payload;
        if otaInfo.binType == LOCAL_BIN {
          var crcLen := 0;
          var rest := otaInfo.total - otaInfo.offset;
          if rest < 4 {
            crcLen := 0;
          } else if (rest - blockLen) % 0x1_0000_0000 >= 4 {
            crcLen := blockLen;
          } else {
            crcLen := rest - 4;
          }
          var crc := Crc32Table.Xcrc32(blockData[..crcLen], otaInfo.crc);
          otaInfo := otaInfo.(crc := crc);
          if recvOffset <= FLAG_OFFSET && recvOffset + blockLen >= FLAG_OFFSET {
            if blockData[FLAG_OFFSET - recvOffset] != 0x4b {
              sent := UartSendOtaEnd(IncorrectData);
              return;
            } else {
              blockData := blockData[FLAG_OFFSET - recvOffset := 0xff];
            }
          }
        } else if !otaInfo.findBootFlag {
          var matched := ScanBootFlag(blockLen, blockData);
          if matched {
            sent := UartSendOtaEnd(MatchBootFlag);
            return;
          }
        }
        sent := StoreBlock(blockLen, blockData);
      }
    }
  }

  lemma SwitchedIs(lay: Layout, f: seq<byte>, boot: nat)
    requires lay.otaAddr + 256 <= |f|
    ensures var newAddr, oldAddr := if boot != 0 then 0 else lay.otaAddr, if boot != 0 then lay.otaAddr else 0;
      var flagged := Programmed(f, newAddr + FLAG_OFFSET, [0x4b]);
      Switched(lay, f, boot)
        == if flagged[newAddr + FLAG_OFFSET] == 0x4b && !lay.bootLoader then
             Programmed(flagged, oldAddr + FLAG_OFFSET, [0])
           else flagged
  {
    hide Programmed;
  }

  /** What the two writes come to: the new flag byte, and without a boot loader the old one cleared; nothing else. */
  lemma SwitchedBytes(lay: Layout, f: seq<byte>, boot: nat)
    requires lay.otaAddr + 256 <= |f| && 12 <= lay.otaAddr
    ensures var newAddr, oldAddr := if boot != 0 then 0 else lay.otaAddr, if boot != 0 then lay.otaAddr else 0;
      var g := Switched(lay, f, boot);
      var written := f[newAddr + 8] & 0x4b == 0x4b;
      g[newAddr + 8] == f[newAddr + 8] & 0x4b
      && (written && !lay.bootLoader ==>
            g[oldAddr + 8] == 0
            && (f[newAddr + 9..newAddr + 12] == [0x4e, 0x4c, 0x54] ==> BootAddr(lay, g) == Some(newAddr)))
      && forall i :: 0 <= i < |f| && i != newAddr + 8 && (i != oldAddr + 8 || lay.bootLoader || !written) ==>
           g[i] == f[i]
  {
    var newAddr, oldAddr := if boot != 0 then 0 else lay.otaAddr, if boot != 0 then lay.otaAddr else 0;
    var g := Switched(lay, f, boot);
    if f[newAddr + 8] & 0x4b == 0x4b && !lay.bootLoader && f[newAddr + 9..newAddr + 12] == [0x4e, 0x4c, 0x54] {
      ByteCleared(f[oldAddr + 8]);
      StartsThere(lay, f, g, newAddr, oldAddr);
    }
  }

  lemma ByteCleared(b: byte)
    ensures b & 0 == 0
  {
  }

  /** Once the new flag is whole and the old one cleared, the chip starts from the new area. */
  lemma StartsThere(lay: Layout, f: seq<byte>, g: seq<byte>, newAddr: nat, oldAddr: nat)
    requires 12 <= lay.otaAddr && lay.otaAddr + 12 <= |f| == |g| && !lay.bootLoader
    requires (newAddr == 0 && oldAddr == lay.otaAddr) || (newAddr == lay.otaAddr && oldAddr == 0)
    requires f[newAddr + 9..newAddr + 12] == [0x4e, 0x4c, 0x54]
    requires g[newAddr + 8] == 0x4b && g[oldAddr + 8] == 0
    requires forall i :: 0 <= i < |f| && i != newAddr + 8 && i != oldAddr + 8 ==> g[i] == f[i]
    ensures BootAddr(lay, g) == Some(newAddr)
  {
    assert g[newAddr + 8..newAddr + 12] == [g[newAddr + 8]] + f[newAddr + 9..newAddr + 12];
    assert g[oldAddr + 8..oldAddr + 12][0] == 0;
  }

  lemma NothingFolded()
    ensures Crc32.Fold(Crc32Table.POLYNOMIAL, 0xffffffff, []) == 0xffffffff
  {
  }

  lemma PieceCovered(cells: seq<byte>, addr: nat, size: nat, oft: nat, len: nat, buf: seq<byte>)
    requires 4 <= size && addr + size <= |cells| && oft % 256 == 0 && 0 < len <= 256 && oft + len <= size - 4
    requires var piece := cells[addr + oft..addr + oft + len];
      buf == if oft == 0 && len > 8 then piece[8 := 0x4b] else piece
    requires oft == 0 ==> len == 256 || len == size - 4
    ensures CoveredBytes(cells, addr, size)[oft..oft + len] == buf
  {
    var all := cells[addr..addr + size - 4];
    SubSlice(cells, addr, addr + size - 4, addr + oft, addr + oft + len);
  }
}
