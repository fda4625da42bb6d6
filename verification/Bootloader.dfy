/** Staged firmware images: where they live, and when the boot loader believes them. */
module BootImage {
  import opened Bytes
  import opened Flash
  import Crc32
  import Crc32Table

  // TLSR8258 with 512 kB of flash, boot loader mode.
  const APP: nat := 0x8000
  const OTA: nat := 0x39000
  const IMAGE_MAX: nat := 0x31000
  const FLAG_OFFSET: nat := 8
  const START_FLAG: seq<byte> := [0x4b, 0x4e, 0x4c, 0x54]

  /** is_valid_fw_bootloader: the start-up flag is in place. */
  predicate Flagged(cells: seq<byte>, addr: nat)
    requires addr + 12 <= |cells|
  {
    cells[addr + 8..addr + 12] == START_FLAG
  }

  function FwSize(cells: seq<byte>): u32
    requires |cells| == FLASH_SIZE
  {
    U32Of(cells[OTA + 0x18..OTA + 0x1c])
  }

  /** The running CRC over the image without its last four bytes; sizes below four leave nothing to cover. */
  function CoveredCrc(cells: seq<byte>, size: nat): bv32
    requires |cells| == FLASH_SIZE && size <= IMAGE_MAX
  {
    if size < 4 then 0xffffffff
    else Crc32.Fold(Crc32Table.POLYNOMIAL, 0xffffffff, cells[OTA..OTA + size - 4])
  }

  /** The length and CRC check of the boot loader. */
  predicate Accepted(cells: seq<byte>)
    requires |cells| == FLASH_SIZE
  {
    var size := FwSize(cells);
    size <= IMAGE_MAX && Word32(cells[OTA + size - 4..OTA + size]) == CoveredCrc(cells, size)
  }

  /** A staged image that the next boot will install. */
  predicate Pending(cells: seq<byte>)
  {
    |cells| == FLASH_SIZE && Flagged(cells, OTA) && Accepted(cells)
  }

  function PageUp(n: nat): nat { if n % 256 == 0 then n else n - n % 256 + 256 }
  function SectorUp(n: nat): nat { if n % 4096 == 0 then n else n - n % 4096 + 4096 }
  function SectorEnd(i: nat): nat { i - i % 4096 + 4096 }

  /** Bytes erased from the staging area afterwards; the sum wraps at 32 bits. */
  function WipeSize(size: u32): nat
  {
    var sum := (size + 4095) % 0x1_0000_0000;
    sum - sum % 4096
  }

  /** The running area holds the image staged in cells, whole pages of it. */
  predicate Copied(staged: seq<byte>, cells: seq<byte>)
    requires |staged| == |cells| == FLASH_SIZE && FwSize(staged) <= IMAGE_MAX
  {
    cells[APP..APP + PageUp(FwSize(staged))] == staged[OTA..OTA + PageUp(FwSize(staged))]
  }
}

/** bootloader_with_ota_check as a machine that may lose power or misprogram at any flash operation. */
module Bootloader {
  import opened Bytes
  import opened Flash
  import opened BootImage
  import Crc32
  import Crc32Table

  datatype Outcome = Rebooted | NoApp | VerifyReset | PowerCut

  /** Flash from which a valid image is being installed, before its flag is cleared. */
  predicate Interrupted(f: seq<byte>, g: seq<byte>)
    requires |f| == FLASH_SIZE
  {
    SameOutside(f, g, APP, APP + SectorUp(FwSize(f)))
  }

  /** The image is in place and no longer staged; only the two areas have changed. */
  predicate Installed(f: seq<byte>, g: seq<byte>)
    requires |f| == FLASH_SIZE && FwSize(f) <= IMAGE_MAX
  {
    var n := SectorUp(FwSize(f));
    |g| == FLASH_SIZE && Copied(f, g) && !Flagged(g, OTA)
    && forall i :: 0 <= i < FLASH_SIZE && !(APP <= i < APP + n) && !(OTA <= i < OTA + IMAGE_MAX) ==> f[i] == g[i]
  }

  /** A flagged image that fails its check is wiped; nothing below the staging area changes. */
  predicate Discarded(f: seq<byte>, g: seq<byte>)
    requires |f| == FLASH_SIZE
  {
    |g| == FLASH_SIZE && !Flagged(g, OTA)
    && SameOutside(f, g, OTA, OTA + if WipeSize(FwSize(f)) == 0 then 4096 else WipeSize(FwSize(f)))
  }

  /** Everything one boot can do. */
  predicate BootStep(f: seq<byte>, g: seq<byte>, out: Outcome)
    requires |f| == FLASH_SIZE
  {
    |g| == FLASH_SIZE
    && (out.Rebooted? ==> Flagged(g, APP)) && (out.NoApp? ==> !Flagged(g, APP))
    && if Pending(f) then
         if out.VerifyReset? then Interrupted(f, g)
         else if out.PowerCut? then Interrupted(f, g) || Installed(f, g)
         else Installed(f, g)
       else if Flagged(f, OTA) then
         !out.VerifyReset? && (Discarded(f, g) || (out.PowerCut? && f == g))
       else
         f == g && (out.Rebooted? || out.NoApp?)
  }

  /** The image is in place; only the two areas have changed. */
  predicate Landed(f: seq<byte>, g: seq<byte>)
    requires |f| == FLASH_SIZE && FwSize(f) <= IMAGE_MAX
  {
    |g| == FLASH_SIZE && Copied(f, g)
    && forall i :: 0 <= i < FLASH_SIZE && !(APP <= i < APP + SectorUp(FwSize(f))) && !(OTA <= i < OTA + IMAGE_MAX) ==>
         f[i] == g[i]
  }

  /** Everything one boot can do when the clean-up may fail silently as well: the staging area may then look like
      anything. */
  predicate LooseStep(f: seq<byte>, g: seq<byte>, out: Outcome)
    requires |f| == FLASH_SIZE
  {
    |g| == FLASH_SIZE
    && (out.Rebooted? ==> Flagged(g, APP)) && (out.NoApp? ==> !Flagged(g, APP))
    && if Pending(f) then
         if out.VerifyReset? then Interrupted(f, g)
         else if out.PowerCut? then Interrupted(f, g) || Landed(f, g)
         else Landed(f, g)
       else if Flagged(f, OTA) then
         !out.VerifyReset?
         && SameOutside(f, g, OTA, OTA + if WipeSize(FwSize(f)) == 0 then 4096 else WipeSize(FwSize(f)))
       else
         f == g && (out.Rebooted? || out.NoApp?)
  }

  class Board {
    var cells: seq<byte>
    const reliable: bool  // no power cut, no failing flash operation
    const clears: bool  // the operations of the clean-up may be cut, but do not fail silently

    constructor (content: seq<byte>, reliable: bool, clears: bool)
      ensures cells == content && this.reliable == reliable && this.clears == clears
    {
      cells := content;
      this.reliable, this.clears := reliable, clears;
    }

    /** An erase that may be cut short or fail silently, leaving anything in its sector. */
    method TryErase(addr: nat) returns (alive: bool)
      modifies this`cells
      ensures SameOutside(old(cells), cells, SectorOf(addr), SectorOf(addr) + 4096)
      ensures reliable ==> alive && cells == Erased(old(cells), addr)
    {
      cells := Erased(cells, addr);
      alive := true;
      if !reliable {
        var junk: seq<byte> := *;
        cells := Damaged(cells, SectorOf(addr), 4096, junk);
        alive := *;
      }
    }

    /** A program operation that may be cut short or fail silently, leaving anything in its cells. */
    method TryWrite(addr: nat, data: seq<byte>) returns (alive: bool)
      modifies this`cells
      ensures SameOutside(old(cells), cells, addr, addr + |data|)
      ensures reliable ==> alive && cells == Programmed(old(cells), addr, data)
    {
      cells := Programmed(cells, addr, data);
      alive := true;
      if !reliable {
        var junk: seq<byte> := *;
        cells := Damaged(cells, addr, |data|, junk);
        alive := *;
      }
    }

    /** An erase of staged cells. Where the clean-up does not fail silently, a cut may leave anything there except a
        start-up flag. */
    method WipeSector(addr: nat) returns (alive: bool)
      requires |cells| == FLASH_SIZE && addr % 4096 == 0 && addr >= OTA
      modifies this`cells
      ensures SameOutside(old(cells), cells, addr, addr + 4096)
      ensures (reliable || clears) && !Flagged(old(cells), OTA) ==> !Flagged(cells, OTA)
      ensures reliable ==> alive && cells == Erased(old(cells), addr)
    {
      var before := cells;
      cells := Erased(cells, addr);
      alive := true;
      if !Flagged(before, OTA) {
        StillUnflagged(before, addr);
      }
      if !reliable {
        var junk: seq<byte> := *;
        var torn := Damaged(cells, addr, 4096, junk);
        alive := *;
        if !clears || (!alive && !Flagged(torn, OTA)) {
          cells := torn;
        }
      }
    }

    method StartUpFlag(addr: nat) returns (valid: bool)
      requires addr + 12 <= |cells|
      ensures valid == Flagged(cells, addr)
    {
      valid := cells[addr + 8..addr + 12] == START_FLAG;
    }

    /** The CRC loop over 256-byte pieces. */
    method StagedCrc(fwSize: u32) returns (curCrc: bv32)
      requires |cells| == FLASH_SIZE && fwSize <= IMAGE_MAX
      ensures curCrc == CoveredCrc(cells, fwSize)
    {
      var totalLen: int := fwSize - 4;
      var sAddr := OTA;
      curCrc := 0xffffffff;
      while totalLen > 0
        invariant fwSize >= 4 ==> totalLen >= 0 && sAddr == OTA + fwSize - 4 - totalLen
        invariant fwSize >= 4 ==>
                    curCrc == Crc32.Fold(Crc32Table.POLYNOMIAL, 0xffffffff, cells[OTA..sAddr])
        invariant fwSize < 4 ==> curCrc == 0xffffffff && totalLen < 0
        decreases totalLen
      {
        var wLen := if totalLen > 256 then 256 else totalLen;
        var buf := cells[sAddr..sAddr + wLen];
        Crc32.FoldAppend(Crc32Table.POLYNOMIAL, 0xffffffff, cells[OTA..sAddr], buf);
        assert cells[OTA..sAddr] + buf == cells[OTA..sAddr + wLen];
        curCrc := Crc32Table.Xcrc32(buf, curCrc);
        totalLen := totalLen - wLen;
        sAddr := sAddr + wLen;
      }
    }

    /** One turn of the copy loop: erase at a sector start, program the page, read it back. */
    method CopyPage(i: nat) returns (out: Option<Outcome>)
      requires |cells| == FLASH_SIZE && i % 256 == 0 && i + 256 <= IMAGE_MAX
      requires reliable && i % 4096 != 0 ==> Blank(cells, APP + i, APP + SectorEnd(i))
      modifies this`cells
      ensures out in {None, Some(VerifyReset), Some(PowerCut)}
      ensures SameOutside(old(cells), cells, APP + i, APP + SectorEnd(i))
      ensures out.None? ==> cells[APP + i..APP + i + 256] == old(cells)[OTA + i..OTA + i + 256]
      ensures reliable ==> out.None? && Blank(cells, APP + i + 256, APP + SectorEnd(i))
    {
      hide Erased, Programmed, SectorOf, SectorEnd;
      ghost var f := cells;
      PageInSector(i);
      if i % 4096 == 0 {
        ErasedBlank(cells, i);
        var alive := TryErase(APP + i);
        if !alive {
          return Some(PowerCut);
        }
      }
      ghost var before := cells;
      var buf := cells[OTA + i..OTA + i + 256];
      assert buf == f[OTA + i..OTA + i + 256];
      var alive := TryWrite(APP + i, buf);
      if !alive {
        return Some(PowerCut);
      }
      if reliable {
        BlankPageProgrammed(before, buf, i);
      }
      var readBuf := cells[APP + i..APP + i + 256];
      out := if readBuf != buf then Some(VerifyReset) else None;
    }

    /** The copy loop; a read-back mismatch resets. */
    method CopyImage(fwSize: u32) returns (out: Option<Outcome>)
      requires Pending(cells) && fwSize == FwSize(cells)
      modifies this`cells
      ensures out in {None, Some(VerifyReset), Some(PowerCut)}
      ensures Interrupted(old(cells), cells)
      ensures out.None? ==> Copied(old(cells), cells)
      ensures reliable ==> out.None?
    {
      hide Accepted, Flagged, Pending, FwSize, Erased, Programmed, PageUp, SectorUp, SectorEnd, Blank;
      ghost var f := cells;
      PendingBounds(f);
      var i := 0;
      while i < fwSize
        invariant i % 256 == 0 && i <= PageUp(fwSize)
        invariant SameOutside(f, cells, APP, APP + SectorUp(fwSize))
        invariant cells[APP..APP + i] == f[OTA..OTA + i]
        invariant reliable && i % 4096 != 0 ==> Blank(cells, APP + i, APP + SectorEnd(i))
        decreases fwSize - i
      {
        PageFits(i, fwSize);
        ghost var before := cells;
        out := CopyPage(i);
        if out.Some? {
          return;
        }
        OnePageMore(f, before, cells, i, fwSize);
        i := i + 256;
      }
      LastPage(i, fwSize);
      out := None;
    }

    /** Programming the first byte of the start-up flag to zero. */
    method ClearFlag() returns (alive: bool)
      requires |cells| == FLASH_SIZE && Flagged(cells, OTA)
      modifies this`cells
      ensures SameOutside(old(cells), cells, OTA, OTA + 4096) && (reliable ==> alive)
      ensures reliable || clears ==>
                (alive ==> !Flagged(cells, OTA)) && (Flagged(cells, OTA) ==> cells == old(cells))
    {
      ghost var f := cells;
      FlagCleared(f);
      alive := true;
      if !reliable {
        var fails: bool := *;
        if fails {
          var left: byte := *;
          cells := cells[OTA + FLAG_OFFSET := left];
          FlagDamaged(f, left);
          if !clears {
            alive := *;
          } else {
            alive := false;
          }
          return;
        }
      }
      cells := Programmed(cells, OTA + FLAG_OFFSET, [0]);
    }

    /** Clear the start-up flag, then erase the staged image. */
    method ClearStaging(fwSize: u32) returns (alive: bool)
      requires |cells| == FLASH_SIZE && Flagged(cells, OTA)
      modifies this`cells
      ensures |cells| == FLASH_SIZE && (reliable ==> alive)
      ensures SameOutside(old(cells), cells, OTA, OTA + if WipeSize(fwSize) == 0 then 4096 else WipeSize(fwSize))
      ensures reliable || clears ==>
                (alive ==> !Flagged(cells, OTA)) && (!alive && Flagged(cells, OTA) ==> cells == old(cells))
      ensures reliable ==> BlankFrom(cells, WipeSize(fwSize))
      ensures reliable && fwSize <= IMAGE_MAX ==> Blank(cells, OTA, OTA + fwSize)
    {
      hide FwSize, Erased, WipeSize, BlankFrom;
      ghost var f := cells;
      var limit := WipeSize(fwSize);
      WipeAligned(fwSize);
      alive := ClearFlag();
      if !alive {
        return;
      }
      var i := 0;
      NothingBlank(cells);
      while i < limit
        invariant i % 4096 == 0 && i <= limit && |cells| == FLASH_SIZE && alive
        invariant reliable || clears ==> !Flagged(cells, OTA)
        invariant reliable ==> BlankFrom(cells, i)
        invariant SameOutside(f, cells, OTA, OTA + if limit == 0 then 4096 else limit)
        decreases limit - i
      {
        OneSectorMore(cells, i);
        alive := WipeSector(OTA + i);
        if !alive {
          return;
        }
        i := i + 4096;
      }
      WipeCovers(cells, fwSize);
    }

    /** bootloader_with_ota_check for the running and staging areas of the device. */
    method BootloaderWithOtaCheck() returns (out: Outcome)
      requires |cells| == FLASH_SIZE
      modifies this`cells
      ensures reliable || clears ==> BootStep(old(cells), cells, out)
      ensures LooseStep(old(cells), cells, out)
      ensures reliable ==> out.Rebooted? || out.NoApp?
      ensures reliable && Flagged(old(cells), OTA) ==> BlankFrom(cells, WipeSize(FwSize(old(cells))))
      ensures reliable && Flagged(old(cells), OTA) && FwSize(old(cells)) <= IMAGE_MAX ==>
                Blank(cells, OTA, OTA + FwSize(old(cells)))
      ensures reliable && Pending(old(cells)) && FwSize(old(cells)) > 0 ==> OnlyInstalled(old(cells), cells)
    {
      hide BlankFrom, Accepted, Flagged, FwSize, WipeSize, Copied;
      ghost var f := cells;
      var staged := StartUpFlag(OTA);
      if staged {
        var fwSize := FwSize(cells);
        var isNewImageValid := false;
        if fwSize <= IMAGE_MAX {
          var crcVal := Word32(cells[OTA + fwSize - 4..OTA + fwSize]);
          var curCrc := StagedCrc(fwSize);
          isNewImageValid := curCrc == crcVal;
        }
        AcceptedIs(f, isNewImageValid);
        if isNewImageValid {
          var failed := CopyImage(fwSize);
          if failed.Some? {
            return failed.value;
          }
          CopyKeepsStaging(f, cells);
        }
        ghost var copied := cells;
        var alive := ClearStaging(fwSize);
        if reliable || clears {
          StepAfterClear(f, copied, cells, alive);
        }
        LooseAfterClear(f, copied, cells, alive);
        if Pending(f) {
          InstalledOnly(f, copied, cells);
        }
        if !alive {
          return PowerCut;
        }
      }
      var app := StartUpFlag(APP);
      out := if app then Rebooted else NoApp;
    }
  }

  /** Cells from addr on replaced by whatever an interrupted operation left. */
  function Damaged(cells: seq<byte>, addr: nat, len: nat, junk: seq<byte>): (r: seq<byte>)
    ensures |r| == |cells|
  {
    seq(|cells|, i requires 0 <= i < |cells| =>
      if addr <= i < addr + len && i - addr < |junk| then junk[i - addr] else cells[i])
  }

  /** The first n bytes of the staging area are erased, as far as the device goes. */
  predicate BlankFrom(cells: seq<byte>, n: nat)
  {
    forall i :: OTA <= i < OTA + n && i < |cells| ==> cells[i] == 0xff
  }

  /** The sectors of the staged image, and no others, are erased. */
  lemma WipeCovers(cells: seq<byte>, size: u32)
    ensures size <= IMAGE_MAX ==> size <= WipeSize(size) < size + 4096
    ensures |cells| == FLASH_SIZE && size <= IMAGE_MAX && BlankFrom(cells, WipeSize(size)) ==>
              Blank(cells, OTA, OTA + size)
  {
  }

  /** A boot that installs an image changes no more than the sectors it is copied to and those it was staged in. */
  predicate OnlyInstalled(f: seq<byte>, g: seq<byte>)
    requires |f| == FLASH_SIZE
  {
    |g| == FLASH_SIZE
    && forall i :: 0 <= i < FLASH_SIZE && !(APP <= i < APP + FwSize(f) + 4095) && !(OTA <= i < OTA + FwSize(f) + 4095) ==>
         f[i] == g[i]
  }

  lemma InstalledOnly(f: seq<byte>, copied: seq<byte>, g: seq<byte>)
    requires Pending(f) && Interrupted(f, copied)
    requires SameOutside(copied, g, OTA, OTA + if WipeSize(FwSize(f)) == 0 then 4096 else WipeSize(FwSize(f)))
    ensures FwSize(f) > 0 ==> OnlyInstalled(f, g)
  {
    hide Flagged, Accepted, FwSize;
    WipeCovers(f, FwSize(f));
  }

  lemma NothingBlank(cells: seq<byte>)
    ensures BlankFrom(cells, 0)
  {
  }

  lemma OneSectorMore(cells: seq<byte>, i: nat)
    requires i % 4096 == 0
    ensures BlankFrom(cells, i) ==> BlankFrom(Erased(cells, OTA + i), i + 4096)
  {
  }

  lemma WipeAligned(size: u32)
    ensures WipeSize(size) % 4096 == 0
  {
  }

  lemma FlagCleared(cells: seq<byte>)
    requires |cells| == FLASH_SIZE
    ensures !Flagged(Programmed(cells, OTA + FLAG_OFFSET, [0]), OTA)
  {
    var after := Programmed(cells, OTA + FLAG_OFFSET, [0]);
    assert after[OTA + 8..OTA + 12][0] == 0;
  }

  lemma FlagDamaged(cells: seq<byte>, left: byte)
    requires |cells| == FLASH_SIZE && Flagged(cells, OTA)
    ensures Flagged(cells[OTA + FLAG_OFFSET := left], OTA) ==> cells[OTA + FLAG_OFFSET := left] == cells
  {
    var after := cells[OTA + FLAG_OFFSET := left];
    assert after[OTA + 8..OTA + 12][0] == left && cells[OTA + 8..OTA + 12][0] == cells[OTA + 8];
  }

  lemma StillUnflagged(cells: seq<byte>, addr: nat)
    requires |cells| == FLASH_SIZE && !Flagged(cells, OTA) && addr % 4096 == 0
    ensures !Flagged(Erased(cells, addr), OTA)
  {
    var after := Erased(cells, addr);
    if addr == OTA {
      assert after[OTA + 8..OTA + 12][0] == 0xff;
    } else {
      assert after[OTA + 8..OTA + 12] == cells[OTA + 8..OTA + 12];
    }
  }

  lemma PageInSector(i: nat)
    requires i % 256 == 0 && i + 256 <= IMAGE_MAX
    ensures i + 256 <= SectorEnd(i) <= IMAGE_MAX
    ensures i % 4096 == 0 ==> SectorOf(APP + i) == APP + i && SectorEnd(i) == i + 4096
  {
  }

  lemma ErasedBlank(cells: seq<byte>, i: nat)
    requires |cells| == FLASH_SIZE && i % 4096 == 0 && i + 4096 <= IMAGE_MAX
    ensures Blank(Erased(cells, APP + i), APP + i, APP + i + 4096)
  {
  }

  lemma BlankPageProgrammed(cells: seq<byte>, buf: seq<byte>, i: nat)
    requires |cells| == FLASH_SIZE && |buf| == 256 && i + 256 <= SectorEnd(i) <= IMAGE_MAX
    requires Blank(cells, APP + i, APP + SectorEnd(i))
    ensures var after := Programmed(cells, APP + i, buf);
      after[APP + i..APP + i + 256] == buf && Blank(after, APP + i + 256, APP + SectorEnd(i))
  {
    ProgramBlank(cells, APP + i, buf);
  }

  lemma PendingBounds(f: seq<byte>)
    requires Pending(f)
    ensures |f| == FLASH_SIZE && FwSize(f) <= IMAGE_MAX
    ensures FwSize(f) <= PageUp(FwSize(f)) <= SectorUp(FwSize(f)) <= IMAGE_MAX
  {
    hide Flagged, FwSize, CoveredCrc;
    Rounding(FwSize(f));
  }

  lemma Rounding(n: nat)
    requires n <= IMAGE_MAX
    ensures n <= PageUp(n) <= SectorUp(n) <= IMAGE_MAX
  {
  }

  lemma PageFits(i: nat, size: nat)
    requires i % 256 == 0 && i < size <= IMAGE_MAX
    ensures i + 256 <= SectorEnd(i) <= SectorUp(size) <= IMAGE_MAX && i + 256 <= PageUp(size)
    ensures (i + 256) % 4096 != 0 ==> SectorEnd(i + 256) == SectorEnd(i)
  {
    var a, b, c, d := i / 256, size / 256, i / 4096, size / 4096;
    assert i == 256 * a && 256 * b <= size < 256 * b + 256;
    assert 4096 * c <= i < 4096 * c + 4096 && 4096 * d <= size < 4096 * d + 4096;
    assert i % 4096 <= 4096 - 256 by {
      assert i % 4096 == 256 * (a % 16);
    }
  }

  lemma LastPage(i: nat, size: nat)
    requires i % 256 == 0 && size <= i <= PageUp(size)
    ensures i == PageUp(size)
  {
  }

  lemma OnePageMore(f: seq<byte>, before: seq<byte>, after: seq<byte>, i: nat, size: nat)
    requires |f| == |before| == |after| == FLASH_SIZE && size <= IMAGE_MAX
    requires i + 256 <= SectorEnd(i) <= SectorUp(size) <= IMAGE_MAX
    requires SameOutside(f, before, APP, APP + SectorUp(size)) && before[APP..APP + i] == f[OTA..OTA + i]
    requires SameOutside(before, after, APP + i, APP + SectorEnd(i))
    requires after[APP + i..APP + i + 256] == before[OTA + i..OTA + i + 256]
    ensures SameOutside(f, after, APP, APP + SectorUp(size))
    ensures after[APP..APP + i + 256] == f[OTA..OTA + i + 256]
  {
    hide SectorEnd, SectorUp;
    assert after[APP..APP + i] == before[APP..APP + i];
    assert before[OTA + i..OTA + i + 256] == f[OTA + i..OTA + i + 256];
    assert after[APP..APP + i + 256] == after[APP..APP + i] + after[APP + i..APP + i + 256];
    assert f[OTA..OTA + i + 256] == f[OTA..OTA + i] + f[OTA + i..OTA + i + 256];
  }

  lemma AcceptedIs(f: seq<byte>, valid: bool)
    requires |f| == FLASH_SIZE
    requires valid <==> FwSize(f) <= IMAGE_MAX
                        && CoveredCrc(f, FwSize(f)) == Word32(f[OTA + FwSize(f) - 4..OTA + FwSize(f)])
    ensures valid <==> Accepted(f)
  {
  }

  lemma CopyKeepsStaging(f: seq<byte>, g: seq<byte>)
    requires Pending(f) && Interrupted(f, g)
    ensures Flagged(g, OTA) && FwSize(g) == FwSize(f) && Accepted(g)
    ensures g[OTA..OTA + IMAGE_MAX] == f[OTA..OTA + IMAGE_MAX]
  {
    PendingBounds(f);
    StagingDecides(f, g);
  }

  /** Flag, size and check read only the staging area, and four bytes before it for degenerate sizes. */
  lemma StagingDecides(f: seq<byte>, g: seq<byte>)
    requires |f| == |g| == FLASH_SIZE && FwSize(f) <= IMAGE_MAX
    requires f[OTA..OTA + IMAGE_MAX] == g[OTA..OTA + IMAGE_MAX]
    requires FwSize(f) < 4 ==> f[OTA - 4..OTA] == g[OTA - 4..OTA]
    ensures Flagged(f, OTA) == Flagged(g, OTA) && FwSize(f) == FwSize(g) && Accepted(f) == Accepted(g)
  {
    hide U32Of, Word32, Crc32.Fold;
    var n := FwSize(f);
    SameSlice(f, g, OTA + 8, OTA + 12);
    SameSlice(f, g, OTA + 0x18, OTA + 0x1c);
    if n < 4 {
      AcrossStart(f, n);
      AcrossStart(g, n);
    } else {
      SameSlice(f, g, OTA + n - 4, OTA + n);
      SameSlice(f, g, OTA, OTA + n - 4);
    }
  }

  lemma AcrossStart(f: seq<byte>, n: nat)
    requires |f| == FLASH_SIZE && n < 4
    ensures f[OTA + n - 4..OTA + n] == f[OTA - 4..OTA][n..4] + f[OTA..OTA + IMAGE_MAX][0..n]
  {
    SubSlice(f, OTA - 4, OTA, OTA + n - 4, OTA);
    SubSlice(f, OTA, OTA + IMAGE_MAX, OTA, OTA + n);
    assert f[OTA + n - 4..OTA + n] == f[OTA + n - 4..OTA] + f[OTA..OTA + n];
  }

  lemma SameSlice(f: seq<byte>, g: seq<byte>, lo: nat, hi: nat)
    requires |f| == |g| == FLASH_SIZE && OTA <= lo <= hi <= OTA + IMAGE_MAX
    requires f[OTA..OTA + IMAGE_MAX] == g[OTA..OTA + IMAGE_MAX]
    ensures f[lo..hi] == g[lo..hi]
  {
    SubSlice(f, OTA, OTA + IMAGE_MAX, lo, hi);
    SubSlice(g, OTA, OTA + IMAGE_MAX, lo, hi);
  }

  /** Whatever the clean-up leaves, cut short or not, is a legal end of the boot. */
  lemma StepAfterClear(f: seq<byte>, copied: seq<byte>, g: seq<byte>, alive: bool)
    requires |f| == FLASH_SIZE && Flagged(f, OTA)
    requires if Accepted(f) then Interrupted(f, copied) && Copied(f, copied) else copied == f
    requires SameOutside(copied, g, OTA, OTA + if WipeSize(FwSize(f)) == 0 then 4096 else WipeSize(FwSize(f)))
    requires alive ==> !Flagged(g, OTA)
    requires !alive && Flagged(g, OTA) ==> g == copied
    ensures !alive ==> BootStep(f, g, PowerCut)
    ensures alive ==> BootStep(f, g, if Flagged(g, APP) then Rebooted else NoApp)
  {
    hide Flagged, CoveredCrc, FwSize;
    if Accepted(f) {
      PendingBounds(f);
      WipeWithinStaging(FwSize(f));
      assert Copied(f, g) by {
        var n := PageUp(FwSize(f));
        assert g[APP..APP + n] == copied[APP..APP + n];
      }
    }
  }

  lemma LooseAfterClear(f: seq<byte>, copied: seq<byte>, g: seq<byte>, alive: bool)
    requires |f| == FLASH_SIZE && Flagged(f, OTA)
    requires if Accepted(f) then Interrupted(f, copied) && Copied(f, copied) else copied == f
    requires SameOutside(copied, g, OTA, OTA + if WipeSize(FwSize(f)) == 0 then 4096 else WipeSize(FwSize(f)))
    ensures !alive ==> LooseStep(f, g, PowerCut)
    ensures alive ==> LooseStep(f, g, if Flagged(g, APP) then Rebooted else NoApp)
  {
    hide Flagged, CoveredCrc, FwSize;
    if Accepted(f) {
      PendingBounds(f);
      WipeWithinStaging(FwSize(f));
      assert Copied(f, g) by {
        var n := PageUp(FwSize(f));
        assert g[APP..APP + n] == copied[APP..APP + n];
      }
    }
  }

  lemma WipeWithinStaging(size: u32)
    requires size <= IMAGE_MAX
    ensures WipeSize(size) <= IMAGE_MAX
  {
  }

  // ----- any number of boots -----

  /** How flash can look after some boots from f: staged image untouched, or installed and withdrawn. */
  predicate Reachable(f: seq<byte>, g: seq<byte>)
    requires |f| == FLASH_SIZE
  {
    |g| == FLASH_SIZE
    && if Pending(f) then Interrupted(f, g) || Installed(f, g)
       else if Flagged(f, OTA) then Discarded(f, g) || g == f
       else g == f
  }

  /** A boot that hands over to the application finds a whole image: the new one if one was pending, else the old. */
  predicate HandsOverWhole(f: seq<byte>, g: seq<byte>, out: Outcome)
    requires |f| == |g| == FLASH_SIZE
  {
    out.Rebooted? || out.NoApp? ==>
      !Flagged(g, OTA) && if Pending(f) then Copied(f, g) else g[APP..OTA] == f[APP..OTA]
  }

  lemma BootFromReachable(f: seq<byte>, g: seq<byte>, h: seq<byte>, out: Outcome)
    requires |f| == FLASH_SIZE && Reachable(f, g) && BootStep(g, h, out)
    ensures Reachable(f, h) && HandsOverWhole(f, h, out)
  {
    hide Flagged, Accepted, FwSize;
    if Pending(f) && Interrupted(f, g) {
      CopyKeepsStaging(f, g);
      PendingBounds(f);
      if Installed(g, h) {
        InstalledFromCopy(f, g, h);
      }
    }
  }

  lemma InstalledFromCopy(f: seq<byte>, g: seq<byte>, h: seq<byte>)
    requires Pending(f) && Interrupted(f, g) && Pending(g) && FwSize(g) == FwSize(f) && Installed(g, h)
    requires g[OTA..OTA + IMAGE_MAX] == f[OTA..OTA + IMAGE_MAX]
    ensures Installed(f, h)
  {
    hide Flagged, Accepted, FwSize;
    PendingBounds(f);
    var n := PageUp(FwSize(f));
    SameSlice(f, g, OTA, OTA + n);
  }

  /** However often power fails or a page does not verify, a staged image stays intact and flagged until it is
      installed, and the application only ever starts on the whole old or the whole new image. */
  lemma {:induction false} CrashSafeUpdate(fs: seq<seq<byte>>, outs: seq<Outcome>)
    requires |fs| == |outs| + 1 && (forall i :: 0 <= i < |fs| ==> |fs[i]| == FLASH_SIZE)
    requires forall i :: 0 <= i < |outs| ==> BootStep(fs[i], fs[i + 1], outs[i])
    ensures forall i :: 0 <= i < |fs| ==> Reachable(fs[0], fs[i])
    ensures forall i :: 0 <= i < |outs| ==> HandsOverWhole(fs[0], fs[i + 1], outs[i])
  {
    hide Reachable, BootStep, HandsOverWhole;
    var n := 0;
    StartReachable(fs[0]);
    while n < |outs|
      invariant 0 <= n <= |outs|
      invariant forall i :: 0 <= i <= n ==> Reachable(fs[0], fs[i])
      invariant forall i :: 0 <= i < n ==> HandsOverWhole(fs[0], fs[i + 1], outs[i])
    {
      BootFromReachable(fs[0], fs[n], fs[n + 1], outs[n]);
      n := n + 1;
    }
  }

  lemma StartReachable(f: seq<byte>)
    requires |f| == FLASH_SIZE
    ensures Reachable(f, f)
  {
  }

  // ----- boots whose clean-up may fail silently -----

  predicate SameStaging(f: seq<byte>, g: seq<byte>)
    requires |f| == |g| == FLASH_SIZE
  {
    f[OTA..OTA + IMAGE_MAX] == g[OTA..OTA + IMAGE_MAX]
  }

  /** Below the staging area nothing but the running area of the image has changed. */
  predicate SameBelow(f: seq<byte>, g: seq<byte>)
    requires |f| == |g| == FLASH_SIZE
  {
    forall i :: 0 <= i < OTA && !(APP <= i < APP + SectorUp(FwSize(f))) ==> f[i] == g[i]
  }

  /** What a failed clean-up leaves of a staged image does not pass for an image, unless it is untouched. */
  predicate NoFalseImage(f: seq<byte>, g: seq<byte>)
    requires |f| == |g| == FLASH_SIZE
  {
    Pending(g) ==> SameStaging(f, g)
  }

  /** A pending image is still there untouched, or in place and no longer pending; otherwise nothing below the staging
      area has changed and nothing is pending. */
  predicate LooselyReachable(f: seq<byte>, g: seq<byte>)
    requires |f| == FLASH_SIZE
  {
    |g| == FLASH_SIZE
    && if Pending(f) then SameBelow(f, g) && (SameStaging(f, g) || (!Pending(g) && Copied(f, g)))
       else f[..OTA] == g[..OTA] && !Pending(g)
  }

  lemma StagingPends(f: seq<byte>, g: seq<byte>)
    requires |f| == |g| == FLASH_SIZE && SameStaging(f, g) && Pending(f)
    requires FwSize(f) < 4 ==> f[OTA - 4..OTA] == g[OTA - 4..OTA]
    ensures Pending(g) && FwSize(g) == FwSize(f)
  {
    hide Flagged, Accepted, FwSize;
    PendingBounds(f);
    StagingDecides(f, g);
  }

  lemma BelowKeepsFour(f: seq<byte>, g: seq<byte>)
    requires |f| == |g| == FLASH_SIZE && SameBelow(f, g) && FwSize(f) < 4
    ensures f[OTA - 4..OTA] == g[OTA - 4..OTA]
  {
    hide FwSize;
    assert SectorUp(FwSize(f)) <= 4096;
  }

  /** A boot from untouched staging. */
  lemma LooseFromPending(f: seq<byte>, g: seq<byte>, h: seq<byte>, out: Outcome)
    requires |f| == |g| == FLASH_SIZE && Pending(f) && SameBelow(f, g) && SameStaging(f, g)
    requires LooseStep(g, h, out) && NoFalseImage(g, h)
    ensures LooselyReachable(f, h) && (out.Rebooted? || out.NoApp? ==> Copied(f, h))
  {
    hide Flagged, Accepted, FwSize;
    PendingBounds(f);
    if FwSize(f) < 4 {
      BelowKeepsFour(f, g);
    }
    StagingPends(f, g);
    if Landed(g, h) {
      SameSlice(f, g, OTA, OTA + PageUp(FwSize(f)));
    } else {
      assert h[OTA..OTA + IMAGE_MAX] == g[OTA..OTA + IMAGE_MAX];
    }
  }

  /** A boot with nothing pending. */
  lemma LooseFromSettled(g: seq<byte>, h: seq<byte>, out: Outcome)
    requires |g| == FLASH_SIZE && !Pending(g) && LooseStep(g, h, out) && NoFalseImage(g, h)
    ensures |h| == FLASH_SIZE && !Pending(h) && h[..OTA] == g[..OTA]
  {
    hide Flagged, Accepted, FwSize, WipeSize;
    assert h[..OTA] == g[..OTA];
    if Pending(h) {
      assert g[OTA - 4..OTA] == g[..OTA][OTA - 4..] == h[OTA - 4..OTA];
      StagingPends(h, g);
    }
  }

  lemma LooseBoot(f: seq<byte>, g: seq<byte>, h: seq<byte>, out: Outcome)
    requires |f| == FLASH_SIZE && LooselyReachable(f, g) && LooseStep(g, h, out) && NoFalseImage(g, h)
    ensures LooselyReachable(f, h)
    ensures out.Rebooted? || out.NoApp? ==> if Pending(f) then Copied(f, h) else h[APP..OTA] == f[APP..OTA]
  {
    hide Flagged, Accepted, FwSize, LooseStep, NoFalseImage, Pending;
    if Pending(f) && SameStaging(f, g) {
      LooseFromPending(f, g, h, out);
    } else {
      LooseFromSettled(g, h, out);
      if Pending(f) {
        PendingBounds(f);
        BelowCarries(f, g, h);
      } else {
        SubSlice(h, 0, OTA, APP, OTA);
        SubSlice(f, 0, OTA, APP, OTA);
      }
    }
  }

  lemma BelowCarries(f: seq<byte>, g: seq<byte>, h: seq<byte>)
    requires |f| == |g| == |h| == FLASH_SIZE && FwSize(f) <= PageUp(FwSize(f)) <= SectorUp(FwSize(f)) <= IMAGE_MAX
    requires SameBelow(f, g) && Copied(f, g) && h[..OTA] == g[..OTA]
    ensures SameBelow(f, h) && Copied(f, h)
  {
    hide FwSize, PageUp, SectorUp;
    var n := PageUp(FwSize(f));
    SubSlice(g, 0, OTA, APP, APP + n);
    SubSlice(h, 0, OTA, APP, APP + n);
    assert forall i :: 0 <= i < OTA ==> h[i] == h[..OTA][i] && g[i] == g[..OTA][i];
  }

  /** Even when the clean-up may fail silently, an application only ever starts on the whole old or the whole new
      image, as long as no damaged rest of an image passes the check. */
  lemma {:induction false} CrashSafeWithoutCleanUp(fs: seq<seq<byte>>, outs: seq<Outcome>)
    requires |fs| == |outs| + 1 && (forall i :: 0 <= i < |fs| ==> |fs[i]| == FLASH_SIZE)
    requires forall i :: 0 <= i < |outs| ==> LooseStep(fs[i], fs[i + 1], outs[i]) && NoFalseImage(fs[i], fs[i + 1])
    ensures forall i :: 0 <= i < |fs| ==> LooselyReachable(fs[0], fs[i])
    ensures forall i :: 0 <= i < |outs| && (outs[i].Rebooted? || outs[i].NoApp?) ==>
              if Pending(fs[0]) then Copied(fs[0], fs[i + 1]) else fs[i + 1][APP..OTA] == fs[0][APP..OTA]
  {
    hide LooselyReachable, LooseStep, NoFalseImage, Pending, Copied, FwSize;
    var n := 0;
    StartLoose(fs[0]);
    while n < |outs|
      invariant 0 <= n <= |outs|
      invariant forall i :: 0 <= i <= n ==> LooselyReachable(fs[0], fs[i])
      invariant forall i :: 0 <= i < n && (outs[i].Rebooted? || outs[i].NoApp?) ==>
        if Pending(fs[0]) then FwSize(fs[0]) <= IMAGE_MAX && Copied(fs[0], fs[i + 1])
        else fs[i + 1][APP..OTA] == fs[0][APP..OTA]
    {
      LooseBoot(fs[0], fs[n], fs[n + 1], outs[n]);
      PendingSize(fs[0]);
      n := n + 1;
    }
  }

  lemma PendingSize(f: seq<byte>)
    ensures Pending(f) ==> FwSize(f) <= IMAGE_MAX
  {
    hide FwSize, CoveredCrc;
  }

  lemma StartLoose(f: seq<byte>)
    requires |f| == FLASH_SIZE
    ensures LooselyReachable(f, f)
  {
  }

  /** While an update is pending it stays pending: the next boot would install the very same image. */
  lemma InterruptedStaysPending(f: seq<byte>, g: seq<byte>)
    requires Pending(f) && Interrupted(f, g)
    ensures Pending(g) && FwSize(g) == FwSize(f) && g[OTA..OTA + IMAGE_MAX] == f[OTA..OTA + IMAGE_MAX]
  {
    CopyKeepsStaging(f, g);
  }

  /** An installed image carries its own start-up flag, so the boot that installs it also starts it. */
  lemma InstalledStarts(f: seq<byte>, g: seq<byte>, out: Outcome)
    requires Pending(f) && FwSize(f) > 0 && BootStep(f, g, out) && (out.Rebooted? || out.NoApp?)
    ensures out.Rebooted?
  {
    hide Accepted, FwSize;
    PendingBounds(f);
    var n := PageUp(FwSize(f));
    assert n >= 256;
    SubSlice(g, APP, APP + n, APP + 8, APP + 12);
    SubSlice(f, OTA, OTA + n, OTA + 8, OTA + 12);
  }

  /** The clean-up of a rejected image follows its size field: it reaches past the staging area exactly for sizes
      over the limit, except for the topmost ones, whose rounding wraps to nothing. */
  lemma WipeReachesPast(size: u32)
    ensures WipeSize(size) > IMAGE_MAX <==> IMAGE_MAX < size < 0x1_0000_0000 - 4095
    ensures size >= 0x1_0000_0000 - 4095 ==> WipeSize(size) == 0
  {
    assert IMAGE_MAX == 4096 * 49;
    var sum := size + 4095;
    if sum < 0x1_0000_0000 {
      var k := sum / 4096;
      assert sum == 4096 * k + sum % 4096 && WipeSize(size) == 4096 * k;
    }
  }

  /** A size field below four makes the check compare the four bytes that end at that size with 0xFFFFFFFF. */
  lemma TinyImageAccepted(f: seq<byte>)
    requires |f| == FLASH_SIZE && FwSize(f) < 4
    ensures Accepted(f) <==> f[OTA + FwSize(f) - 4..OTA + FwSize(f)] == [0xff, 0xff, 0xff, 0xff]
  {
    hide FwSize;
    var s := f[OTA + FwSize(f) - 4..OTA + FwSize(f)];
    assert s == [s[0], s[1], s[2], s[3]];
    AllOnes(s[0], s[1], s[2], s[3]);
  }

  lemma AllOnes(a: byte, b: byte, c: byte, d: byte)
    ensures Word32([a, b, c, d]) == 0xffffffff <==> a == b == c == d == 0xff
  {
  }

  // ----- damaged images -----

  /** From four bytes on, the check is that the image ends with the CRC of the rest. */
  lemma AcceptedIffSealed(f: seq<byte>)
    requires |f| == FLASH_SIZE && 4 <= FwSize(f)
    ensures Accepted(f) <==>
              FwSize(f) <= IMAGE_MAX && Crc32.Sealed(Crc32Table.POLYNOMIAL, f[OTA..OTA + FwSize(f)])
  {
    hide FwSize, Word32, Crc32.Fold;
    var n := FwSize(f);
    if n <= IMAGE_MAX {
      var image := f[OTA..OTA + n];
      assert image[n - 4..] == f[OTA + n - 4..OTA + n] && image[..n - 4] == f[OTA..OTA + n - 4];
    }
  }

  /** An image damaged in up to four adjacent bytes, its CRC included, is not accepted, as long as its size field still
      says the same: no boot installs it, and one that hands over has withdrawn it. */
  lemma DamagedImageRejected(f: seq<byte>, g: seq<byte>, i: nat, h: seq<byte>, out: Outcome)
    requires |f| == FLASH_SIZE && Accepted(f) && 4 <= FwSize(f)
    requires SameOutside(f, g, OTA + i, OTA + i + 4) && f[OTA..OTA + FwSize(f)] != g[OTA..OTA + FwSize(f)]
    requires FwSize(g) == FwSize(f) && BootStep(g, h, out)
    ensures !Accepted(g) && h[APP..OTA] == g[APP..OTA]
    ensures out.Rebooted? || out.NoApp? ==> !Flagged(h, OTA)
  {
    hide FwSize, Word32, Crc32.Fold, CoveredCrc, Flagged;
    var n := FwSize(f);
    AcceptedIffSealed(f);
    AcceptedIffSealed(g);
    Crc32.SealBroken(Crc32Table.POLYNOMIAL, f[OTA..OTA + n], g[OTA..OTA + n], i);
  }
}
