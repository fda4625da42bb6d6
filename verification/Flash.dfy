/** Raw NOR flash: erasing a sector sets it to 0xFF, programming can only clear bits. */
module Flash {
  import opened Bytes

  const FLASH_SIZE: nat := 0x80000  // TLSR8258 with 512 kB
  const SECTOR_SIZE: nat := 4096
  const PAGE_SIZE: nat := 256

  function SectorOf(addr: nat): nat { addr - addr % 4096 }

  predicate InSector(addr: nat, i: nat)
  {
    SectorOf(addr) <= i < SectorOf(addr) + SECTOR_SIZE
  }

  /** Cells after erasing the sector that holds addr. */
  function Erased(cells: seq<byte>, addr: nat): (r: seq<byte>)
    ensures |r| == |cells|
  {
    seq(|cells|, i requires 0 <= i < |cells| => if InSector(addr, i) then 0xff else cells[i])
  }

  /** Cells after erasing n bytes from an address. */
  function Wiped(cells: seq<byte>, from: nat, n: nat): (r: seq<byte>)
    ensures |r| == |cells|
  {
    seq(|cells|, i requires 0 <= i < |cells| => if from <= i < from + n then 0xff else cells[i])
  }

  lemma NothingWiped(cells: seq<byte>, from: nat)
    ensures Wiped(cells, from, 0) == cells
  {
  }

  lemma WipeOneMore(cells: seq<byte>, from: nat, i: nat)
    requires from % 4096 == 0
    ensures Erased(Wiped(cells, from, 4096 * i), from + 4096 * i) == Wiped(cells, from, 4096 * (i + 1))
  {
    assert SectorOf(from + 4096 * i) == from + 4096 * i;
  }

  /** Cells after programming data at addr; whatever falls outside the device is lost. */
  function Programmed(cells: seq<byte>, addr: nat, data: seq<byte>): (r: seq<byte>)
    ensures |r| == |cells|
  {
    seq(|cells|, i requires 0 <= i < |cells| =>
      if addr <= i < addr + |data| then cells[i] & data[i - addr] else cells[i])
  }

  /** Position of cell i in a page burst that starts at addr. */
  function BurstIndex(addr: nat, i: int): nat { (i - addr) % 256 }

  /** What the chip's page-program command does: the address wraps inside its page. */
  function PageProgrammed(cells: seq<byte>, addr: nat, data: seq<byte>): (r: seq<byte>)
    requires |data| <= PAGE_SIZE
    ensures |r| == |cells|
  {
    var base := addr - addr % 256;
    seq(|cells|, i requires 0 <= i < |cells| =>
      if base <= i < base + PAGE_SIZE && BurstIndex(addr, i) < |data|
      then cells[i] & data[BurstIndex(addr, i)] else cells[i])
  }

  predicate Blank(cells: seq<byte>, from: nat, to: nat)
  {
    to <= |cells| && forall i :: from <= i < to ==> cells[i] == 0xff
  }

  predicate SameOutside(a: seq<byte>, b: seq<byte>, lo: nat, hi: nat)
  {
    |a| == |b| && forall i :: 0 <= i < |a| && !(lo <= i < hi) ==> a[i] == b[i]
  }

  lemma NoWrapInsidePage(cells: seq<byte>, addr: nat, data: seq<byte>)
    requires addr % 256 + |data| <= PAGE_SIZE
    ensures PageProgrammed(cells, addr, data) == Programmed(cells, addr, data)
  {
    var base := addr - addr % 256;
    forall i | base <= i < base + PAGE_SIZE
      ensures BurstIndex(addr, i) == if i < addr then i - addr + PAGE_SIZE else i - addr
    {
    }
  }

  lemma ProgramInPieces(cells: seq<byte>, addr: nat, data: seq<byte>, n: nat)
    requires n <= |data|
    ensures Programmed(Programmed(cells, addr, data[..n]), addr + n, data[n..]) == Programmed(cells, addr, data)
  {
  }

  /** One piece that stays inside a page extends what has been programmed so far. */
  lemma PieceWritten(cells: seq<byte>, addr: nat, data: seq<byte>, done: nat, n: nat)
    requires done + n <= |data| && (addr + done) % 256 + n <= PAGE_SIZE
    ensures PageProgrammed(Programmed(cells, addr, data[..done]), addr + done, data[done..done + n])
         == Programmed(cells, addr, data[..done + n])
  {
    NoWrapInsidePage(Programmed(cells, addr, data[..done]), addr + done, data[done..done + n]);
    var both := data[..done + n];
    assert both[..done] == data[..done] && both[done..] == data[done..done + n];
    ProgramInPieces(cells, addr, both, done);
  }

  /** Programming blank cells stores the data exactly. */
  lemma ProgramBlank(cells: seq<byte>, addr: nat, data: seq<byte>)
    requires Blank(cells, addr, addr + |data|)
    ensures Programmed(cells, addr, data)[addr..addr + |data|] == data
  {
  }

  /** Programming erased cells right behind a prefix extends the prefix. */
  lemma PrefixExtends(cells: seq<byte>, base: nat, at: nat, data: seq<byte>, hi: nat)
    requires base <= at && at + |data| <= hi <= |cells| && Blank(cells, at, hi)
    ensures var after := Programmed(cells, at, data);
      after[base..at + |data|] == cells[base..at] + data && Blank(after, at + |data|, hi)
  {
    ProgramBlank(cells, at, data);
    var after := Programmed(cells, at, data);
    assert after[base..at] == cells[base..at];
    assert after[base..at + |data|] == after[base..at] + after[at..at + |data|];
  }

  lemma BlankWithin(cells: seq<byte>, lo: nat, hi: nat)
    requires Blank(cells, lo, hi)
    ensures hi <= |cells|
  {
  }

  /** A slice of a slice. */
  lemma SubSlice(f: seq<byte>, from: nat, to: nat, lo: nat, hi: nat)
    requires from <= lo <= hi <= to <= |f|
    ensures f[lo..hi] == f[from..to][lo - from..hi - from]
  {
    var s := f[from..to];
    forall i | 0 <= i < hi - lo
      ensures f[lo..hi][i] == s[lo - from..hi - from][i]
    {
      assert s[lo - from..hi - from][i] == s[lo - from + i];
    }
  }

  /** The device behind the drivers, with a record of every sector erase. */
  class Chip {
    var cells: seq<byte>
    ghost var erasures: seq<nat>

    constructor (content: seq<byte>)
      ensures cells == content && erasures == []
    {
      cells := content;
      erasures := [];
    }

    /** flash_erase / flash_erase_sector */
    method Erase(addr: nat)
      modifies this
      ensures cells == Erased(old(cells), addr)
      ensures erasures == old(erasures) + [addr]
    {
      cells := Erased(cells, addr);
      erasures := erasures + [addr];
    }

    /** The erase loops over whole sectors. */
    method EraseSectors(from: nat, sectors: nat)
      requires from % 4096 == 0
      modifies this
      ensures cells == Wiped(old(cells), from, 4096 * sectors)
    {
      NothingWiped(cells, from);
      for i := 0 to sectors
        invariant cells == Wiped(old(cells), from, 4096 * i)
      {
        WipeOneMore(old(cells), from, i);
        Erase(from + 4096 * i);
      }
    }

    /** flash_write / flash_write_page: cut at page ends, so the chip's address never wraps. */
    method Write(addr: nat, buf: seq<byte>)
      modifies this`cells
      ensures cells == Programmed(old(cells), addr, buf)
    {
      var done := 0;
      while done < |buf|
        invariant done <= |buf|
        invariant cells == Programmed(old(cells), addr, buf[..done])
      {
        var room := PAGE_SIZE - (addr + done) % 256;
        var n := if |buf| - done > room then room else |buf| - done;
        var piece := buf[done..done + n];
        PieceWritten(old(cells), addr, buf, done, n);
        cells := PageProgrammed(cells, addr + done, piece);
        done := done + n;
      }
      assert buf[..done] == buf;
    }

    /** flash_read / flash_read_page */
    method Read(addr: nat, len: nat) returns (buf: seq<byte>)
      requires addr + len <= |cells|
      ensures buf == cells[addr..addr + len]
    {
      buf := cells[addr..addr + len];
    }
  }
}
