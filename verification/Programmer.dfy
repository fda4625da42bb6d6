/** tools/TlsrPgm.py: writing a stream to flash in pieces, and reading flash back, on a device without errors. */
module Programmer {
  import opened Bytes
  import opened Flash

  const NO_SECTOR: nat := 0xffffffff
  const MAX_BUF_READ_SIZE: nat := 1024

  function RoundUp256(n: nat): nat { if n % 256 == 0 then n else n - n % 256 + 256 }

  /** Bytes taken from the stream: whole pieces until size is reached, or all there is. */
  function Used(stream: seq<byte>, size: nat): (r: seq<byte>)
  {
    if |stream| <= RoundUp256(size) then stream else stream[..RoundUp256(size)]
  }

  /** Every sector that starts inside the range is erased; a sector that starts before it is not. */
  function EraseRange(cells: seq<byte>, from: nat, to: nat): (r: seq<byte>)
    ensures |r| == |cells|
  {
    seq(|cells|, i requires 0 <= i < |cells| => if from <= SectorOf(i) < to then 0xff else cells[i])
  }

  /** Flash after writing data: first erased as needed, then programmed. */
  function Burned(cells: seq<byte>, offset: nat, data: seq<byte>, erase: bool): (r: seq<byte>)
    ensures |r| == |cells|
  {
    Programmed(if erase then EraseRange(cells, offset, offset + |data|) else cells, offset, data)
  }

  class Programmer {
    const chip: Chip

    constructor (chip: Chip)
      ensures this.chip == chip
    {
      this.chip := chip;
    }

    /** WriteBlockFlash at a page boundary. */
    method WriteBlockFlash(stream: seq<byte>, offset: nat, size: nat, erase: bool) returns (ok: bool)
      requires offset % 256 == 0 && offset + size <= 0x1000000
      modifies chip
      ensures ok <==> size <= |stream|
      ensures var done := Burned(old(chip.cells), offset, Used(stream, size), erase);
        chip.cells == if ok then done else Prepared(done, offset + |stream|, erase)
    {
      hide Burned, Erased, Programmed, Prepared, RoundUp256, SectorOf;
      var wrsize := 256;
      var erasec := if erase && offset % 4096 != 0 then SectorOf(offset) else NO_SECTOR;
      var at := offset;
      var left: int := size;
      ghost var pos := 0;
      var rest := stream;
      StartBurned(chip.cells, offset, erase);
      PiecesNeeded(size);
      assert stream[..0] == [];
      while left > 0
        invariant 0 <= pos <= |stream| && at == offset + pos && left == size - pos && rest == stream[pos..]
        invariant pos <= RoundUp256(size) && (wrsize == 256 || (pos == |stream| && wrsize < 256))
        invariant wrsize == 256 ==> pos % 256 == 0
        invariant chip.cells == Burned(old(chip.cells), offset, stream[..pos], erase)
        invariant erase ==> erasec == LastSector(offset, pos)
        decreases left
      {
        at := at % 0x1000000;
        PreparedWithoutErase(chip.cells, at);
        if erase {
          erasec := PrepareSector(at, erasec, offset, pos);
        }
        var data := if |rest| < wrsize then rest else rest[..wrsize];
        wrsize := |data|;
        if wrsize == 0 {
          assert stream[..pos] == stream == Used(stream, size);
          return false;
        }
        WritePiece(at, data);
        OnePieceMore(old(chip.cells), offset, stream[..pos], data, erase);
        SamePageSector(at, wrsize);
        assert stream[..pos] + data == stream[..pos + wrsize];
        at := at + wrsize;
        left := left - wrsize;
        pos := pos + wrsize;
        rest := rest[wrsize..];
      }
      AllUsed(stream, size, pos);
      ok := true;
    }

    /** The erase at the first piece of each sector. */
    method PrepareSector(at: nat, erasec: nat, ghost offset: nat, ghost pos: nat) returns (wrsec: nat)
      requires at == offset + pos < 0x1000000 && offset % 256 == 0 && erasec == LastSector(offset, pos)
      modifies chip
      ensures chip.cells == Prepared(old(chip.cells), at, true) && wrsec == SectorOf(at)
    {
      wrsec := SectorOf(at);
      SectorStep(at);
      if erasec != wrsec {
        chip.Erase(at);
      }
    }

    /** Programming a piece unless it is all 0xFF. */
    method WritePiece(at: nat, data: seq<byte>)
      modifies chip`cells
      ensures chip.cells == Programmed(old(chip.cells), at, data)
    {
      var blank := AllBlank(data);
      if !blank {
        chip.Write(at, data);
      } else {
        ProgramNothing(chip.cells, at, data);
      }
    }

    /** ReadBlockFlash */
    method ReadBlockFlash(offset: nat, size: nat) returns (stream: seq<byte>)
      requires offset + size <= |chip.cells| <= 0x1000000 && offset < 0x1000000
      ensures stream == chip.cells[offset..offset + size]
    {
      var at := offset % 0x1000000;
      var left := size;
      var rdsize := MAX_BUF_READ_SIZE;
      stream := [];
      while left > 0
        invariant 0 <= left <= size && at == offset + size - left && rdsize > 0
        invariant stream == chip.cells[offset..at]
      {
        if rdsize > left {
          rdsize := left;
        }
        var data := chip.Read(at, rdsize);
        stream := stream + data;
        left := left - rdsize;
        at := at + rdsize;
      }
    }
  }

  /** The search for a byte worth writing. */
  method AllBlank(data: seq<byte>) returns (blank: bool)
    ensures blank <==> forall i :: 0 <= i < |data| ==> data[i] == 0xff
  {
    for i := 0 to |data|
      invariant forall k :: 0 <= k < i ==> data[k] == 0xff
    {
      if data[i] != 0xff {
        return false;
      }
    }
    blank := true;
  }

  /** Skipping an all-0xFF piece is the same as programming it. */
  lemma ProgramNothing(cells: seq<byte>, at: nat, data: seq<byte>)
    requires forall i :: 0 <= i < |data| ==> data[i] == 0xff
    ensures Programmed(cells, at, data) == cells
  {
    var after := Programmed(cells, at, data);
    forall i | 0 <= i < |cells|
      ensures after[i] == cells[i]
    {
      AndOnes(cells[i]);
    }
  }

  lemma AndOnes(b: byte)
    ensures b & 0xff == b
  {
  }

  lemma StartBurned(cells: seq<byte>, offset: nat, erase: bool)
    ensures Burned(cells, offset, [], erase) == cells
  {
  }

  /** The sector known to be erased, or not to be erased, after pos bytes. */
  function LastSector(offset: nat, pos: nat): nat
  {
    if pos > 0 then SectorOf(offset + pos - 1) else if offset % 4096 != 0 then SectorOf(offset) else NO_SECTOR
  }

  lemma SamePageSector(at: nat, n: nat)
    requires at % 256 == 0 && 0 < n <= 256
    ensures SectorOf(at + n - 1) == SectorOf(at)
  {
    var q := at / 256;
    assert at == 256 * q && at % 4096 == 256 * (q % 16);
  }

  lemma PreparedWithoutErase(cells: seq<byte>, at: nat)
    ensures Prepared(cells, at, false) == cells
  {
  }

  lemma AllUsed(stream: seq<byte>, size: nat, pos: nat)
    requires size <= pos <= |stream| && pos <= RoundUp256(size) && (pos % 256 == 0 || pos == |stream|)
    ensures stream[..pos] == Used(stream, size)
  {
    assert stream[..|stream|] == stream;
  }

  lemma PiecesNeeded(size: nat)
    ensures size <= RoundUp256(size) < size + 256 && RoundUp256(size) % 256 == 0
  {
  }

  lemma SectorStep(a: nat)
    ensures a > 0 ==> (SectorOf(a - 1) != SectorOf(a) <==> a % 4096 == 0)
  {
    if a > 0 && a % 4096 != 0 {
      assert (a - 1) % 4096 == a % 4096 - 1;
    }
  }

  /** What the device holds before the next piece is programmed. */
  function Prepared(before: seq<byte>, at: nat, erase: bool): seq<byte>
  {
    if erase && at % 4096 == 0 then Erased(before, at) else before
  }

  lemma OnePieceMore(cells: seq<byte>, offset: nat, done: seq<byte>, data: seq<byte>, erase: bool)
    requires offset % 256 == 0 && |done| % 256 == 0 && 0 < |data| <= 256
    ensures Programmed(Prepared(Burned(cells, offset, done, erase), offset + |done|, erase), offset + |done|, data)
         == Burned(cells, offset, done + data, erase)
  {
    hide Programmed, Erased, EraseRange;
    var at := offset + |done|;
    var base := if erase then EraseRange(cells, offset, at + |data|) else cells;
    if erase {
      EraseOneMore(cells, offset, at, |data|);
      if at % 4096 == 0 {
        EraseBehind(EraseRange(cells, offset, at), offset, done);
      }
    }
    var all := done + data;
    assert all[..|done|] == done && all[|done|..] == data;
    ProgramInPieces(base, offset, all, |done|);
  }

  lemma EraseOneMore(cells: seq<byte>, offset: nat, at: nat, n: nat)
    requires offset <= at && at % 256 == 0 && 0 < n <= 256
    ensures EraseRange(cells, offset, at + n) == Prepared(EraseRange(cells, offset, at), at, true)
  {
    forall i: nat
      ensures at <= SectorOf(i) < at + n <==> at % 4096 == 0 && InSector(at, i)
    {
      SectorStarts(i, at, n);
    }
  }

  /** A page holds the start of a sector only if it is that start. */
  lemma SectorStarts(i: nat, at: nat, n: nat)
    requires at % 256 == 0 && 0 < n <= 256
    ensures at <= SectorOf(i) < at + n <==> at % 4096 == 0 && InSector(at, i)
  {
    var s := SectorOf(i);
    assert s % 256 == 0 by {
      SectorAligned(i);
    }
    if at <= s < at + n {
      assert s == at;
    }
    if at % 4096 == 0 {
      SectorUnique(i, at);
    }
  }

  lemma SectorAligned(i: nat)
    ensures SectorOf(i) % 4096 == 0 && SectorOf(i) % 256 == 0
  {
  }

  lemma SectorUnique(i: nat, at: nat)
    requires at % 4096 == 0
    ensures InSector(at, i) <==> SectorOf(i) == at
  {
  }

  /** Erasing a later sector does not meet what has been programmed before it. */
  lemma EraseBehind(cells: seq<byte>, offset: nat, done: seq<byte>)
    requires (offset + |done|) % 4096 == 0
    ensures Erased(Programmed(cells, offset, done), offset + |done|)
         == Programmed(Erased(cells, offset + |done|), offset, done)
  {
    assert SectorOf(offset + |done|) == offset + |done|;
  }

  // ----- what has been written can be read back -----

  /** Bytes of the first sector that are written without having been erased. */
  function Unerased(offset: nat, data: seq<byte>): (r: nat)
    ensures r <= |data| && (offset % 4096 == 0 ==> r == 0)
  {
    var head := if offset % 4096 == 0 then 0 else 4096 - offset % 4096;
    if head < |data| then head else |data|
  }

  /** At a sector boundary what was written reads back, and anywhere else it does so exactly if the part that lands
      in the unerased first sector needs no bit raised. */
  lemma WriteReadsBack(cells: seq<byte>, offset: nat, data: seq<byte>)
    requires offset % 256 == 0 && offset + |data| <= |cells|
    ensures var n := Unerased(offset, data);
      Burned(cells, offset, data, true)[offset..offset + |data|] == data
      <==> forall i :: 0 <= i < n ==> cells[offset + i] & data[i] == data[i]
    ensures offset % 4096 == 0 ==> Burned(cells, offset, data, true)[offset..offset + |data|] == data
  {
    var after := Burned(cells, offset, data, true);
    var n := Unerased(offset, data);
    forall i | 0 <= i < |data|
      ensures after[offset + i] == if i < n then cells[offset + i] & data[i] else data[i]
    {
      BurnedByte(cells, offset, data, i);
    }
    hide Burned;
    var back := after[offset..offset + |data|];
    if back == data {
      assert forall i :: 0 <= i < n ==> back[i] == after[offset + i];
    }
  }

  lemma BurnedByte(cells: seq<byte>, offset: nat, data: seq<byte>, i: nat)
    requires offset % 256 == 0 && offset + |data| <= |cells| && i < |data|
    ensures Burned(cells, offset, data, true)[offset + i]
         == if i < Unerased(offset, data) then cells[offset + i] & data[i] else data[i]
  {
    var a := offset + i;
    FirstSector(offset, i);
    AndOnes(data[i]);
    OnesAnd(data[i]);
  }

  lemma FirstSector(offset: nat, i: nat)
    ensures offset <= SectorOf(offset + i) <==> offset % 4096 == 0 || i >= 4096 - offset % 4096
  {
  }

  lemma OnesAnd(b: byte)
    ensures 0xff & b == b
  {
  }

  /** Sectors that hold no written byte keep their content; the rest of an erased sector reads 0xFF. */
  lemma OtherSectorsKept(cells: seq<byte>, offset: nat, data: seq<byte>, i: nat)
    requires offset % 256 == 0 && offset + |data| <= |cells| && i < |cells| && !(offset <= i < offset + |data|)
    ensures SectorOf(i) + 4096 <= offset || SectorOf(i) >= offset + |data| || SectorOf(i) < offset ==>
              Burned(cells, offset, data, true)[i] == cells[i]
    ensures offset <= SectorOf(i) < offset + |data| ==> Burned(cells, offset, data, true)[i] == 0xff
  {
  }

  /** Without erasing, only cleared bits survive. */
  lemma WriteWithoutErase(cells: seq<byte>, offset: nat, data: seq<byte>)
    requires offset + |data| <= |cells|
    ensures Burned(cells, offset, data, false)[offset..offset + |data|] == data
            <==> forall i :: 0 <= i < |data| ==> cells[offset + i] & data[i] == data[i]
  {
    var after := Burned(cells, offset, data, false);
    var back := after[offset..offset + |data|];
    assert forall i :: 0 <= i < |data| ==> back[i] == after[offset + i] == cells[offset + i] & data[i];
  }

  /** A file is written whole: as many bytes as it has, when size is its length. */
  lemma WholeFileUsed(stream: seq<byte>, size: nat)
    ensures size == |stream| ==> Used(stream, size) == stream
    ensures size <= |stream| ==> size <= |Used(stream, size)| <= RoundUp256(size)
    ensures |stream| > size ==> (|Used(stream, size)| == size <==> size % 256 == 0)
  {
  }
}
