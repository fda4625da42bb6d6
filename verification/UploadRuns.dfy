/** Whole upload sessions: what the staging area holds, when it can boot, and how long a session can last. */
module UploadRuns {
  import opened Bytes
  import opened Flash
  import opened BootImage
  import opened Upload

  /** State after a run of events. */
  function After(s: State, es: seq<Event>): State
    decreases |es|
  {
    if es == [] then s else Next(After(s, es[..|es| - 1]), es[|es| - 1])
  }

  lemma AfterOneMore(s: State, es: seq<Event>, e: Event)
    ensures After(s, es + [e]) == Next(After(s, es), e)
  {
    assert (es + [e])[..|es|] == es;
  }

  lemma {:induction false} AfterAppend(s: State, a: seq<Event>, b: seq<Event>)
    ensures After(s, a + b) == After(After(s, a), b)
    decreases |b|
  {
    if b == [] {
      assert a + b == a;
    } else {
      assert (a + b)[..|a + b| - 1] == a + b[..|b| - 1];
      AfterAppend(s, a, b[..|b| - 1]);
    }
  }

  lemma StepSound(s: State, e: Event)
    requires Sound(s)
    ensures Sound(Next(s, e))
  {
    hide Programmed, Wiped;
  }

  lemma {:induction false} AlwaysSound(s: State, es: seq<Event>)
    requires Sound(s)
    ensures Sound(After(s, es))
    decreases |es|
  {
    if es != [] {
      AlwaysSound(s, es[..|es| - 1]);
      StepSound(After(s, es[..|es| - 1]), es[|es| - 1]);
    }
  }

  // ----- staged bytes -----

  /** What accepted blocks amount to: the first one masked, the others as they came. */
  function Staged(blocks: seq<seq<byte>>): seq<byte>
  {
    if blocks == [] then []
    else if |blocks| == 1 then (if |blocks[0]| > 8 then blocks[0][8 := 0xff] else blocks[0])
    else Staged(blocks[..|blocks| - 1]) + blocks[|blocks| - 1]
  }

  function Joined(blocks: seq<seq<byte>>): seq<byte>
  {
    if blocks == [] then [] else Joined(blocks[..|blocks| - 1]) + blocks[|blocks| - 1]
  }

  function NextBlocks(s: State, e: Event, blocks: seq<seq<byte>>): seq<seq<byte>>
  {
    if Begins(s, e) then [] else if Taken(s, e) then blocks + [e.payload[..e.len]] else blocks
  }

  /** Blocks accepted since the last session began. */
  function Blocks(s: State, es: seq<Event>): seq<seq<byte>>
    decreases |es|
  {
    if es == [] then []
    else NextBlocks(After(s, es[..|es| - 1]), es[|es| - 1], Blocks(s, es[..|es| - 1]))
  }

  /** The staging area of a running session holds the accepted blocks and is erased behind them. */
  predicate Shaped(s: State, blocks: seq<seq<byte>>)
  {
    Sound(s)
    && (Receiving(s) ==>
          |Staged(blocks)| == s.up.offset && (s.up.offset == 0 <==> blocks == [])
          && s.cells[OTA..OTA + s.up.offset] == Staged(blocks)
          && Blank(s.cells, OTA + s.up.offset, OTA + SectorUp(s.up.total)))
  }

  lemma StagedOneMore(blocks: seq<seq<byte>>, b: seq<byte>)
    ensures Staged(blocks + [b]) == if blocks == [] then (if |b| > 8 then b[8 := 0xff] else b) else Staged(blocks) + b
  {
    assert (blocks + [b])[..|blocks|] == blocks;
  }

  lemma MaskedPrefix(payload: Payload, len: nat)
    requires len <= 40
    ensures Masked(0, payload)[..len] == if len > 8 then payload[..len][8 := 0xff] else payload[..len]
  {
  }

  lemma SectorUpCovers(n: nat)
    requires n <= IMAGE_MAX
    ensures n <= SectorUp(n) <= IMAGE_MAX
    ensures n > 0 ==> SectorUp(n) >= 4096
  {
  }

  lemma TakenExtends(s: State, e: Event, blocks: seq<seq<byte>>)
    requires Shaped(s, blocks) && Receiving(s) && Taken(s, e) && s.up.offset + e.len <= s.up.total
    ensures var o := s.up.offset + e.len; var cells := Programs(s, e); var staged := Staged(NextBlocks(s, e, blocks));
      |staged| == o && cells[OTA..OTA + o] == staged && Blank(cells, OTA + o, OTA + SectorUp(s.up.total))
  {
    hide Programmed, Blank, Staged, SectorUp, Masked;
    SectorUpCovers(s.up.total);
    var o, data := s.up.offset, Masked(e.offset, e.payload)[..e.len];
    BlankWithin(s.cells, OTA + o, OTA + SectorUp(s.up.total));
    PrefixExtends(s.cells, OTA, OTA + o, data, OTA + SectorUp(s.up.total));
    NextStaged(s, e, blocks);
    if blocks == [] {
      assert s.cells[OTA..OTA] + data == data;
    }
  }

  lemma NextStaged(s: State, e: Event, blocks: seq<seq<byte>>)
    requires Taken(s, e) && (s.up.offset == 0 <==> blocks == [])
    ensures Staged(NextBlocks(s, e, blocks))
         == (if blocks == [] then [] else Staged(blocks)) + Masked(e.offset, e.payload)[..e.len]
  {
    StagedOneMore(blocks, e.payload[..e.len]);
    MaskedPrefix(e.payload, e.len);
    hide Staged;
    if blocks == [] {
      assert [] + Masked(0, e.payload)[..e.len] == Masked(0, e.payload)[..e.len];
    }
  }

  lemma BeginBlank(cells: seq<byte>, n: nat)
    requires |cells| == FLASH_SIZE && n <= IMAGE_MAX
    ensures Blank(Wiped(cells, OTA, SectorUp(n)), OTA, OTA + SectorUp(n))
  {
    SectorUpCovers(n);
  }

  lemma StepShaped(s: State, e: Event, blocks: seq<seq<byte>>)
    requires Shaped(s, blocks)
    ensures Shaped(Next(s, e), NextBlocks(s, e, blocks))
  {
    StepSound(s, e);
    hide Programmed, Wiped, Staged, Blank, SectorUp;
    if Begins(s, e) {
      BeginBlank(s.cells, e.size);
      NothingStaged(s.cells);
    } else if Receiving(s) && Taken(s, e) && s.up.offset + e.len < s.up.total {
      TakenExtends(s, e, blocks);
    }
  }

  lemma NothingStaged(cells: seq<byte>)
    requires |cells| == FLASH_SIZE
    ensures Staged([]) == []
  {
  }

  /** Over every run the staging area is exactly the accepted blocks, erased from there to the end of its sectors. */
  lemma {:induction false} StagingHoldsBlocks(s: State, es: seq<Event>)
    requires Sound(s) && s.up == IDLE
    ensures Shaped(After(s, es), Blocks(s, es))
    decreases |es|
  {
    if es != [] {
      StagingHoldsBlocks(s, es[..|es| - 1]);
      StepShaped(After(s, es[..|es| - 1]), es[|es| - 1], Blocks(s, es[..|es| - 1]));
    }
  }

  // ----- the start-up flag -----

  lemma {:induction false} StagedMasksFirst(blocks: seq<seq<byte>>)
    requires blocks != []
    ensures |Joined(blocks)| == |Staged(blocks)| >= |blocks[0]|
    ensures Staged(blocks) == if |blocks[0]| > 8 then Joined(blocks)[8 := 0xff] else Joined(blocks)
  {
    var n := |blocks| - 1;
    if n == 0 {
      assert Joined(blocks[..0]) == [];
      assert Joined(blocks) == blocks[0];
    } else {
      StagedMasksFirst(blocks[..n]);
    }
  }

  /** A partial image carries the start-up flag exactly if the first block ended before the flag. */
  lemma PartialFlagIff(s: State, blocks: seq<seq<byte>>)
    requires Shaped(s, blocks) && Receiving(s)
    ensures |Joined(blocks)| == s.up.offset
    ensures Flagged(s.cells, OTA) <==>
              |Joined(blocks)| >= 12 && |blocks[0]| <= 8 && Joined(blocks)[8..12] == START_FLAG
  {
    var o := s.up.offset;
    SectorUpCovers(s.up.total);
    if o > 0 {
      StagedMasksFirst(blocks);
    }
    if o < 12 {
      assert s.cells[OTA + 8..OTA + 12][3] == 0xff;
    } else {
      StagedSlice(s.cells, o);
      hide Staged, Joined, Blank;
      if |blocks[0]| > 8 {
        assert Staged(blocks)[8..12][0] == 0xff;
      }
    }
  }

  lemma StagedSlice(cells: seq<byte>, o: nat)
    requires |cells| == FLASH_SIZE && 12 <= o <= IMAGE_MAX
    ensures cells[OTA + 8..OTA + 12] == cells[OTA..OTA + o][8..12]
  {
  }

  /** The first block reaches past the flag byte, unless the image ends before it. */
  predicate Careful(s: State, e: Event)
  {
    Taken(s, e) && s.up.offset == 0 ==> e.len > 8 || e.len >= s.up.total
  }

  /** A peer that answers with as many bytes as it was asked for. */
  predicate AsRequested(s: State, e: Event)
  {
    Taken(s, e) && s.up.offset <= s.up.total ==> e.len == RequestLen(s.up)
  }

  predicate AllCareful(s: State, es: seq<Event>)
  {
    forall i :: 0 <= i < |es| ==> Careful(After(s, es[..i]), es[i])
  }

  /** Whether the staging area holds the last image it was erased for, or was never erased and flagged from the start. */
  function Finished(s: State, es: seq<Event>): bool
    requires |s.cells| == FLASH_SIZE
    decreases |es|
  {
    if es == [] then Flagged(s.cells, OTA) else
      var before := After(s, es[..|es| - 1]);
      var e := es[|es| - 1];
      if Begins(before, e) && e.size > 0 then false
      else Completes(before, e) || Finished(s, es[..|es| - 1])
  }

  predicate FlagHeld(s: State)
  {
    Sound(s) && (Receiving(s) ==> s.cells[OTA + 8] == 0xff && (s.up.offset == 0 || s.up.offset > 8))
  }

  lemma FirstByteDecides(cells: seq<byte>)
    requires |cells| == FLASH_SIZE && Flagged(cells, OTA)
    ensures cells[OTA + 8] == 0x4b
  {
    assert cells[OTA + 8..OTA + 12][0] == cells[OTA + 8];
  }

  lemma StepHoldsFlag(s: State, e: Event)
    requires FlagHeld(s) && Careful(s, e)
    ensures FlagHeld(Next(s, e))
    ensures Receiving(Next(s, e)) ==> !Flagged(Next(s, e).cells, OTA)
    ensures !Completes(s, e) && Flagged(Next(s, e).cells, OTA) ==>
              !Receiving(s) && Next(s, e).cells == s.cells && !(Begins(s, e) && e.size > 0)
  {
    StepSound(s, e);
    var t := Next(s, e);
    if Begins(s, e) {
      SectorUpCovers(e.size);
      if e.size == 0 {
        assert t.cells == s.cells;
      } else {
        assert t.cells[OTA + 8] == 0xff;
      }
    }
    if Taken(s, e) && !Completes(s, e) {
      assert t.cells[OTA + 8] == 0xff;
    }
    if Flagged(t.cells, OTA) {
      FirstByteDecides(t.cells);
    }
  }

  /** With every first block long enough, nothing is bootable while it arrives, and what is bootable afterwards
      is a completed upload: partial, timed-out and overrun uploads never carry the flag. */
  lemma {:induction false} NoPartialImageBoots(s: State, es: seq<Event>)
    requires Sound(s) && s.up == IDLE && AllCareful(s, es)
    ensures FlagHeld(After(s, es))
    ensures Receiving(After(s, es)) ==> !Flagged(After(s, es).cells, OTA)
    ensures Flagged(After(s, es).cells, OTA) ==> Finished(s, es)
    decreases |es|
  {
    if es != [] {
      var init, e := es[..|es| - 1], es[|es| - 1];
      assert AllCareful(s, init) by {
        assert forall i :: 0 <= i < |init| ==> init[..i] == es[..i];
      }
      NoPartialImageBoots(s, init);
      assert es[..|es| - 1] == init;
      hide Careful, Completes, Flagged, FlagHeld, Next, Begins;
      StepHoldsFlag(After(s, init), e);
    }
  }

  lemma RequestedIsCareful(s: State, e: Event)
    requires Sound(s) && AsRequested(s, e)
    ensures Careful(s, e)
  {
  }

  /** A program operation cut short: some of the bits it clears are cleared, and no others. */
  predicate PartlyProgrammed(before: seq<byte>, after: seq<byte>, cells: seq<byte>)
  {
    |before| == |after| == |cells|
    && forall i :: 0 <= i < |cells| ==> cells[i] & after[i] == after[i] && before[i] & cells[i] == cells[i]
  }

  /** What a power cut during an event can leave: sectors erased up to some point, a block or the flag byte half
      programmed. */
  ghost predicate CutShort(s: State, e: Event, cells: seq<byte>)
  {
    cells == s.cells
    || (Begins(s, e) && exists sectors: nat :: cells == Wiped(s.cells, OTA, 4096 * sectors))
    || (Taken(s, e) && PartlyProgrammed(s.cells, Programs(s, e), cells))
    || (Completes(s, e) && PartlyProgrammed(Programs(s, e), Next(s, e).cells, cells))
  }

  lemma CutLeavesNoFlag(s: State, e: Event, cells: seq<byte>)
    requires FlagHeld(s) && Careful(s, e) && CutShort(s, e, cells)
    ensures |cells| == FLASH_SIZE
    ensures Flagged(cells, OTA) ==> cells == s.cells || (Completes(s, e) && cells == Next(s, e).cells)
  {
    if Flagged(cells, OTA) {
      FirstByteDecides(cells);
      if Taken(s, e) {
        HeldFlagByte(s, e);
        if Completes(s, e) && PartlyProgrammed(Programs(s, e), Next(s, e).cells, cells) {
          FlagByteOnly(Programs(s, e), cells);
        }
      }
    }
  }

  lemma HeldFlagByte(s: State, e: Event)
    requires FlagHeld(s) && Careful(s, e) && Taken(s, e)
    ensures Programs(s, e)[OTA + 8] == 0xff
  {
  }

  lemma FlagByteOnly(cells: seq<byte>, cut: seq<byte>)
    requires |cells| == FLASH_SIZE && cells[OTA + 8] == 0xff
    requires PartlyProgrammed(cells, Programmed(cells, OTA + FLAG_OFFSET, [0x4b]), cut)
    ensures cut[OTA + 8] == 0x4b ==> cut == Programmed(cells, OTA + FLAG_OFFSET, [0x4b])
  {
    var after := Programmed(cells, OTA + FLAG_OFFSET, [0x4b]);
    if cut[OTA + 8] == 0x4b {
      AllOnesAnd();
      forall i | 0 <= i < |cells|
        ensures cut[i] == after[i]
      {
        if i != OTA + 8 {
          Squeezed(cut[i], cells[i]);
        }
      }
    }
  }

  lemma Squeezed(b: byte, c: byte)
    ensures b & c == c && c & b == b ==> b == c
  {
  }

  /** Power may fail at any point of any event of a careful upload: what is flagged then is still only the image
      that was complete before, or the one just completed. */
  lemma PowerCutDuringUpload(s: State, es: seq<Event>, e: Event, cells: seq<byte>)
    requires Sound(s) && s.up == IDLE && AllCareful(s, es)
    requires Careful(After(s, es), e) && CutShort(After(s, es), e, cells)
    ensures |cells| == FLASH_SIZE
    ensures Flagged(cells, OTA) ==>
              (cells == After(s, es).cells && Finished(s, es))
              || (Completes(After(s, es), e) && cells == Next(After(s, es), e).cells)
  {
    hide Next, Careful, CutShort, Flagged, AllCareful, FlagHeld;
    NoPartialImageBoots(s, es);
    CutLeavesNoFlag(After(s, es), e, cells);
  }

  /** The guard is needed: a first block of eight bytes lets the second one bring in the flag. */
  lemma ShortFirstBlockFlags(s: State, size: u32, p: Payload, q: Payload)
    requires Sound(s) && s.up == IDLE && 48 < size <= IMAGE_MAX && q[..4] == START_FLAG
    ensures var t := After(s, [Start(size), Response(0, 0, 8, p), Response(0, 8, 40, q)]);
      |t.cells| == FLASH_SIZE && Receiving(t) && t.up.offset == 48 && Flagged(t.cells, OTA)
  {
    hide Programs, Blank, Wiped, Flagged, Staged, Joined;
    var a, b, c := Start(size), Response(0, 0, 8, p), Response(0, 8, 40, q);
    var t0 := Next(s, a);
    var t1 := Next(t0, b);
    StepShaped(s, a, []);
    StepShaped(t0, b, []);
    assert NextBlocks(t0, b, []) == [p[..8]];
    StepShaped(t1, c, [p[..8]]);
    assert NextBlocks(t1, c, [p[..8]]) == [p[..8], q[..40]];
    PartialFlagIff(Next(t1, c), [p[..8], q[..40]]);
    BothJoined(p[..8], q[..40]);
    assert q[..40][..4] == q[..4];
    ThreeSteps(s, a, b, c);
  }

  lemma BothJoined(p: seq<byte>, q: seq<byte>)
    requires |p| == 8 && |q| == 40
    ensures Joined([p, q])[8..12] == q[..4]
  {
    assert [p, q][..1] == [p] && [p][..0] == [];
    assert Joined([p]) == p;
    assert Joined([p, q]) == p + q;
  }

  lemma ThreeSteps(s: State, a: Event, b: Event, c: Event)
    ensures After(s, [a, b, c]) == Next(Next(Next(s, a), b), c)
  {
    hide Next;
    TwoSteps(s, a, b);
    assert [a, b] + [c] == [a, b, c];
    AfterOneMore(s, [a, b], c);
  }

  /** An upload changes the staging area only, except that a last block that overruns the largest image
      may reach 39 bytes past it. */
  lemma {:induction false} OnlyStagingChanges(s: State, es: seq<Event>)
    requires Sound(s)
    ensures SameOutside(s.cells, After(s, es).cells, OTA, OTA + IMAGE_MAX + 39)
    decreases |es|
  {
    if es != [] {
      OnlyStagingChanges(s, es[..|es| - 1]);
      AlwaysSound(s, es[..|es| - 1]);
      StepInStaging(After(s, es[..|es| - 1]), es[|es| - 1]);
    }
  }

  lemma StepInStaging(s: State, e: Event)
    requires Sound(s)
    ensures SameOutside(s.cells, Next(s, e).cells, OTA, OTA + IMAGE_MAX + 39)
  {
    if Begins(s, e) {
      SectorUpCovers(e.size);
    }
  }

  /** A peer that answers with as many bytes as it was asked for is careful enough. */
  lemma RequestedUploadsAreSafe(s: State, es: seq<Event>)
    requires Sound(s) && s.up == IDLE
    requires forall i :: 0 <= i < |es| ==> AsRequested(After(s, es[..i]), es[i])
    ensures Receiving(After(s, es)) ==> FlagHeld(After(s, es)) && !Flagged(After(s, es).cells, OTA)
    ensures |After(s, es).cells| == FLASH_SIZE && (Flagged(After(s, es).cells, OTA) ==> Finished(s, es))
  {
    hide Careful, AsRequested, Flagged, Next;
    forall i | 0 <= i < |es|
      ensures Careful(After(s, es[..i]), es[i])
    {
      AlwaysSound(s, es[..i]);
      RequestedIsCareful(After(s, es[..i]), es[i]);
    }
    NoPartialImageBoots(s, es);
  }

  // ----- what a completed upload stores -----

  /** On completion the image is stored with its flag byte forced. */
  lemma CompletionStores(s: State, e: Event, blocks: seq<seq<byte>>)
    requires Shaped(s, blocks) && Completes(s, e) && s.up.total > 8
    ensures var all := NextBlocks(s, e, blocks); var t := Next(s, e);
      all != [] && |Joined(all)| == s.up.total && t.up == IDLE && t.checkArmed
      && t.cells[OTA..OTA + s.up.total]
           == Joined(all)[8 := if |all[0]| > 8 then 0x4b else Joined(all)[8] & 0x4b]
  {
    var all := NextBlocks(s, e, blocks);
    var total := s.up.total;
    TakenExtends(s, e, blocks);
    StagedMasksFirst(all);
    FlagForced(Programs(s, e), total);
    hide Staged, Joined, Programs, Programmed, Blank;
    MaskedFlag(Joined(all));
  }

  lemma MaskedFlag(image: seq<byte>)
    requires |image| > 8
    ensures var masked := image[8 := 0xff]; masked[8 := masked[8] & 0x4b] == image[8 := 0x4b]
  {
    AllOnesAnd();
  }

  lemma AllOnesAnd()
    ensures (0xff as byte) & 0x4b == 0x4b
  {
  }

  lemma FlagForced(cells: seq<byte>, total: nat)
    requires |cells| == FLASH_SIZE && 8 < total <= IMAGE_MAX
    ensures var staged := cells[OTA..OTA + total];
      Programmed(cells, OTA + FLAG_OFFSET, [0x4b])[OTA..OTA + total] == staged[8 := staged[8] & 0x4b]
  {
  }

  /** A peer that sends img: each block it gets accepted is the requested piece of img. */
  predicate Sends(img: seq<byte>, s: State, e: Event)
  {
    Taken(s, e) && s.up.offset < s.up.total ==>
      s.up.total == |img| && e.len == RequestLen(s.up) && e.payload[..e.len] == img[s.up.offset..s.up.offset + e.len]
  }

  /** Blocks accepted so far are the image so far, and the first one covers the flag byte. */
  predicate Follows(img: seq<byte>, s: State, blocks: seq<seq<byte>>)
  {
    Shaped(s, blocks)
    && (Receiving(s) && blocks != [] ==>
          |img| == s.up.total && |blocks[0]| > 8 && Joined(blocks) == img[..s.up.offset])
  }

  lemma JoinedOneMore(blocks: seq<seq<byte>>, b: seq<byte>)
    ensures Joined(blocks + [b]) == Joined(blocks) + b
  {
    assert (blocks + [b])[..|blocks|] == blocks;
  }

  lemma StepFollows(img: seq<byte>, s: State, e: Event, blocks: seq<seq<byte>>)
    requires Follows(img, s, blocks) && Sends(img, s, e)
    ensures Follows(img, Next(s, e), NextBlocks(s, e, blocks))
    ensures Completes(s, e) && s.up.total > 8 ==>
              |img| == s.up.total && Next(s, e).cells[OTA..OTA + |img|] == img[8 := 0x4b]
  {
    StepShaped(s, e, blocks);
    if Receiving(s) && Taken(s, e) && s.up.offset + e.len <= s.up.total {
      PieceFollows(img, s, e, blocks);
    }
    if Completes(s, e) && s.up.total > 8 {
      CompletionStores(s, e, blocks);
      assert img[..|img|] == img;
    }
    hide Joined, Staged, Programmed, Wiped, Shaped;
  }

  lemma PieceFollows(img: seq<byte>, s: State, e: Event, blocks: seq<seq<byte>>)
    requires Follows(img, s, blocks) && Sends(img, s, e)
    requires Receiving(s) && Taken(s, e) && s.up.offset + e.len <= s.up.total
    ensures var o := s.up.offset + e.len; var all := NextBlocks(s, e, blocks);
      |img| == s.up.total && all != [] && Joined(all) == img[..o] && (o < |img| || |img| > 8 ==> |all[0]| > 8)
  {
    hide Staged, Programmed, Blank, SectorUp;
    var o := s.up.offset;
    JoinedOneMore(blocks, e.payload[..e.len]);
    assert img[..o] + img[o..o + e.len] == img[..o + e.len];
    if blocks == [] {
      assert img[..0] == [];
    }
  }

  /** The last image to be completed has not been erased for another one since. */
  function Delivered(s: State, es: seq<Event>): bool
    decreases |es|
  {
    if es == [] then false else
      var before := After(s, es[..|es| - 1]);
      var e := es[|es| - 1];
      Completes(before, e) || (Delivered(s, es[..|es| - 1]) && !(Begins(before, e) && e.size > 0))
  }

  predicate SendsAll(img: seq<byte>, s: State, es: seq<Event>)
  {
    forall i :: 0 <= i < |es| ==> Sends(img, After(s, es[..i]), es[i])
  }

  /** What a delivered upload leaves: the image, its flag byte forced, and nothing more to come. */
  predicate Stored(img: seq<byte>, t: State)
    requires |img| > 8
  {
    OTA + |img| <= |t.cells| && t.cells[OTA..OTA + |img|] == img[8 := 0x4b] && !Receiving(t)
  }

  lemma SendsPrefix(img: seq<byte>, s: State, es: seq<Event>)
    requires SendsAll(img, s, es) && es != []
    ensures var n := |es| - 1; SendsAll(img, s, es[..n]) && Sends(img, After(s, es[..n]), es[n])
  {
    hide Sends, After;
    var init := es[..|es| - 1];
    forall i | 0 <= i < |init|
      ensures Sends(img, After(s, init[..i]), init[i])
    {
      assert init[..i] == es[..i];
    }
  }

  /** Completing stores the image, and until another one is begun nothing touches it. */
  lemma StepStores(img: seq<byte>, s: State, e: Event, blocks: seq<seq<byte>>)
    requires |img| > 8 && Follows(img, s, blocks) && Sends(img, s, e)
    ensures Completes(s, e) ==> Stored(img, Next(s, e))
    ensures Stored(img, s) && !(Begins(s, e) && e.size > 0) ==> Stored(img, Next(s, e))
  {
    StepFollows(img, s, e, blocks);
    hide Programmed, Wiped, Blank, Follows;
    NothingWiped(s.cells, OTA);
    if Completes(s, e) {
      assert s.up.total == |img|;
    }
  }

  /** While img arrives the staging area holds the part received, its flag byte still erased. Once it is complete,
      and until another upload begins, the whole image is stored, verbatim exactly if its own flag byte is 0x4B. */
  lemma {:induction false} UploadFollowsImage(img: seq<byte>, s: State, es: seq<Event>)
    requires Sound(s) && s.up == IDLE && |img| > 8 && SendsAll(img, s, es)
    ensures Follows(img, After(s, es), Blocks(s, es))
    ensures var t := After(s, es);
      Receiving(t) && t.up.offset > 0 ==>
        8 < t.up.offset < |img| && t.cells[OTA..OTA + t.up.offset] == img[..t.up.offset][8 := 0xff]
    ensures var t := After(s, es);
      Delivered(s, es) ==> Stored(img, t) && (t.cells[OTA..OTA + |img|] == img <==> img[8] == 0x4b)
    decreases |es|
  {
    hide Next, Sends, Staged, Joined, NextBlocks, Stored, SendsAll, Follows;
    if es == [] {
      EmptyFollows(img, s);
    } else {
      var init, e := es[..|es| - 1], es[|es| - 1];
      SendsPrefix(img, s, es);
      UploadFollowsImage(img, s, init);
      StepFollows(img, After(s, init), e, Blocks(s, init));
      StepStores(img, After(s, init), e, Blocks(s, init));
      if Receiving(After(s, es)) && After(s, es).up.offset > 0 {
        FollowsMeans(img, After(s, es), Blocks(s, es));
      }
      StoredVerbatim(img, After(s, es));
    }
  }

  lemma EmptyFollows(img: seq<byte>, s: State)
    requires Sound(s) && s.up == IDLE
    ensures Follows(img, s, [])
  {
  }

  lemma StoredVerbatim(img: seq<byte>, t: State)
    requires |img| > 8
    ensures Stored(img, t) ==>
              OTA + |img| <= |t.cells| && (t.cells[OTA..OTA + |img|] == img <==> img[8] == 0x4b)
  {
  }

  lemma FollowsMeans(img: seq<byte>, t: State, blocks: seq<seq<byte>>)
    requires Follows(img, t, blocks) && Receiving(t) && t.up.offset > 0
    ensures 8 < t.up.offset < |img| && t.cells[OTA..OTA + t.up.offset] == img[..t.up.offset][8 := 0xff]
  {
    StagedMasksFirst(blocks);
  }

  // ----- a peer that answers every request -----

  function PayloadAt(img: seq<byte>, o: nat): Payload
    requires o <= |img|
  {
    if |img| - o >= 40 then img[o..o + 40] else img[o..] + seq(40 - (|img| - o), i => 0xff)
  }

  /** Requests and answers from offset o to the end of the image. */
  function Exchange(img: seq<byte>, o: nat): seq<Event>
    requires o <= |img| <= IMAGE_MAX
    decreases |img| - o
  {
    if o == |img| then [] else
      var len := if |img| - o >= 40 then 40 else |img| - o;
      [Tick, Response(0, o, len, PayloadAt(img, o))] + Exchange(img, o + len)
  }

  lemma {:induction false} ExchangeCompletes(img: seq<byte>, s: State, blocks: seq<seq<byte>>)
    requires 8 < |img| <= IMAGE_MAX && Follows(img, s, blocks)
    requires s.up.start == OTA && s.up.total == |img| && s.up.retryCnt == 0 && s.up.armed && s.up.offset < |img|
    ensures var t := After(s, Exchange(img, s.up.offset));
      |t.cells| == FLASH_SIZE && t.up == IDLE && t.checkArmed && t.cells[OTA..OTA + |img|] == img[8 := 0x4b]
    decreases |img| - s.up.offset
  {
    hide Programs, Staged, Joined, Blank;
    var o := s.up.offset;
    var len := if |img| - o >= 40 then 40 else |img| - o;
    var answer := Response(0, o, len, PayloadAt(img, o));
    var asked := Next(s, Tick);
    var t := Next(asked, answer);
    StepFollows(img, s, Tick, blocks);
    StepFollows(img, asked, answer, NextBlocks(s, Tick, blocks));
    TwoSteps(s, Tick, answer);
    AfterAppend(s, [Tick, answer], Exchange(img, o + len));
    assert After(s, Exchange(img, o)) == After(t, Exchange(img, o + len));
    if o + len < |img| {
      ExchangeCompletes(img, t, NextBlocks(asked, answer, NextBlocks(s, Tick, blocks)));
    }
  }

  lemma TwoSteps(s: State, a: Event, b: Event)
    ensures After(s, [a, b]) == Next(Next(s, a), b)
  {
    hide Next;
    assert [a, b][..1] == [a] && [a][..0] == [];
    assert After(s, [a]) == Next(After(s, []), a);
    assert After(s, [a, b]) == Next(After(s, [a]), b);
  }

  /** Each answer of the exchange fits the request that the tick before it sends. */
  lemma ExchangeAnswersRequests(img: seq<byte>, s: State)
    requires Sound(s) && s.up.armed && s.up.retryCnt < RETRY_MAX && s.up.total == |img| <= IMAGE_MAX
    requires s.up.offset < |img|
    ensures var asked, es := Answer(s, Tick), Exchange(img, s.up.offset);
      asked.BlockRequest? && es[0] == Tick && es[1].Response?
      && es[1].offset == asked.offset && es[1].len == asked.len
      && es[1].payload[..asked.len] == img[asked.offset..asked.offset + asked.len]
  {
    var len := if |img| - s.up.offset >= 40 then 40 else |img| - s.up.offset;
    var p := PayloadAt(img, s.up.offset);
    assert p[..len] == img[s.up.offset..s.up.offset + len];
  }

  /** From any idle receiver, a peer that answers each request brings an image over 8 bytes to completion. */
  lemma AnsweredUploadCompletes(img: seq<byte>, s: State)
    requires Sound(s) && s.up == IDLE && 8 < |img| <= IMAGE_MAX
    ensures var t := After(s, [Start(|img|)] + Exchange(img, 0));
      |t.cells| == FLASH_SIZE && t.up == IDLE && t.checkArmed && t.cells[OTA..OTA + |img|] == img[8 := 0x4b]
  {
    hide Wiped, Exchange, Staged;
    var e := Start(|img|);
    assert Shaped(s, []);
    StepShaped(s, e, []);
    assert After(s, [e]) == Next(s, e) by {
      assert [e][..0] == [];
    }
    AfterAppend(s, [e], Exchange(img, 0));
    ExchangeCompletes(img, Next(s, e), []);
  }

  // ----- what the peer is told -----

  /** A start request is accepted exactly outside a session and for a size that fits; then the session is open and
      as much is erased. A refused one changes nothing and is answered with the session as it is. */
  lemma StartAnswered(s: State, size: u32)
    requires Sound(s)
    ensures var t, a := Next(s, Start(size)), Answer(s, Start(size));
      if s.up.start != 0 then t == s && a == StartRsp(s.up.start, s.up.total, s.up.offset, InProgress)
      else if size > 0x31000 then t == s && a == StartRsp(0, 0, 0, FileOversize)
      else
        t.up == Session(0x39000, size, 0, 0, true) && Blank(t.cells, 0x39000, 0x39000 + size)
        && a == StartRsp(0x39000, size, 0, Success)
  {
    if size <= 0x31000 {
      SectorUpCovers(size);
    }
  }

  /** A block response is answered by what became of it: completed, stored, stored past the end, refused as misplaced,
      or taken for an error; nothing is programmed in the last two cases. */
  lemma BlockAnswered(s: State, status: u8, offset: u32, len: u8, payload: Payload)
    requires Sound(s)
    ensures var e := Response(status, offset, len, payload);
      var t, a, o := Next(s, e), Answer(s, e), s.up.offset + len;
      if status != 0 || s.up.total == 0 then
        t == s.(up := IDLE) && a == OtaEnd(s.up.total, s.up.offset, ErrBlockRsp)
      else if offset != s.up.offset || len == 0 || len > 40 then
        t == s.(up := s.up.(armed := false)) && a == Ack(IncorrectOffset)
      else if o < s.up.total then
        t.up == Session(s.up.start, s.up.total, o, 0, true) && !t.checkArmed && a == Ack(Success)
      else
        t.up == IDLE && (t.checkArmed <==> o == s.up.total)
        && a == OtaEnd(s.up.total, o, if o == s.up.total then Success else IncorrectOffset)
  {
    hide Programmed;
  }

  /** Over every upload of img, the peer is told of success only when the whole image is stored, and at that moment. */
  lemma SuccessMeansStored(img: seq<byte>, s: State, es: seq<Event>, e: Event)
    requires Sound(s) && s.up == IDLE && |img| > 8 && SendsAll(img, s, es + [e])
    ensures Sound(After(s, es))
    ensures var t := After(s, es);
      (Answer(t, e).OtaEnd? && Answer(t, e).sta == Success <==> Completes(t, e))
      && (Completes(t, e) ==> Answer(t, e) == OtaEnd(|img|, |img|, Success) && Stored(img, Next(t, e)))
  {
    hide Next, Sends, Staged, Joined, NextBlocks, Stored, Follows, Delivered, After, Blocks, SendsAll;
    hide Completes, Answer, Receiving, Sound;
    assert (es + [e])[..|es|] == es;
    SendsPrefix(img, s, es + [e]);
    UploadFollowsImage(img, s, es);
    AlwaysSound(s, es);
    StepStores(img, After(s, es), e, Blocks(s, es));
    StepFollows(img, After(s, es), e, Blocks(s, es));
    CompletesWithin(img, After(s, es), e);
  }

  lemma CompletesWithin(img: seq<byte>, s: State, e: Event)
    requires Sound(s) && Sends(img, s, e)
    ensures Answer(s, e).OtaEnd? && Answer(s, e).sta == Success <==> Completes(s, e)
    ensures Completes(s, e) ==> Answer(s, e) == OtaEnd(|img|, |img|, Success)
  {
  }

  function Answers(s: State, es: seq<Event>): seq<Reply>
    requires Sound(s)
    decreases |es|
  {
    if es == [] then []
    else
      StepSound(s, es[0]);
      [Answer(s, es[0])] + Answers(Next(s, es[0]), es[1..])
  }

  /** The conversation as the peer sees it: each request asks for 40 bytes or the rest, each block is acknowledged, and
      the last one with the end of the upload. */
  function Transcript(size: nat, o: nat): seq<Reply>
    requires o <= size
    decreases size - o
  {
    if o == size then [] else
      var len := if size - o >= 40 then 40 else size - o;
      [BlockRequest(o, len), if o + len == size then OtaEnd(size, size, Success) else Ack(Success)]
      + Transcript(size, o + len)
  }

  /** A peer that answers each request is told exactly this. */
  lemma {:induction false} ExchangeTranscript(img: seq<byte>, s: State)
    requires Sound(s) && |img| <= IMAGE_MAX && s.up.start != 0 && s.up.total == |img|
    requires s.up.retryCnt == 0 && s.up.armed && s.up.offset < |img|
    ensures Answers(s, Exchange(img, s.up.offset)) == Transcript(|img|, s.up.offset)
    decreases |img| - s.up.offset
  {
    hide Programs, Programmed;
    var o := s.up.offset;
    var len := if |img| - o >= 40 then 40 else |img| - o;
    var answer := Response(0, o, len, PayloadAt(img, o));
    var asked := Next(s, Tick);
    StepSound(s, Tick);
    StepSound(asked, answer);
    var t, rest := Next(asked, answer), Exchange(img, o + len);
    var es := Exchange(img, o);
    assert es == [Tick, answer] + rest && es[1..] == [answer] + rest && es[1..][1..] == rest;
    assert Answers(s, es) == [Answer(s, Tick)] + Answers(asked, [answer] + rest);
    assert Answers(asked, [answer] + rest) == [Answer(asked, answer)] + Answers(t, rest);
    if o + len < |img| {
      ExchangeTranscript(img, t);
    }
  }

  // ----- how long a session lasts -----

  function Measure(u: Session): int
  {
    if u.start == 0 then 0 else 7 * (u.total - u.offset) + 7 - u.retryCnt
  }

  predicate Moves(s: State, e: Event)
  {
    (e.Tick? && s.up.armed) || Taken(s, e)
  }

  function Count(s: State, es: seq<Event>, what: (State, Event) -> bool): nat
    decreases |es|
  {
    if es == [] then 0
    else Count(s, es[..|es| - 1], what) + if what(After(s, es[..|es| - 1]), es[|es| - 1]) then 1 else 0
  }

  predicate NoNewSession(s: State, es: seq<Event>)
  {
    forall i :: 0 <= i < |es| ==> !Begins(After(s, es[..i]), es[i])
  }

  /** Every timer tick and every accepted block uses up some of the measure or ends the session. */
  lemma StepMeasure(s: State, e: Event)
    requires Sound(s) && !Begins(s, e)
    ensures 0 <= Measure(Next(s, e).up) <= Measure(s.up)
    ensures Moves(s, e) ==> Measure(Next(s, e).up) < Measure(s.up)
  {
    hide Programmed;
  }

  lemma NoNewSessionPrefix(s: State, es: seq<Event>)
    requires NoNewSession(s, es) && es != []
    ensures NoNewSession(s, es[..|es| - 1])
  {
    assert forall i :: 0 <= i < |es| - 1 ==> es[..|es| - 1][..i] == es[..i];
  }

  /** A session takes at most as many ticks and blocks as its measure. */
  lemma {:induction false} SessionEnds(s: State, es: seq<Event>)
    requires Sound(s) && NoNewSession(s, es)
    ensures Count(s, es, Moves) + Measure(After(s, es).up) <= Measure(s.up)
    ensures Measure(After(s, es).up) >= 0
    decreases |es|
  {
    hide Next, Moves, Begins;
    if es == [] {
      MeasureNat(s.up, s);
    } else {
      NoNewSessionPrefix(s, es);
      SessionEnds(s, es[..|es| - 1]);
      AlwaysSound(s, es[..|es| - 1]);
      StepMeasure(After(s, es[..|es| - 1]), es[|es| - 1]);
    }
  }

  lemma MeasureNat(u: Session, s: State)
    requires Sound(s) && s.up == u
    ensures Measure(u) >= 0
  {
  }

  predicate Requests(s: State, e: Event)
  {
    s.up.offset <= s.up.total && Answer(s, e).BlockRequest?
  }

  /** At most five requests are sent per accepted block, and five before the first. */
  lemma {:induction false} RequestsBounded(s: State, es: seq<Event>)
    requires Sound(s) && NoNewSession(s, es)
    ensures var t := After(s, es);
      Count(s, es, Requests) + s.up.retryCnt
        <= 5 * Count(s, es, Taken) + if t.up.start == 0 then 5 else t.up.retryCnt
    decreases |es|
  {
    hide Next, Requests, Begins, Taken;
    if es != [] {
      NoNewSessionPrefix(s, es);
      RequestsBounded(s, es[..|es| - 1]);
      AlwaysSound(s, es[..|es| - 1]);
      StepRequests(After(s, es[..|es| - 1]), es[|es| - 1]);
    }
  }

  lemma StepRequests(s: State, e: Event)
    requires Sound(s) && !Begins(s, e)
    ensures var t := Next(s, e);
      (if Requests(s, e) then 1 else 0) + (if s.up.start == 0 then 5 else s.up.retryCnt)
        <= 5 * (if Taken(s, e) then 1 else 0) + if t.up.start == 0 then 5 else t.up.retryCnt
  {
    hide Programmed;
  }

  // ----- the one way a session hangs -----

  /** A session that is open but whose timer is off. */
  predicate Stalled(s: State)
  {
    s.up.start != 0 && !s.up.armed
  }

  /** A running session stalls exactly on a block with a good status that is misplaced, empty or too long. */
  lemma MisplacedBlockStalls(s: State, e: Event)
    requires Sound(s) && s.up.start != 0 && s.up.armed
    ensures Stalled(Next(s, e)) <==>
              e.Response? && e.status == 0 && s.up.total > 0
              && (e.offset != s.up.offset || e.len == 0 || e.len > BLOCK_MAX)
  {
    hide Programmed;
  }

  /** From then on only the peer can end it: no timer, no new session, nothing sent but refusals. */
  lemma {:induction false} StallLasts(s: State, es: seq<Event>)
    requires Sound(s) && Stalled(s) && forall e <- es :: !e.Response?
    ensures After(s, es) == s
    decreases |es|
  {
    if es != [] {
      StallLasts(s, es[..|es| - 1]);
    }
  }
}
