/** From the builder through the serial line and any number of interrupted boots to the running area. */
module EndToEnd {
  import opened Bytes
  import opened Flash
  import opened BootImage
  import opened Bootloader
  import opened Upload
  import opened UploadRuns
  import opened OtaBuilder
  import HciOta
  import HciRuns
  import Crc32
  import Crc32Table

  /** The boot loader reads a patched image's own length, and accepts exactly those that fit and carry the flag. */
  lemma BuiltImageAccepted(input: seq<byte>, image: seq<byte>, cells: seq<byte>)
    requires !HasMagic(input) && 16 < |input| && Patched(input) == Some(image)
    requires |cells| == FLASH_SIZE && OTA + |image| <= FLASH_SIZE && cells[OTA..OTA + |image|] == image
    ensures FwSize(cells) == |image|
    ensures Pending(cells) <==> |image| <= IMAGE_MAX && input[8..12] == START_FLAG
  {
    hide Patched, U32Of, U32Bytes, Word32, Word32Bytes, Crc32.Fold;
    FitsFourBytes(input);
    PatchBuildsImage(input);
    var n := |image| - 4;
    SubSlice(cells, OTA, OTA + |image|, OTA + 0x18, OTA + 0x1c);
    SubSlice(cells, OTA, OTA + |image|, OTA + 8, OTA + 12);
    SubSlice(cells, OTA, OTA + |image|, OTA + n, OTA + |image|);
    SubSlice(cells, OTA, OTA + |image|, OTA, OTA + n);
    U32RoundTrip(|image|);
    assert image[8..12] == input[8..12];
    if |image| <= IMAGE_MAX {
      Word32RoundTrip(Crc32.Fold(Crc32Table.POLYNOMIAL, 0xffffffff, image[..n]));
      assert image[n..] == image[n..|image|];
    }
  }

  lemma FitsFourBytes(input: seq<byte>)
    requires !HasMagic(input) && Patched(input).Some?
    ensures RoundUp16(|input|) + 4 < 0x1_0000_0000
  {
  }

  /** A completed upload of a built image leaves it pending, whatever the flash held before. */
  lemma BuiltUploadPending(input: seq<byte>, image: seq<byte>, s: State)
    requires !HasMagic(input) && 16 < |input| && input[8..12] == START_FLAG
    requires Patched(input) == Some(image) && |image| <= IMAGE_MAX
    requires Sound(s) && s.up == IDLE
    ensures var t := After(s, [Start(|image|)] + Exchange(image, 0));
      t.checkArmed && Pending(t.cells) && FwSize(t.cells) == |image| && t.cells[OTA..OTA + |image|] == image
  {
    hide Patched, After, Exchange, Pending, FwSize, Crc32.Fold, U32Bytes, Word32Bytes;
    FitsFourBytes(input);
    PatchBuildsImage(input);
    AnsweredUploadCompletes(image, s);
    assert image[8] == input[8] == input[8..12][0];
    assert image[8 := 0x4b] == image;
    BuiltImageAccepted(input, image, After(s, [Start(|image|)] + Exchange(image, 0)).cells);
  }

  /** Build, upload, boot: however often the boots are interrupted, each one that hands over to the application
      does so with the built image in the running area, and none finds no application. */
  lemma BuiltImageInstalled(
    input: seq<byte>, image: seq<byte>, s: State, fs: seq<seq<byte>>, outs: seq<Outcome>, i: nat)
    requires !HasMagic(input) && 16 < |input| && input[8..12] == START_FLAG
    requires Patched(input) == Some(image) && |image| <= IMAGE_MAX
    requires Sound(s) && s.up == IDLE
    requires |fs| == |outs| + 1 && (forall k :: 0 <= k < |fs| ==> |fs[k]| == FLASH_SIZE)
    requires fs[0] == After(s, [Start(|image|)] + Exchange(image, 0)).cells
    requires forall k :: 0 <= k < |outs| ==> BootStep(fs[k], fs[k + 1], outs[k])
    requires i < |outs| && (outs[i].Rebooted? || outs[i].NoApp?)
    ensures outs[i].Rebooted? && fs[i + 1][APP..APP + |image|] == image && !Flagged(fs[i + 1], OTA)
  {
    BuiltUploadPending(input, image, s);
    hide Patched, After, Exchange, HasMagic, Flagged, FwSize, Accepted, Sound;
    CrashSafeUpdate(fs, outs);
    assert HandsOverWhole(fs[0], fs[i + 1], outs[i]);
    CopiedMeans(fs[0], fs[i + 1], image);
    assert BootStep(fs[i], fs[i + 1], outs[i]);
  }

  lemma CopiedMeans(f: seq<byte>, g: seq<byte>, image: seq<byte>)
    requires |f| == |g| == FLASH_SIZE && Pending(f) && Copied(f, g)
    requires FwSize(f) == |image| && 12 <= |image| <= IMAGE_MAX && f[OTA..OTA + |image|] == image
    ensures g[APP..APP + |image|] == image && Flagged(g, APP)
  {
    hide Accepted, FwSize, PageUp;
    PendingBounds(f);
    var n := PageUp(|image|);
    SubSlice(g, APP, APP + n, APP, APP + |image|);
    SubSlice(f, OTA, OTA + n, OTA, OTA + |image|);
    SubSlice(g, APP, APP + n, APP + 8, APP + 12);
    SubSlice(f, OTA, OTA + n, OTA + 8, OTA + 12);
  }

  /** The other receiver agrees: of all built images it lets through exactly the flagged ones. */
  lemma BuiltImageGood(input: seq<byte>, image: seq<byte>)
    requires !HasMagic(input) && 16 < |input| && Patched(input) == Some(image)
    ensures |image| >= 32 && (HciRuns.Good(image) <==> input[8..12] == START_FLAG)
  {
    hide Patched, U32Bytes, Word32, Word32Bytes, Crc32.Fold;
    FitsFourBytes(input);
    PatchBuildsImage(input);
    var n := |image| - 4;
    HciRuns.GoodMeansSealed(image);
    Word32RoundTrip(Crc32.Fold(Crc32Table.POLYNOMIAL, 0xffffffff, image[..n]));
    assert image[8..12] == input[8..12];
  }

  /** A built image sent over the host interface in any pieces is held whole, its flag byte erased, until the reset. */
  lemma BuiltHciHeld(
    input: seq<byte>, image: seq<byte>, lay: HciOta.Layout, s: HciOta.State, boot: nat, items: seq<HciRuns.Item>)
    requires !HasMagic(input) && 16 < |input| && input[8..12] == START_FLAG && Patched(input) == Some(image)
    requires HciOta.Fits(lay, s.cells) && |s.cells| == FLASH_SIZE && !s.info.started && |image| < lay.max
    requires HciRuns.Cuts(image, items) && HciRuns.Content(items) == image
    requires HciRuns.ClearOfFlag(items) && HciRuns.Timely(items)
    ensures var t := HciRuns.Fed(HciOta.Started(lay, s, Some(boot), |image|, Some(HciOta.LOCAL_BIN)).to, items);
      t.timer == HciOta.RebootTimer && |t.cells| == FLASH_SIZE && HciRuns.Good(image) && image[8..12] == START_FLAG
      && HciRuns.Holds(t, if boot != 0 then 0 else lay.otaAddr, HciRuns.Masked(image), |image|)
  {
    hide Patched, Crc32.Fold, HciRuns.Good, HasMagic, HciRuns.LocalShape, HciRuns.Holds, HciRuns.Masked, HciRuns.Fed;
    hide HciRuns.Cuts, HciRuns.ClearOfFlag, HciRuns.Timely, HciOta.Started;
    BuiltImageGood(input, image);
    GoodFlagByte(image);
    HciRuns.SplitIndependent(lay, s, boot, image, items);
    HciRuns.FedSameSize(HciOta.Started(lay, s, Some(boot), |image|, Some(HciOta.LOCAL_BIN)).to, items);
    StartSameSize(lay, s, boot, |image|);
  }

  lemma StartSameSize(lay: HciOta.Layout, s: HciOta.State, boot: nat, size: u32)
    ensures |HciOta.Started(lay, s, Some(boot), size, Some(HciOta.LOCAL_BIN)).to.cells| == |s.cells|
  {
  }

  /** A built image sent over the host interface in any pieces passes the receiver's own last check, and is pending
      once the reset callback has set its flag byte. */
  lemma BuiltHciPending(
    input: seq<byte>, image: seq<byte>, s: HciOta.State, items: seq<HciRuns.Item>)
    requires !HasMagic(input) && 16 < |input| && input[8..12] == START_FLAG && Patched(input) == Some(image)
    requires |s.cells| == FLASH_SIZE && !s.info.started && |image| < IMAGE_MAX
    requires HciRuns.Cuts(image, items) && HciRuns.Content(items) == image
    requires HciRuns.ClearOfFlag(items) && HciRuns.Timely(items)
    ensures var lay := HciOta.Layout(OTA, IMAGE_MAX, true);
      var t := HciRuns.Fed(HciOta.Started(lay, s, Some(0), |image|, Some(HciOta.LOCAL_BIN)).to, items);
      t.timer == HciOta.RebootTimer && |t.cells| == FLASH_SIZE
      && HciOta.NewImageValid(lay, t.cells, OTA) && t.cells[OTA + FLAG_OFFSET] & 0x4b == 0x4b
      && Pending(HciOta.Switched(lay, t.cells, 0))
  {
    hide Patched, Crc32.Fold, Pending, FwSize, HciRuns.Good, HasMagic, HciRuns.Holds, Word32, HciRuns.Fed, HciRuns.Masked;
    hide HciOta.NewImageValid, HciRuns.Cuts, HciRuns.ClearOfFlag, HciRuns.Timely, HciOta.Started;
    var lay := HciOta.Layout(OTA, IMAGE_MAX, true);
    BuiltHciHeld(input, image, lay, s, 0, items);
    var t := HciRuns.Fed(HciOta.Started(lay, s, Some(0), |image|, Some(HciOta.LOCAL_BIN)).to, items);
    HciRuns.RebootRestoresImage(t, OTA, image);
    BuiltImageAccepted(input, image, Programmed(t.cells, OTA + FLAG_OFFSET, [0x4b]));
    BuiltPassesCheck(input, image, lay, t, OTA);
  }

  /** Without a boot loader, as this firmware is built: a built image that is sent over the host interface in any pieces
      passes both checks, and after the reset callback the chip starts from the area that now holds exactly this image,
      whichever of the two areas it was running from. */
  lemma BuiltHciStarts(
    input: seq<byte>, image: seq<byte>, s: HciOta.State, boot: nat, items: seq<HciRuns.Item>)
    requires !HasMagic(input) && 16 < |input| && input[8..12] == START_FLAG && Patched(input) == Some(image)
    requires |s.cells| == FLASH_SIZE && !s.info.started && |image| < 0x34000
    requires HciRuns.Cuts(image, items) && HciRuns.Content(items) == image
    requires HciRuns.ClearOfFlag(items) && HciRuns.Timely(items)
    ensures var lay := HciOta.Layout(0x40000, 0x34000, false);
      var newAddr, oldAddr := if boot != 0 then 0 else 0x40000, if boot != 0 then 0x40000 else 0;
      var t := HciRuns.Fed(HciOta.Started(lay, s, Some(boot), |image|, Some(HciOta.LOCAL_BIN)).to, items);
      t.timer == HciOta.RebootTimer && |t.cells| == FLASH_SIZE
      && HciOta.NewImageValid(lay, t.cells, newAddr) && t.cells[newAddr + 8] & 0x4b == 0x4b
      && var g := HciOta.Switched(lay, t.cells, boot);
      g[newAddr..newAddr + |image|] == image && g[oldAddr + 8] == 0 && HciOta.BootAddr(lay, g) == Some(newAddr)
  {
    hide Patched, Crc32.Fold, HciRuns.Good, HasMagic, HciRuns.Holds, Word32, HciRuns.Fed, HciRuns.Masked, Programmed;
    hide HciOta.NewImageValid, HciOta.Switched, HciOta.BootAddr, HciOta.Started;
    hide HciRuns.Cuts, HciRuns.ClearOfFlag, HciRuns.Timely;
    var lay := HciOta.Layout(0x40000, 0x34000, false);
    var newAddr := if boot != 0 then 0 else 0x40000;
    BuiltHciHeld(input, image, lay, s, boot, items);
    BuiltImageGood(input, image);
    var t := HciRuns.Fed(HciOta.Started(lay, s, Some(boot), |image|, Some(HciOta.LOCAL_BIN)).to, items);
    BuiltPassesCheck(input, image, lay, t, newAddr);
    HciRuns.RebootRestoresImage(t, newAddr, image);
    SwitchedStarts(lay, t.cells, boot, image);
  }

  /** The two writes before the reset turn the start over from one area to the other. */
  lemma SwitchedStarts(lay: HciOta.Layout, cells: seq<byte>, boot: nat, image: seq<byte>)
    requires lay == HciOta.Layout(0x40000, 0x34000, false) && |cells| == FLASH_SIZE && 12 <= |image| < 0x34000
    requires var newAddr := if boot != 0 then 0 else 0x40000;
      cells[newAddr + 8] & 0x4b == 0x4b && image[8..12] == START_FLAG
      && Programmed(cells, newAddr + FLAG_OFFSET, [0x4b])[newAddr..newAddr + |image|] == image
    ensures var newAddr, oldAddr := if boot != 0 then 0 else 0x40000, if boot != 0 then 0x40000 else 0;
      var g := HciOta.Switched(lay, cells, boot);
      g[newAddr..newAddr + |image|] == image && g[oldAddr + 8] == 0 && HciOta.BootAddr(lay, g) == Some(newAddr)
  {
    var newAddr, oldAddr := if boot != 0 then 0 else 0x40000, if boot != 0 then 0x40000 else 0;
    var flagged, g := Programmed(cells, newAddr + FLAG_OFFSET, [0x4b]), HciOta.Switched(lay, cells, boot);
    assert flagged[newAddr + 8] == cells[newAddr + 8] & 0x4b;
    assert g == Programmed(flagged, oldAddr + FLAG_OFFSET, [0]);
    assert g[oldAddr + 8] == flagged[oldAddr + 8] & 0 == 0;
    hide HciOta.Switched;
    assert g[newAddr..newAddr + |image|] == image;
    SubSlice(g, newAddr, newAddr + |image|, newAddr + 8, newAddr + 12);
    assert g[oldAddr + 8..oldAddr + 12][0] == 0;
  }

  /** The check repeated before the reset sees the image with its flag byte as it will be. */
  lemma BuiltPassesCheck(input: seq<byte>, image: seq<byte>, lay: HciOta.Layout, t: HciOta.State, start: nat)
    requires !HasMagic(input) && 16 < |input| && input[8..12] == START_FLAG && Patched(input) == Some(image)
    requires |image| < lay.max && start + lay.max <= |t.cells| == FLASH_SIZE && start + 256 <= FLASH_SIZE
    requires HciRuns.Holds(t, start, HciRuns.Masked(image), |image|)
    ensures HciOta.NewImageValid(lay, t.cells, start) && t.cells[start + FLAG_OFFSET] & 0x4b == 0x4b
  {
    hide Patched, U32Of, U32Bytes, Word32, Word32Bytes, Crc32.Fold, HasMagic, HciRuns.Holds, HciOta.CoveredBytes;
    FitsFourBytes(input);
    PatchBuildsImage(input);
    var n := |image|;
    assert image[8..12] == input[8..12];
    HeldSlices(t, start, image);
    U32RoundTrip(n);
    Word32RoundTrip(Crc32.Fold(Crc32Table.POLYNOMIAL, 0xffffffff, image[..n - 4]));
  }

  /** What a session holds of an image, read back piece by piece. */
  lemma HeldSlices(t: HciOta.State, start: nat, image: seq<byte>)
    requires 32 <= |image| && image[8..12] == START_FLAG
    requires HciRuns.Holds(t, start, HciRuns.Masked(image), |image|)
    ensures var n := |image|;
      start + n <= |t.cells|
      && t.cells[start + 0x18..start + 0x1c] == image[0x18..0x1c] && t.cells[start + 9..start + 12] == [0x4e, 0x4c, 0x54]
      && t.cells[start + n - 4..start + n] == image[n - 4..] && t.cells[start + FLAG_OFFSET] & 0x4b == 0x4b
      && HciOta.CoveredBytes(t.cells, start, n) == image[..n - 4]
  {
    var n, masked := |image|, HciRuns.Masked(image);
    assert masked[..n] == masked;
    MaskedSlices(image);
    StagedSlices(t.cells, start, masked);
    hide HciRuns.Masked, HciRuns.Holds;
  }

  lemma StagedSlices(cells: seq<byte>, start: nat, stored: seq<byte>)
    requires 32 <= |stored| && start + |stored| <= |cells| && cells[start..start + |stored|] == stored
    ensures var n := |stored|;
      cells[start + 0x18..start + 0x1c] == stored[0x18..0x1c] && cells[start + 9..start + 12] == stored[9..12]
      && cells[start + n - 4..start + n] == stored[n - 4..n] && cells[start..start + n - 4] == stored[0..n - 4]
      && cells[start + 8] == stored[8]
  {
    var n := |stored|;
    SubSlice(cells, start, start + n, start + 0x18, start + 0x1c);
    SubSlice(cells, start, start + n, start + 9, start + 12);
    SubSlice(cells, start, start + n, start + n - 4, start + n);
    SubSlice(cells, start, start + n, start, start + n - 4);
    assert cells[start..start + n][8] == cells[start + 8];
  }

  lemma MaskedSlices(image: seq<byte>)
    requires 32 <= |image| && image[8..12] == START_FLAG
    ensures var n, masked := |image|, HciRuns.Masked(image);
      masked[0x18..0x1c] == image[0x18..0x1c] && masked[9..12] == [0x4e, 0x4c, 0x54]
      && masked[n - 4..n] == image[n - 4..] && masked[0..n - 4][8 := 0x4b] == image[..n - 4]
      && masked[8] & 0x4b == 0x4b
  {
    assert image[8] == image[8..12][0] && image[9..12] == image[8..12][1..];
    AllOnesAnd();
  }

  lemma GoodFlagByte(image: seq<byte>)
    requires HciRuns.Good(image)
    ensures |image| >= 12 && image[8] == 0x4b && image[8..12] == START_FLAG
  {
    assert image[8..12][0] == image[8];
  }
}
