# Water meter firmware: durable state, updates, reports and pulses

A Dafny model of the parts of this Zigbee water meter that must not lose or invent anything: the
configuration log in raw flash, the firmware update from the build script to the running area, the report
timers and the pulse counter. `dafny verify dfyconfig.toml` checks everything.

## Layout

- `Bytes.dfy`: bytes, numbers with the widths of the source, little- and big-endian encodings.
- `Flash.dfy`: NOR flash. Erasing a 4096-byte sector sets it to 0xFF, programming is a bitwise AND, and the
  page-program command wraps inside its 256-byte page. Operations past the end of the device have no effect. The
  class `Chip` stands behind all drivers.
- `Crc.dfy`, `CrcTables.dfy`: the two reflected CRC families bit by bit, what they detect, and the literal
  tables of the programmer tool and the SDK.
- `ConfigStore.dfy`, `ConfigLog.dfy`, `ConfigSteps.dfy`, `ConfigOwn.dfy`, `ConfigRuns.dfy`, `ConfigPlace.dfy`,
  `ConfigAge.dfy`, `ConfigFaults.dfy`, `ConfigWear.dfy`, `ConfigBattery.dfy`, `ConfigHoles.dfy`: the wear-levelled
  log with its side copy in NV. The class `Device` carries the code; the state functions it is proved against are the
  subject of the run theorems. A log is a chain of valid records with consecutive `top` from page 0 to page k
  with the rest of k's sector erased; a region erased for a download that has not begun leaves a log without its
  first page. A page that opens a later sector and happens to be the log's own next record is an *impostor*, and a
  reset in front of it is *misled*. `ConfigOwn` carries the valid pages of both regions through every run, so that
  the only assumption left is on the input: no sector that a download changes opens with a valid record.
  `ConfigAge` says when the device's own old pages are impostors and how long they cannot be, `ConfigPlace` that the
  log and the running firmware never meet.
- `Bootloader.dfy`: staged images and one boot as a machine in which every erase and program operation may be
  cut or fail silently, leaving anything in the cells it addressed; for a clean-up that is only cut more is proved.
- `Upload.dfy`, `UploadRuns.dfy`, `Frame.dfy`: the serial receiver of the boot loader, whole sessions, and the
  frames on the line.
- `OtaBuilder.dfy`, `EndToEnd.dfy`: the build script, and the theorems that join builder, receivers and boot
  loader.
- `HciOta.dfy`, `HciRuns.dfy`: the second image receiver.
- `Reporting.dfy`, `ReportRuns.dfy`, `ReportGaps.dfy`: the report scheduler on an ideal clock in milliseconds, its
  runs, and how far apart reports can be.
- `Counter.dfy`, `Pulses.dfy`, `Litres.dfy`, `Accounts.dfy`: the pulse counter over the configuration store, its
  debounce walk, and the litres of whole runs.
- `Programmer.dfy`: chunked flash writing and reading by the programmer tool.

## What does not hold

Each of these was expected to hold without a condition and does not. The lemmas named give the exact condition, or
where one is called an example, an input.

- A reset with the newest record in the last page of the log loses it (`ConfigRuns.ResetRestoresIff`,
  `ConfigFaults.RestoresIffLogEnds`): the scan leaves its loop without having found an end and re-defaults.
- A download erases the log's region before the firmware may refuse it. Until an update start moves the record to
  NV, or a save comes round to the first page, a reset loses it (`ConfigRuns.ResetRestoresIff`,
  `ConfigRuns.LostIffUprooted`; example: `ConfigRuns.RefusedUpdateLosesReading`).
- An update that comes back to a region can put the log in front of the device's own old records, when a default in
  between has set the record counter back: a reset at the end of the sector before them then goes on into them and
  brings an old reading (`ConfigAge.RestartUncleanIff`, `ConfigAge.SurvivorIff`; example: `ConfigAge.OwnStalePage`).
  Without such a default it takes 2^32 saves (`ConfigAge.YoungPagesNeverMislead`).
- So litres are conserved exactly by the restarts that meet none of these three (`Litres.RestartKeepsIff`; example:
  `Litres.LastPageLosesLitres`).
- The sectors of the log wear evenly only between update starts and resets that do not restore: each of these gives the
  lap up, and repeating them at the same place drives two sectors apart without bound (`ConfigWear.WearDifference`,
  `ConfigWear.BreaksIff`; examples: `ConfigWear.RoundsWearUnevenly`, `ConfigWear.NewDeviceWearsUnevenly`).
- One save that a low battery makes the drivers skip hides every later save of the lap from a reset
  (`ConfigBattery.ResetAfterTries`), and one save after that can bring them back in place of itself
  (`ConfigHoles.SecondReset`).
- Page 0 is accepted by its identifier alone, so a damaged reading in it comes back
  (`ConfigFaults.FirstPageByIdentifier`; example: `ConfigFaults.DamagedFirstPageRestored`).
- Stale pages matter only where the log enters a sector it has not erased yet
  (`ConfigFaults.ImpostorFreeIffLapRestores`).
- A first upload block of at most eight bytes lets the start-up flag into a partial image
  (`UploadRuns.PartialFlagIff`; example: `UploadRuns.ShortFirstBlockFlags`).
- A misplaced block with good status stalls an upload session without a timeout
  (`UploadRuns.MisplacedBlockStalls`, `UploadRuns.StallLasts`).
- Frames with more than 53 payload bytes are sent but never received (`Frame.LongFramesDropped`), and damage to the
  length bytes of a frame can go unnoticed (`Frame.LengthDamageIff`; example: `Frame.LengthDamageAccepted`).
- A host-interface block that ends right before the flag byte makes the receiver look at memory behind the
  message (`HciRuns.SplitAtFlagReadsBehind`), a block response outside a session erases the first sector
  (`HciRuns.StrayResponse`; after a refused start one of the download area, `HciRuns.StartAnswered`), and empty blocks
  keep a session open for ever (`HciRuns.SessionEnds`; example: `HciRuns.EmptyBlockHolds`).
- The boot loader's clean-up of a rejected image follows an unchecked size field (`Bootloader.WipeReachesPast`).
- An empty input is not a fixed point of the patch step after one patch (`OtaBuilder.PatchIdempotent`).
- Reports can be min + max apart, for all intervals with 0 < min < max (`ReportGaps.WidestGapAttained`); an entry
  with min above max is silent (`ReportRuns.MutedNeverReports`).
- A held pulse can be counted again after a single high sample (`Pulses.RecountIff`; example:
  `Pulses.OneHighRecounts`); presets are not written to flash until the next pulse (`Litres.PresetNotSaved`).
- Writing at an address that is not a sector start does not erase the first sector (`Programmer.WriteReadsBack`).

Where names or comments and code disagree the model follows the code: `check_counter_overflow` subtracts the limit
once and so does not bring every 32-bit value below it, and `init_config` checks page 0 by its identifier only.

## Model

| member | source | states |
|---|---|---|
| ConfigRuns.RunRefines | src/app_dev_config.c:108-220 | Main result. Every run of presets, `write_config`, erases of the region for a download, update start, refused or failed update, update success with the boot address flipped, and resets is a run of one persistent cell with a position: the model says for each event what is stored, what is in memory and whether the stored value still has its place in flash, and what a reset finds that goes on into old pages. Assumed is only, of the input, that no downloaded sector opens with a valid record (`CleanStep`); the valid pages of both regions are carried along as part of the state. |
| ConfigRuns.ResetRestoresIff | src/app_dev_config.c:108-188 | Main result. After every run, a reset brings back the value last stored if and only if an update holds it in NV, or the region has not been erased without the value being rooted again, its page is not the last one and no old page continues the log behind it (or it is the default and the reset defaults); every other reset brings the default or the record of the last of those old pages. |
| ConfigRuns.LostIffUprooted | src/app_dev_config.c:190-220 | The stored value is out of place exactly if the region was erased outside an update and since then no update has moved it to NV, no save has come round to page 0, and no reset has defaulted it. |
| ConfigRuns.RefusedUpdateLosesReading | tl_zigbee_sdk/zigbee/ota/ota.c:1479-1502 | On a new device: a counted reading is stored, a download erases one sector and is refused, and the reading is gone after a reset. |
| ConfigRuns.StepRefines | src/app_dev_config.c:108-220 | One event of the firmware is one step of the cell, and the representation, with every sector of both regions in order, is kept. |
| ConfigRuns.FirstBoot | src/app_dev_config.c:119-132 | A device whose NV item is missing or invalid comes up with the default cell and nothing else in its region, whatever its flash holds; it starts such a run if and only if every sector of the other region is in order too: no valid first page, or consecutive records and erased cells behind them. |
| ConfigRuns.SavedReadingReturns | src/app_dev_config.c:159-188 | With the log in place, counters stored outside an update come back after a reset, unless they went to the last page, where the default comes back, or an old page continues the log, which can only be at the end of a sector. |
| ConfigAge.OwnStalePage | src/app_dev_config.c:108-188 | Example: from a log whose page 0 has `top` 0, an update that erases q sectors and moves to the other region, a refused download, a reset and an update back leave the device's own page 16 q as the next record of the log, although nothing downloaded is a valid record: any reset after 16 q - 1 saves goes on into old records. |
| ConfigAge.RestartUncleanIff | src/app_dev_config.c:134-142 | An update ends in front of an old page that will continue the log if and only if some valid page that opens a sector of the region was written on a lap whose page 0 had the `top` that the log restarts with. |
| ConfigAge.PagesAreOwn | src/app_dev_config.c:200-211 | Over every run each valid page that opens a sector, in either region, was there at the start or is the record of a save of the run at that page. |
| ConfigAge.SurvivorIff | src/app_dev_config.c:165-170 | Such a record, if resets since have not set `top` back, belongs to a lap with the present `top` at page 0 if and only if the saves since and its page number add up to a multiple of 2^32. |
| ConfigAge.YoungPagesNeverMislead | src/app_dev_config.c:157-178 | Main result. Over every run with fewer than 2^32 saves since the oldest page, in which no default leaves pages behind in the other region, no reset is misled and every update ends in a log that no old page can continue. |
| ConfigAge.YoungResetRestoresIff | src/app_dev_config.c:108-188 | In such runs a reset restores the stored value exactly if an update holds it or it is rooted and not in the last page, and gives the default otherwise. |
| ConfigAge.NewDeviceIsYoung | src/app_dev_config.c:119-132 | A first boot with no valid page in the other region starts such runs. |
| ConfigOwn.SaveTidy | src/app_dev_config.c:200-211 | A write keeps every sector of both regions in order: records with consecutive `top` from its first page, then erased cells, or no record in its first page; the current sector ends at the current page. |
| ConfigOwn.ScanBoot | src/app_dev_config.c:144-188 | A reset outside an update comes up with the newest record or the last of the old pages that continue it, in a log that is whole there, or with the default when they run to the last page. |
| ConfigOwn.ChainEnd | src/app_dev_config.c:157-178 | In such a region a chain of records, old ones included, ends where its sector is erased behind it or at the end of the sector. |
| ConfigOwn.DownloadTidy | tl_zigbee_sdk/zigbee/ota/ota.c:1479-1502 | A download keeps this order if each sector is as before or does not open with a valid record. |
| ConfigSteps.EraseCutsOff | tl_zigbee_sdk/zigbee/ota/ota.c:1479-1485 | Erasing any number of sectors of the region outside an update takes the log's first page away and keeps what the later run of saves needs. |
| ConfigSteps.CutOffBoot | src/app_dev_config.c:144-155 | A reset of such a device re-defaults. |
| ConfigSteps.CutOffSave | src/app_dev_config.c:200-211 | Saves go on behind the gap; the one that comes round to page 0 makes it a log again, with no stale page that could pass for its next record. |
| ConfigSteps.ScanFindsNewest | src/app_dev_config.c:157-178 | For a chain of k+1 consecutive records the scan of `init_config` stops at page k exactly when page k+1 does not continue the chain, and runs off the region only from the last page. |
| ConfigSteps.NoSuccessor | src/app_dev_config.c:160-173 | With no impostor at a sector start, the page behind the newest record never continues the log. |
| ConfigSteps.AppendStep | src/app_dev_config.c:200-211 | One log write moves to the next page (0 after 831), keeps the log shape, and stores the record it was given with `top` increased modulo 2^32. |
| ConfigSteps.NvWriteStep | src/app_dev_config.c:215-217 | A write during an update changes NV only and makes the working values durable. |
| ConfigSteps.RestartStep | src/app_dev_config.c:190-195 | Writing a restored record restarts the log at page 0 of the region with NV as its twin, whatever the region holds. |
| ConfigSteps.DefaultStep | src/app_dev_config.c:71-93 | Re-defaulting leaves a log of one default record and nothing else in the region. |
| ConfigSteps.BootDuringUpdate | src/app_dev_config.c:134-142 | A boot that finds the update mark in NV brings that record back as page 0 of the log in the region of the present boot address. |
| ConfigSteps.BootOutsideUpdate | src/app_dev_config.c:144-188 | A boot outside an update re-defaults from page 831 and otherwise returns the newest record at its own page. |
| ConfigLog.AppendKeepsLog | src/app_dev_config.c:200-211 | Log shape invariant: pages 0 to k hold valid records with consecutive tops (modulo 2^32), the rest of k's sector is erased; a write re-establishes it at the next page. |
| ConfigLog.AppendAdmitsNone | src/app_dev_config.c:162-170 | No write turns a stale page into a possible successor, also over the wrap of `top` and of the ring: a whole lap of 832 pages is too short for `top` to come round. |
| ConfigLog.DamageDetected | src/app_dev_config.c:17-37 | A valid record in which at most two adjacent bytes are damaged, checksum included, is never valid again. |
| ConfigLog.RecordRoundTrip | src/include/app_dev_config.h:5-15 | The packed 28-byte record decodes to what was encoded. |
| ConfigLog.SealedRecord | src/app_dev_config.c:208-211 | A record sealed with its checksum is valid and keeps its meaning. |
| ConfigFaults.RestoresIffLogEnds | src/app_dev_config.c:157-187 | A reset restores the newest record exactly when it is not in the last page and no page continues it; away from sector ends it always does. |
| ConfigFaults.ImpostorFreeIffLapRestores | src/app_dev_config.c:157-187 | The assumption on stale pages is exact: it holds if and only if a reset after any number of further saves on this lap restores the newest record. |
| ConfigFaults.SavesOnLap | src/app_dev_config.c:200-211 | Saves on one lap move the end of the log forward and neither create nor remove an impostor. |
| ConfigWear.SavesLandOnErasedPages | src/app_dev_config.c:200-211 | Over every run, with its erases, updates and resets, each save outside an update programs an erased page and stores its record bit for bit. |
| ConfigFaults.SaveLandsOnErasedPage | src/app_dev_config.c:200-211 | For one write this needs only that the rest of the current sector is erased, whatever the pages before hold. |
| ConfigFaults.RestartLandsOnErasedPage | src/app_dev_config.c:191-195 | So does the write that restarts the log. |
| ConfigFaults.CutDuringSave | src/app_dev_config.c:200-211 | Wherever power fails inside the erase and programming of page k+1, the next boot returns record k and changes nothing, or flash is that of the completed write. Of the torn page only this is assumed: during the erase it is what it was or invalid, during programming it holds the whole record or an invalid one. |
| ConfigFaults.CutSaveRestores | src/app_dev_config.c:157-178 | So the reset after the cut gives record k at page k or record k+1 at page k+1, for all k+1 below the last page. |
| ConfigFaults.TornWriteRecovers | src/app_dev_config.c:157-178 | The recovery needs only that nothing continues the log behind record k. |
| ConfigFaults.LateCutIsComplete | src/app_dev_config.c:200-211 | After a cut that has programmed all cells of the record, flash is that of a completed write. |
| ConfigFaults.FirstPageByIdentifier | src/app_dev_config.c:144-173 | Outside an update a page 0 with the right identifier is taken whatever its checksum: it is restored exactly when page 1 does not continue it, and otherwise the scan goes on from its `top`. |
| ConfigFaults.DamagedFirstPageRestored | src/app_dev_config.c:146-155 | So any damage behind the identifier of the newest record is restored as it is while that record is in page 0. |
| ConfigFaults.EraseCount | src/app_dev_config.c:205-207 | Closed form for how often an uninterrupted series of saves erases each of the 52 sectors. |
| ConfigFaults.EvenWear | src/app_dev_config.c:205-207 | Over such a series the erase counts of any two sectors differ by at most one. |
| ConfigWear.WearDifference | src/app_dev_config.c:190-211 | Main result. Over every run, how far the erase counts of two sectors of a region are apart: by where the log stands now and stood at first, plus one for every time it was given up between the two, less one for every time it came back there. |
| ConfigWear.BreaksIff | src/app_dev_config.c:108-220 | The log of a region is given up exactly by an update start, and by a reset in the last page, behind a gap or in front of an old page that continues it; all but the last of these lead to page 0. |
| ConfigWear.BalanceCounts | src/app_dev_config.c:190-211 | When no reset is misled, a sector other than the first gains on a later one by every time the log is given up between the two, and the first falls behind by every time it is given up behind the start of the other. |
| ConfigWear.UnbrokenEvenWear | src/app_dev_config.c:205-207 | Any run in which it is not given up keeps all sectors within one erase: presets, refused updates, erases without a reset and resets that restore included. |
| ConfigWear.RoundsWearUnevenly | src/app_dev_config.c:190-211 | Otherwise there is no bound: n rounds of k saves that end in a failed update, or of whole laps that end in a reset in the last page, erase the sectors entered n times and the others never. |
| ConfigWear.NewDeviceWearsUnevenly | src/app_dev_config.c:159-188 | On a new device whose other region is in order two laps ended by resets erase sector 1 twice and sector 0 never. |
| ConfigBattery.ResetAfterTries | tl_zigbee_sdk/proj/drivers/drv_flash.c:176-236 | Saves on one lap, any of them skipped by the drivers on a low battery: a reset returns the reading of the last save before the first skipped one, and the newest exactly if none was skipped and it is not in the last page. |
| ConfigHoles.SecondReset | tl_zigbee_sdk/proj/drivers/drv_flash.c:176-236 | After the first skipped save of a lap, any further ones, a reset, and one save that is carried out, the next reset finds that save exactly if the skipped page opens a sector or the save behind it was skipped too; otherwise it goes on through the saves that were carried out behind the hole, which the first reset had hidden, and to the default if they run to the last page. |
| ConfigHoles.BootSettles | src/app_dev_config.c:108-188 | Every boot ends in a state these saves can start from. |
| ConfigHoles.HoleFilled | src/app_dev_config.c:200-211 | The save after the reset fills the hole: the cells are as if it had been carried out before the saves behind it. |
| ConfigHoles.HoleErased | src/app_dev_config.c:205-207 | A hole that opens a sector is erased with all that was behind it in the sector. |
| ConfigBattery.FirstMiss | tl_zigbee_sdk/proj/drivers/drv_flash.c:176-236 | A skipped save leaves a hole that no record continues, whether its erase was skipped too or not. |
| ConfigBattery.HiddenStays | src/app_dev_config.c:200-211 | Later saves of the lap, carried out or not, do not fill it. |
| ConfigBattery.SkippedRestartLoses | tl_zigbee_sdk/proj/drivers/drv_flash.c:176-236 | A write that restarts the log and loses its programming to the battery leaves a device that a reset sets to the default. |
| ConfigBattery.LapHeals | src/app_dev_config.c:200-211 | The save that comes round to page 0 and is carried out makes the log whole again, if no stale page could pass for its next record. |
| ConfigPlace.FirmwareSpared | src/app_dev_config.c:41-49 | Main result. From any flash, any NV item and either boot address, over every run with downloads of anything in between: no boot, save, preset, update start, failed or successful update or reset, and no erase for an image of the other half, changes one of the 0x34000 bytes from the address the firmware then runs from, 0x40000 or 0. |
| ConfigPlace.EraseSparesIff | tl_zigbee_sdk/zigbee/ota/ota.c:1479-1485 | An erase for a download leaves the running firmware alone if and only if it lies in the lower half or at most 64 sectors are erased; the images the SDK lets through take up to 53. |
| ConfigPlace.BootPlace | src/app_dev_config.c:108-188 | Every boot ends with the log at some page of its region and has touched nothing outside it. |
| ConfigStore.ComputeChecksum | src/app_dev_config.c:17-37 | The bit loop computes the reflected CRC with generator 0xA010 over all but the last two bytes. |
| ConfigStore.Device.GetUserDataAddr | src/app_dev_config.c:39-69 | The log region is apart from the 0x34000 bytes that the firmware runs from, and inside the device. |
| ConfigStore.Device.ClearUserData | src/app_dev_config.c:71-79 | All 52 sectors of the region are erased and nothing else. |
| ConfigStore.Device.InitDefaultConfig | src/app_dev_config.c:81-93 | Stores the default record in NV and at the region start. |
| ConfigStore.Device.WriteRestoreConfig | src/app_dev_config.c:95-106 | Seals the working record and stores it in NV. |
| ConfigStore.Device.ScanLog | src/app_dev_config.c:144-173 | The scan loop stops where the specification `Scan` says, with that page's record. |
| ConfigStore.Device.InitConfig | src/app_dev_config.c:108-188 | All branches of `init_config` against the state function `Initialised`, about which the run theorems speak. |
| ConfigStore.Device.WriteConfig | src/app_dev_config.c:190-220 | The three branches of `write_config`, with what a low battery makes the drivers skip, against the state function `Attempted`, and the sectors erased. |
| ConfigStore.Device.FlashErase | tl_zigbee_sdk/proj/drivers/drv_flash.c:222-236 | An erase does nothing on a low battery. |
| ConfigStore.Device.FlashWrite | tl_zigbee_sdk/proj/drivers/drv_flash.c:176-186 | Nor does a write. |
| ConfigStore.Device.EraseDownloadArea | tl_zigbee_sdk/zigbee/ota/ota.c:1479-1485 | A download erases the log's own region, as many sectors as the image needs; an image of up to 0x34000 bytes finds its whole room erased, and the running firmware is untouched. |
| ConfigStore.Device.OtaStart | src/zb_appCb.c:355-388 | An update start moves the record to NV; below half charge it is refused and completes as a failure. |
| ConfigStore.Device.OtaComplete | src/zb_appCb.c:389-420 | Success ends in a reboot, failure during an update re-initialises the store. |
| Crc16.BurstDetected | src/app_dev_config.c:17-37 | Any generator with its top bit set: two equal-length inputs that differ only within two adjacent bytes have different checksums. |
| Crc16.FoldInjective | src/app_dev_config.c:25-34 | Feeding the same bytes keeps different register values different, because every shift is a bijection. |
| Crc16.SealBroken | src/app_dev_config.c:124-164 | A block that carries its own CRC no longer does after a change of at most two adjacent bytes, wherever they lie. |
| Crc16.FoldAppend | tools/TlsrPgm.py:72-76 | The CRC of a concatenation continues from the CRC of its first part. |
| Crc32.FoldAppend | tl_zigbee_sdk/proj/common/utility.c:82-92 | The same for CRC-32, which is what makes piecewise computation possible. |
| Crc32.BurstDetected | tl_zigbee_sdk/proj/common/utility.c:82-92 | For CRC-32 the same for any four adjacent bytes, because the register takes in a whole word at once. |
| Crc32.SealedIffZero | tl_zigbee_sdk/proj/common/utility.c:82-92 | A block ends with its CRC if and only if the register is zero after all of it. |
| Crc32.SealBroken | tl_zigbee_sdk/proj/common/utility.c:82-92 | So damage within four adjacent bytes, CRC included, always shows. |
| Crc16Table.LookupCorrect | tools/TlsrPgm.py:39-71 | All 256 literal table entries are eight shifts of their index with polynomial 0xA001. |
| Crc16Table.TableCrc16 | tools/TlsrPgm.py:72-76 | The table-driven loop computes the bitwise CRC (section 6.2.2 of MODBUS over Serial Line), low byte first. |
| Crc16Table.ChkIffBlk | tools/TlsrPgm.py:77-83 | `crc_chk` accepts a block if and only if `crc_blk` builds it. |
| Crc16Table.ChkRejectsBursts | tools/TlsrPgm.py:77-83 | Changing at most two adjacent bytes of an accepted block is always noticed. |
| Crc32Table.LookupCorrect | tl_zigbee_sdk/proj/common/utility.c:28-80 | All 256 entries of the SDK's CRC-32 table are eight shifts of their index with polynomial 0xEDB88320. |
| Crc32Table.Xcrc32 | tl_zigbee_sdk/proj/common/utility.c:82-92 | The table-driven `xcrc32` computes the bitwise CRC-32 from any starting value. |
| Flash.Chip.Write | tl_zigbee_sdk/platform/chip_8258/flash.c:240-255 | Cutting a write at page ends makes page bursts add up to one linear AND-programming, although the chip's own address wraps inside a page. |
| Flash.Chip.EraseSectors | tl_zigbee_sdk/apps/bootLoader/bootloader.c:406-408 | Erasing sector after sector wipes exactly the range. |
| Bootloader.CrashSafeUpdate | tl_zigbee_sdk/apps/bootLoader/bootloader.c:129-222 | Main result. Over any number of boots, each of which may lose power at any flash operation or reset on a read-back mismatch, a pending image stays intact and flagged until it is installed; every boot that hands over finds the whole new image if one was pending, else the whole old area. |
| Bootloader.CrashSafeWithoutCleanUp | tl_zigbee_sdk/apps/bootLoader/bootloader.c:129-222 | The same for a clean-up that may fail silently at every operation: each boot that hands over finds the whole new or the whole old image, if no damaged rest of a staged image passes the check. |
| Bootloader.InterruptedStaysPending | tl_zigbee_sdk/apps/bootLoader/bootloader.c:131-190 | While an installation is incomplete the image is still accepted, with the same size and bytes. |
| Bootloader.InstalledStarts | tl_zigbee_sdk/apps/bootLoader/bootloader.c:209-222 | The boot that installs a non-empty image also starts it. |
| Bootloader.Board.BootloaderWithOtaCheck | tl_zigbee_sdk/apps/bootLoader/bootloader.c:129-223 | One boot, with cuts and silent failures at every flash operation, does only what `LooseStep` allows, and what `BootStep` allows if the clean-up does not fail silently; without faults it ends in the application or in the no-application state and a flagged staging area is left erased. Then every staged byte of an image within the limit reads 0xFF, and an installation has changed nothing but the sectors copied to and those staged in. |
| Bootloader.Board.StagedCrc | tl_zigbee_sdk/apps/bootLoader/bootloader.c:144-158 | The 256-byte loop computes the CRC of all but the last four bytes; a size below four covers nothing. |
| Bootloader.Board.CopyImage | tl_zigbee_sdk/apps/bootLoader/bootloader.c:168-190 | The copy either leaves the running area equal to the staged pages or ends in a reset or cut that touched the running area alone; without faults it succeeds. |
| Bootloader.Board.ClearStaging | tl_zigbee_sdk/apps/bootLoader/bootloader.c:195-202 | The flag goes first: unless its clearing fails silently, the staging area changes only once it can no longer be taken for an image. Without faults every byte of an image within the limit then reads 0xFF. |
| Bootloader.StagingDecides | tl_zigbee_sdk/apps/bootLoader/bootloader.c:131-163 | Whether an image is accepted depends on the staging area alone, plus four bytes before it for sizes below four. |
| Bootloader.AcceptedIffSealed | tl_zigbee_sdk/apps/bootLoader/bootloader.c:139-163 | From four bytes on, an image is accepted exactly if it fits and ends with the CRC of the rest. |
| Bootloader.DamagedImageRejected | tl_zigbee_sdk/apps/bootLoader/bootloader.c:139-163 | An image damaged within four adjacent bytes is never accepted while its size field still says the same: no boot installs it, and one that hands over has withdrawn it. |
| Bootloader.WipeCovers | tl_zigbee_sdk/apps/bootLoader/bootloader.c:197-201 | For sizes within the limit the sectors of the staged image are erased, and no others. |
| Bootloader.TinyImageAccepted | tl_zigbee_sdk/apps/bootLoader/bootloader.c:139-163 | With a size field below four the check succeeds exactly if four fixed bytes read 0xFF. |
| Bootloader.WipeReachesPast | tl_zigbee_sdk/apps/bootLoader/bootloader.c:198-201 | The clean-up erases past the staging area exactly for size fields over the limit, short of the 32-bit wrap, where it erases nothing. |
| UploadRuns.UploadFollowsImage | tl_zigbee_sdk/apps/bootLoader/bootloader.c:429-489 | With a peer that sends the requested pieces of an image, the staging area always holds the part received with its flag byte still 0xFF; once it is complete, and until another upload begins, the whole image is stored, verbatim exactly if its own flag byte is 0x4B. |
| UploadRuns.NoPartialImageBoots | tl_zigbee_sdk/apps/bootLoader/bootloader.c:438-476 | If every first block is longer than eight bytes or finishes its image, nothing is flagged while it arrives, and what is flagged later is a completed upload: partial, timed-out and overrun uploads never are. |
| UploadRuns.RequestedUploadsAreSafe | tl_zigbee_sdk/apps/bootLoader/bootloader.c:334-353 | A peer that answers with as many bytes as requested keeps that rule, over whole runs. |
| UploadRuns.PowerCutDuringUpload | tl_zigbee_sdk/apps/bootLoader/bootloader.c:384-476 | The same with a power cut at any point of any event, also in the middle of programming a block or the flag byte: what is flagged then is the image complete before, or the one just completed. |
| UploadRuns.PartialFlagIff | tl_zigbee_sdk/apps/bootLoader/bootloader.c:448-452 | Exactly when a partial image is flagged: its first block ended before the flag byte and bytes 8 to 11 are the start-up flag. |
| UploadRuns.ShortFirstBlockFlags | tl_zigbee_sdk/apps/bootLoader/bootloader.c:448-452 | Such a run exists: blocks of 8 and 40 bytes flag the staging area with the upload still open. |
| UploadRuns.StagingHoldsBlocks | tl_zigbee_sdk/apps/bootLoader/bootloader.c:448-457 | Over every run and any peer the staging area is the accepted blocks, the first one masked, and erased behind them. |
| UploadRuns.CompletionStores | tl_zigbee_sdk/apps/bootLoader/bootloader.c:457-467 | On completion the whole image is stored with its flag byte forced to 0x4B, so verbatim exactly if it was 0x4B. |
| UploadRuns.AnsweredUploadCompletes | tl_zigbee_sdk/apps/bootLoader/bootloader.c:334-489 | From any idle receiver a peer that answers each request brings an image to completion and the boot check is scheduled. |
| UploadRuns.ExchangeAnswersRequests | tl_zigbee_sdk/apps/bootLoader/bootloader.c:334-353 | A request asks for the next piece of the image, 40 bytes or what is left; the answers of that peer are exactly those pieces. |
| UploadRuns.StartAnswered | tl_zigbee_sdk/apps/bootLoader/bootloader.c:389-428 | A start request is accepted exactly outside a session and for a size of up to 0x31000, and then as much is erased; a refused one changes nothing and is answered with the session as it is. |
| UploadRuns.BlockAnswered | tl_zigbee_sdk/apps/bootLoader/bootloader.c:429-489 | Each answer to a block tells what became of it: completed, stored, stored past the end, misplaced, or an error. |
| UploadRuns.SuccessMeansStored | tl_zigbee_sdk/apps/bootLoader/bootloader.c:457-467 | Over every upload the peer is told of success only when, and always when, the whole image has just been stored. |
| UploadRuns.ExchangeTranscript | tl_zigbee_sdk/apps/bootLoader/bootloader.c:334-489 | A peer that answers each request is told exactly this: a request for 40 bytes or the rest, an acknowledgement of each block, and success with the last. |
| UploadRuns.StepMeasure | tl_zigbee_sdk/apps/bootLoader/bootloader.c:364-382 | Every timer tick and every accepted block strictly lowers the measure, or ends the session; no event but a new start raises it. |
| UploadRuns.SessionEnds | tl_zigbee_sdk/apps/bootLoader/bootloader.c:364-382 | Every timer tick and every accepted block strictly lowers 7*(total - offset) + 7 - retryCnt or ends the session, so a session takes at most that many of them. |
| UploadRuns.RequestsBounded | tl_zigbee_sdk/apps/bootLoader/bootloader.c:364-382 | At most five block requests are sent per accepted block, and five before the first. |
| UploadRuns.MisplacedBlockStalls | tl_zigbee_sdk/apps/bootLoader/bootloader.c:429-489 | A running session is left open with its timer off exactly by a good-status block that is misplaced, empty or over 40 bytes. |
| UploadRuns.StallLasts | tl_zigbee_sdk/apps/bootLoader/bootloader.c:388-421 | A stalled session stays as it is for ever unless the peer sends another block response: no timeout, no new session. |
| UploadRuns.OnlyStagingChanges | tl_zigbee_sdk/apps/bootLoader/bootloader.c:384-489 | An upload changes nothing outside the staging area, except up to 39 bytes behind it when the last block of the largest image overruns. |
| UploadRuns.AlwaysSound | tl_zigbee_sdk/apps/bootLoader/bootloader.c:334-494 | Offset below total, at most five retries, and no boot check armed while a session is open, in every run. |
| Upload.Receiver.UpgradeStart | tl_zigbee_sdk/apps/bootLoader/bootloader.c:389-428 | The start request, its refusals and its erase loop against the step function `Next` and the reply function `Answer`. |
| Upload.Receiver.UpgradeBlock | tl_zigbee_sdk/apps/bootLoader/bootloader.c:429-489 | The block response with all its outcomes against the same two functions. |
| Upload.Receiver.UartBlockReq | tl_zigbee_sdk/apps/bootLoader/bootloader.c:334-353 | A request starts at the current offset, never reaches past the image, and asks for 40 bytes unless it is the last. |
| Upload.Receiver.UpgradeBlockReqTimerCb | tl_zigbee_sdk/apps/bootLoader/bootloader.c:364-382 | The retry timer against the same two functions. |
| Frame.UartRxDataProc | tl_zigbee_sdk/apps/bootLoader/bootloader.c:496-535 | A message is delivered if and only if the buffer starts with the frame the sender would have built for an accepted type and that payload; the first failing comparison decides the error. |
| Frame.UartTx | tl_zigbee_sdk/apps/bootLoader/bootloader.c:266-283 | Fills the buffer with the frame of type, length, checksum and payload, and touches nothing behind it. |
| Frame.Crc8Calc | tl_zigbee_sdk/apps/bootLoader/bootloader.c:251-264 | The checksum is the exclusive or of the four header bytes and the payload. |
| Frame.FrameRoundTrip | tl_zigbee_sdk/apps/bootLoader/bootloader.c:266-283 | A framed payload arrives with the same type, length and bytes, and as nothing else. |
| Frame.DamageRejected | tl_zigbee_sdk/apps/bootLoader/bootloader.c:496-535 | Changing any single byte of a frame, other than its two length bytes, is rejected. |
| Frame.LengthDamageIff | tl_zigbee_sdk/apps/bootLoader/bootloader.c:504-516 | A frame whose length bytes are damaged to n is still delivered if and only if the byte at the new end is an end flag and the bytes lost or gained mix up to the difference of the two lengths; then with length n. |
| Frame.ShorterLengthAccepted | tl_zigbee_sdk/apps/bootLoader/bootloader.c:504-516 | For a shorter length this is a condition on the payload alone. |
| Frame.LengthDamageAccepted | tl_zigbee_sdk/apps/bootLoader/bootloader.c:506-509 | Such frames exist. |
| Frame.UartRxHandler | tl_zigbee_sdk/apps/bootLoader/bootloader.c:541-551 | Received data is queued exactly if it has 1 to 60 bytes. |
| Frame.LongFramesDropped | tl_zigbee_sdk/apps/bootLoader/bootloader.c:541-551 | So of the 57 payload bytes that fit the sender's buffer, at most 53 get through. |
| Frame.BlockArrives | tl_zigbee_sdk/apps/bootLoader/bootloader.c:434-443 | A framed block response arrives as the upload event with its status, offset, length and bytes, for every status and up to 40 bytes. |
| Frame.StartArrives | tl_zigbee_sdk/apps/bootLoader/bootloader.c:389-394 | A framed start request arrives as the upload event with its size. |
| OtaBuilder.PatchBuildsImage | tools/make_ota.py:17-28 | Every unpatched input of more than 16 bytes becomes an image of whole 16-byte units plus CRC, whose size field is its own length; byte for byte. |
| OtaBuilder.PatchIdempotent | tools/make_ota.py:17-28 | Patching twice is patching once if and only if the input is not empty. |
| OtaBuilder.ShortInputGrows | tools/make_ota.py:22-25 | Inputs of up to 16 bytes get size and magic inserted at the end instead, and a wrong size. |
| OtaBuilder.Patch | tools/make_ota.py:16-28 | The in-place edits with Python's slice rules build `Patched`. |
| OtaBuilder.HeaderLabels | tools/make_ota.py:30-50 | Byte for byte: file identifier, header version and length are literal, manufacturer, image type and version are bytes 18 to 21 and 2 to 5 of the firmware, or the version asked for, and the name is empty. |
| OtaBuilder.HeaderRoundTrip | tools/make_ota.py:30-50 | Every field packed into the outer header can be read back (section 11.4 of the Zigbee Cluster Library specification). |
| OtaBuilder.Build | tools/make_ota.py:30-68 | The file is header, chunk header and patched firmware, with the bytes of `Labelled`; its total-size field is the length of the file; values too wide for a field give no file. |
| EndToEnd.BuiltImageAccepted | tl_zigbee_sdk/apps/bootLoader/bootloader.c:131-163 | A staged patched image is read with its own length and accepted by the boot loader exactly if it fits and its input carried the start-up flag. |
| EndToEnd.BuiltUploadPending | tl_zigbee_sdk/apps/bootLoader/bootloader.c:457-467 | A completed upload of a built image is pending, whatever flash held before. |
| EndToEnd.BuiltImageInstalled | tl_zigbee_sdk/apps/bootLoader/bootloader.c:129-222 | Build, upload, any number of interrupted boots: each boot that hands over runs exactly the built image. |
| EndToEnd.BuiltImageGood | tl_zigbee_sdk/zbhci/zbhciCmdProcess.c:1245-1256 | The host-interface receiver lets through the same built images as the boot loader. |
| EndToEnd.BuiltHciPending | tl_zigbee_sdk/zbhci/zbhciCmdProcess.c:1085-1105 | A built image sent over the host interface, in any pieces clear of the flag byte, passes the validity check of the reset callback and is pending once that has set the flag. |
| EndToEnd.BuiltHciStarts | tl_zigbee_sdk/zbhci/zbhciCmdProcess.c:1085-1112 | Without a boot loader, as this firmware is built: a built image sent in any pieces clear of the flag byte passes both checks, and after the reset the chip starts from the area that holds exactly this image, whichever area it ran from before. |
| HciRuns.SplitIndependent | tl_zigbee_sdk/zbhci/zbhciCmdProcess.c:1195-1259 | However a local image is cut into non-empty blocks, and with up to five retry ticks between them, the running CRC after o bytes covers exactly min(o, total - 4) of them, and the session succeeds exactly if the image is flagged and ends with the CRC of the rest. The guard excludes only blocks that end right before the flag byte. |
| HciRuns.SplitAtFlagReadsBehind | tl_zigbee_sdk/zbhci/zbhciCmdProcess.c:1211-1219 | For such a block the session goes on if and only if the byte of memory behind the message is 0x4B. |
| HciRuns.GoodMeansSealed | tl_zigbee_sdk/zbhci/zbhciCmdProcess.c:1247-1254 | From 13 bytes on, the final comparison is about the file's own last four bytes. |
| HciRuns.LocalTold | tl_zigbee_sdk/zbhci/zbhciCmdProcess.c:1245-1259 | The other side is told of success with the last block of a good image, of a failure with the block that shows the wrong flag byte or the last one of a bad image, and nothing otherwise. |
| HciRuns.NewImageIffGood | tl_zigbee_sdk/zbhci/zbhciCmdProcess.c:1093-1096 | The check repeated before the reset is the first one again, on the stored image with its flag byte put in. |
| HciRuns.DamagedNewImageRejected | tl_zigbee_sdk/zbhci/zbhciCmdProcess.c:1093-1096 | So it lets no stored image through that was damaged within four adjacent bytes behind the size field. |
| HciRuns.RemoteSplitIndependent | tl_zigbee_sdk/zbhci/zbhciCmdProcess.c:1220-1240 | However a relayed file is cut, with up to five retry ticks between blocks, it is refused exactly if bytes 8 to 11 are the start-up flag, and stored unchanged otherwise. |
| HciRuns.RebootRestoresImage | tl_zigbee_sdk/zbhci/zbhciCmdProcess.c:1085-1105 | Programming the flag byte turns the stored image into the image that was sent. |
| HciRuns.SixthTickEnds | tl_zigbee_sdk/zbhci/zbhciCmdProcess.c:1074-1083 | The sixth tick in a row ends the session and erases what it has stored. |
| HciRuns.SessionEnds | tl_zigbee_sdk/zbhci/zbhciCmdProcess.c:1074-1083 | Without empty blocks every tick and every block uses up 7*(total - offset) + 7 - blockRequestCnt, so a session takes at most that many of them. |
| HciRuns.EmptyBlockHolds | tl_zigbee_sdk/zbhci/zbhciCmdProcess.c:1240-1244 | With them it can last for ever: a tick answered by an empty block leaves a relayed session exactly as it was. |
| HciRuns.StrayResponse | tl_zigbee_sdk/zbhci/zbhciCmdProcess.c:1179-1258 | Outside a session a block response erases the first sector of the device, unless its status is good and its offset non-zero or length zero. |
| HciRuns.StartAnswered | tl_zigbee_sdk/zbhci/zbhciCmdProcess.c:1128-1178 | A start request is accepted exactly outside a session, with a boot address and below the size limit; then as much is erased in the area that does not run. One that is too large leaves its numbers behind, and a response with a bad status then erases a sector of that area. |
| HciRuns.FailedSessionErases | tl_zigbee_sdk/zbhci/zbhciCmdProcess.c:1047-1065 | Whatever a session has received, and however it fails, the whole area it had erased at its start reads 0xFF again when the other side is told. |
| HciRuns.RunStaysInArea | tl_zigbee_sdk/zbhci/zbhciCmdProcess.c:1024-1065 | Over every run from inside a session, time-outs included, to its end and after it, only that area can change, as long as no response comes outside a session. |
| HciRuns.SessionStaysInArea | tl_zigbee_sdk/zbhci/zbhciCmdProcess.c:1047-1065 | Inside a session a response changes only the download area and the one sector behind it. |
| HciOta.Receiver.StartRequest | tl_zigbee_sdk/zbhci/zbhciCmdProcess.c:1136-1178 | The start request against `Started`, with its refusals; an oversize request still overwrites address and size. |
| HciOta.Receiver.BlockResponse | tl_zigbee_sdk/zbhci/zbhciCmdProcess.c:1179-1262 | The block response against `Received`, including the wrapped length difference and the byte looked at behind a block. |
| HciOta.Receiver.StoreBlock | tl_zigbee_sdk/zbhci/zbhciCmdProcess.c:1240-1259 | Storing a block and choosing between next request, success and failure. |
| HciOta.Receiver.CheckNewImage | tl_zigbee_sdk/zigbee/ota/ota.c:150-194 | The validity check reads the size field, compares three flag bytes and the CRC over the image with the flag byte as it will be. |
| HciOta.Receiver.NewImageCrc | tl_zigbee_sdk/zigbee/ota/ota.c:174-187 | Its 256-byte loop computes that CRC. |
| HciOta.Receiver.LocalOtaRebootDelay | tl_zigbee_sdk/zbhci/zbhciCmdProcess.c:1085-1123 | A valid image gets its flag byte, and without a boot loader the running one loses its own, so that the chip starts from the other area; no other byte changes. A reset follows exactly if the flag byte could be programmed. |
| HciOta.Receiver.ScanBootFlag | tl_zigbee_sdk/zbhci/zbhciCmdProcess.c:1221-1238 | The byte loop collects the flag across blocks. |
| HciOta.Receiver.UartSendOtaBlockRequest | tl_zigbee_sdk/zbhci/zbhciCmdProcess.c:1033-1046 | A request never reaches past the file and asks for 40 bytes unless it is the last. |
| HciOta.Receiver.UartSendOtaEnd | tl_zigbee_sdk/zbhci/zbhciCmdProcess.c:1047-1072 | A failed session erases every sector it may have written; the session is cleared. |
| HciOta.Receiver.RecvOtaBlockResponseCb | tl_zigbee_sdk/zbhci/zbhciCmdProcess.c:1074-1083 | Five retries, then the session ends. |
| ReportRuns.ReportSpacing | src/app_reporting.c:66-160 | Main result. For a bound entry with 0 < min < max < 0xFFFF consecutive reports are at least min and at most min + max apart, and the silence since the last one is no longer, over every run of value changes, timers and main-loop passes. |
| ReportGaps.WidestGapAttained | src/app_reporting.c:108-124 | The upper bound is attained for all 0 < min < max: some run has two consecutive reports exactly min + max apart. |
| ReportRuns.FirstReport | src/app_reporting.c:108-124 | If nothing was reported before the first max timer, that timer reports. |
| ReportRuns.MinTimerReportsChange | src/app_reporting.c:88-106 | With different intervals the min timer reports exactly when the value has changed since the last report, and leaves nothing to report unless the SDK's comparison finds a value to differ from itself. |
| ReportRuns.CounterReported | src/app_reporting.c:43-64 | In numbers: a 48-bit counter last reported as p that stands at c is reported, by the min timer or a main-loop pass, exactly if c > p + d or p > c + d for a threshold of d, and then c is what was last reported. |
| ReportRuns.ValueReported | src/app_reporting.c:88-106 | A value of another kind is reported exactly if it is not the one last reported. |
| ReportRuns.FirstPass | src/app_reporting.c:126-160 | The first main-loop pass starts both timers, each with its own interval. |
| ReportRuns.EqualIntervals | src/app_reporting.c:78-86 | With min == max reports come exactly min apart. |
| ReportRuns.NoMinimumSpacing | src/app_reporting.c:162-210 | With min == 0 reports are at most max apart and the max timer always runs from the last one. |
| ReportRuns.HandlerSettles | src/app_reporting.c:183-206 | A main-loop pass reports a pending change of an entry with max 0, or with min 0 and reporting not switched off, and leaves none behind, with the same exception. |
| ReportRuns.MutedNeverReports | src/app_reporting.c:126-160 | An entry with max 0xFFFF, or with min above a non-zero max, never starts a timer and never reports. |
| ReportRuns.UnboundSendsNothing | src/app_reporting.c:66-160 | An unbound entry, or one without attribute, sends nothing over every run, whatever timers still run. |
| ReportRuns.UnusedLeftAlone | src/app_reporting.c:126-210 | The main loop leaves entries alone that are not in use or not bound. |
| ReportRuns.MinTimerRepeats | src/app_reporting.c:66-106 | The min timer begins again with every run-out until the attribute is gone. |
| ReportRuns.TableHandler | src/app_reporting.c:231-244 | A pass over the whole table acts on each entry as one handler event. |
| Reporting.ReportableChangeValueChk | src/app_reporting.c:43-64 | For 48-bit counters a report is needed exactly if the value moved by more than the threshold, in either direction, in the numbers whose digits the six bytes are; with a threshold of zero exactly if one of the six bytes differs. |
| Reporting.U48RoundTrip | src/app_reporting.c:47-52 | The six bytes are the digits of the number, low byte first. |
| Reporting.U48Injective | src/app_reporting.c:47-52 | Two numbers are equal exactly if their six bytes are. |
| Reporting.Reporter.MinAttrTimerCb | src/app_reporting.c:66-106 | The min timer of an entry against `MinFired`; returning 0 repeats the period. |
| Reporting.Reporter.MaxAttrTimerCb | src/app_reporting.c:108-124 | The max timer against `MaxFired`: it cancels the min timer and does not move the time of the last report. |
| Reporting.Reporter.ReportAttrTimerStart | src/app_reporting.c:126-160 | The start loop acts on every entry as `TimersStarted`. |
| Reporting.Reporter.ReportNoMinLimit | src/app_reporting.c:162-210 | The loop acts on every entry up to the first one that lacks its attribute, where it gives up. |
| Reporting.Reporter.ReportHandler | src/app_reporting.c:231-244 | Both loops, when joined and not held back. |
| Litres.LitresConserved | src/app_counter.c:11-140 | Main result. Over every run of polls, step changes, sleeps, restarts, erases for a download and updates, without presets and without a restart outside an update that finds the newest record in page 831, the log's first page erased or an old page that continues the log, each counter is its start plus the step in force times every counted pulse, modulo 100000000, stays below that if it began there, and as much is stored. Downloaded bytes are no records of the log; restarts go through `init_config` of the modelled store. |
| Accounts.LitresAccounted | src/app_counter.c:11-140 | The same with presets: over every run without a losing restart both counters stand, in memory and as stored, as an account says in which a preset sets the memory side, a counted pulse of either input stores both, and a restart goes back to what is stored; modulo 100000000, and downloaded bytes are no records of the log. |
| Accounts.PresetRebases | src/zcl_appCb.c:182-203 | A preset re-bases memory only; a restart before the next pulse brings the stored litres back, and the next counted pulse makes memory and flash agree again. |
| Litres.RestartIsStartUp | src/watermeter.c:156-157 | A restart of the run model is `init_config` followed by `init_counters`. |
| Litres.RestartKeepsIff | src/app_counter.c:31-76 | Exactly what the restarts left out do: they come up with the default, or with the last of the old pages that continue the log, so a restart keeps both readings if and only if it is none of them or finds the same readings there. |
| Litres.YoungMeterLoses | src/app_counter.c:31-76 | Over fewer than 2^32 counted pulses old pages play no part, unless a restart goes back to the default and leaves pages behind in the other region: only the last page and an erased first page lose a reading. |
| Litres.StoreRunIs | src/app_counter.c:114-143 | Every run of the meter is a run of the store, a poll with pulses being a preset and a save. |
| Litres.LastPageLosesLitres | src/app_counter.c:114-143 | The pulse that goes to the last page is counted and stored, and a restart then finds no litres. |
| Litres.StepConserves | src/app_counter.c:114-143 | One event moves both counters by exactly what is owed. |
| Litres.NewMeterKept | src/app_counter.c:31-76 | The first boot of a device starts such runs, if the other region is in order. |
| Litres.PollsAreCounts | src/app_counter.c:88-122 | Along polls of both pins the litres of each are the step times what the debounce walk counts from the height it stands at, and one pulse more if one was waiting. |
| Litres.EdgeAcrossRestart | src/app_pm.c:83-97 | Across a flagged restart, or an update that ends in one, exactly a high-to-low change adds a pulse at the next poll, exactly one; a power-on adds none. |
| Litres.PollsAfterRestart | src/app_counter.c:31-76 | After a restart a low pin starts the walk at 32 and a high one at 1, and a pin remembered as high that is low now has one pulse waiting: so much is counted over any polls that follow, for both pins. |
| Litres.HeldPinAddsEdgeOnly | src/app_counter.c:41-62 | So a pin held low through sleep and restart counts nothing, however long it is polled, and one that fell meanwhile counts once. |
| Litres.SecondRestartAddsNothing | src/app_counter.c:59-75 | A restart right after a restart adds no pulse. |
| Litres.UnflaggedRestartAddsNothing | src/app_counter.c:59-75 | Without the flag a restart adds nothing and leaves no flag. |
| Litres.PresetNotSaved | src/zcl_appCb.c:182-225 | A preset or step change leaves no trace in a restart before the next pulse. |
| Litres.StepInForce | src/zcl_appCb.c:209-225 | A step change is in force from the next pulse on. |
| Counter.PresetTo | src/zcl_appCb.c:182-203 | A preset becomes its whole-pulse value modulo the limit, below it exactly if that value is below twice the limit. |
| Pulses.FirstCountIff | src/app_counter.c:88-99 | From a released pin the first pulse is counted exactly when some window of polls first has at least 31 more low than high ones. |
| Pulses.FirstCountFrom | src/app_counter.c:88-99 | The same from any height of the walk. |
| Pulses.CountNeedsWindow | src/app_counter.c:88-99 | Every pulse is counted at a low poll that ends such a window or makes up for the starting height. |
| Pulses.RecountIff | src/app_counter.c:88-99 | A held pulse is counted again if and only if, after the first high poll, the low polls outnumber the high ones by one counted from there, or by 31 in some window. |
| Pulses.LaterCounts | src/app_counter.c:88-99 | After a count each further one uses up a high poll and a low poll of its own. |
| Pulses.OneHighRecounts | src/app_counter.c:88-99 | So one high and one low poll are enough. |
| Pulses.CleanPulse | src/app_counter.c:88-99 | A press and a release of at least 31 polls each count exactly once. |
| Counter.CheckCounterOverflow | src/app_counter.c:11-24 | One subtraction of the limit. |
| Counter.Overflowed | src/app_counter.c:11-24 | Congruent modulo the limit, and below it if and only if the argument is below twice the limit. |
| Counter.StepFrom | src/zcl_appCb.c:212-218 | A step preset becomes 1 below ten, 100 above a hundred, and otherwise the multiple of ten at or below it. |
| Counter.WaterMeter.CountersHandler | src/app_counter.c:78-160 | One poll of both pins, its additions and its `write_config`, against `AfterPoll`; the configuration is saved exactly when a pulse was added. |
| Counter.WaterMeter.InitCounters | src/app_counter.c:31-76 | The restart branches against `CountersStarted`. |
| Counter.WaterMeter.UserInit | src/watermeter.c:156-157 | The start-up restores the configuration first and then reads the pins. |
| Counter.WaterMeter.SetRegDeepSleep | src/app_pm.c:83-97 | The register gets the flag and the two pin levels. |
| Programmer.Programmer.WriteBlockFlash | tools/TlsrPgm.py:716-772 | At a page boundary the chunked loop with its sector bookkeeping, skipped blank pieces and stream rules does what erasing every sector that starts in the range and then programming everything does; it fails exactly if the stream is shorter than size, after one erase too many at a sector end. |
| Programmer.Programmer.ReadBlockFlash | tools/TlsrPgm.py:548-563 | Reads back exactly the range. |
| Programmer.WriteReadsBack | tools/TlsrPgm.py:716-772 | At a sector boundary what was written reads back; elsewhere it does if and only if the part in the first, unerased, sector needs no bit raised. |
| Programmer.OtherSectorsKept | tools/TlsrPgm.py:719-744 | Sectors without a written byte keep their content, the rest of an erased sector reads 0xFF. |
| Programmer.WriteWithoutErase | tools/TlsrPgm.py:725-744 | Without erasing, data reads back exactly if it raises no bit. |
| Programmer.WholeFileUsed | tools/TlsrPgm.py:745-770 | A longer stream is written past the requested size, up to the next whole piece. |

## Left out

- ConfigStore.Device.WriteConfig: the battery may drop between erase and programming but not recover; all other writers call it with enough battery.
- ConfigStore.Device.WriteRestoreConfig: NV is one cell whose writes always succeed and are atomic; its read status is modelled as a missing item.
- ConfigStore.Device.EraseDownloadArea: an image of the largest size also erases the sector behind the region, where the SDK keeps NV when it runs from the upper half; NV is not part of the modelled cells. An erase that is cut in the middle of its first sector is not modelled.
- ConfigStore.Device.OtaComplete: the reset that success asks for is skipped by the SDK when the new image is not valid; then nothing happens to the store.
- ConfigRuns.RunRefines: saves are carried out in full, skipped ones are the subject of `ConfigBattery` and `ConfigHoles`, up to the second reset or the end of the lap, and what two or more saves after the first reset program over the records behind a hole is left out; crash points between the NV write and the log write of a default or restored record, and the two start-up-flag bytes that a successful update programs, are not steps of their own; a download may put anything in flash but a sector that opens with a valid record of the log.
- ConfigFaults.CutDuringSave: stops at the recovery, covers pages 1 to 831 and not page 0, and leaves a later save over a torn page out.
- Bootloader.CrashSafeUpdate: its clean-up can be cut but does not fail silently, and a cut erase leaves no start-up flag; `Bootloader.CrashSafeWithoutCleanUp` needs neither.
- Bootloader.WipeReachesPast: erases past the end of the device are taken to vanish, so even an oversize field never reaches the running area; a chip that wraps its addresses there is not modelled.
- Bootloader.Board.BootloaderWithOtaCheck: faults act on the cells an operation addresses; the copy of RAM code, LEDs, watchdog and flash locking are left out; addresses and sizes are those of the TLSR8258 with 512 kB in boot loader mode.
- Upload.Receiver.UpgradeBlock: apart from power cuts the chip is fault-free during an upload, and a sector erase is not cut in its middle; timers are events, their 10, 50 and 500 ms are not modelled; acknowledgements appear as values, their encoding is that of `Frame`; the key that cancels the boot check is left out.
- Frame.UartTx: payloads that overrun the transmit buffer are excluded, the source does not check them.
- HciRuns.SplitIndependent: blocks that end right before the flag byte are the subject of `HciRuns.SplitAtFlagReadsBehind`, sessions that time out of `HciRuns.SixthTickEnds`.
- HciOta.Receiver.BlockResponse: a final comparison whose four bytes would lie before address 0 or behind the device is excluded; such a session is refused for its flag anyway.
- HciOta.Receiver.StoreBlock: the same final comparison outside the device is excluded.
- HciOta.Receiver.UartSendOtaEnd: what the SDK does with a relayed file after success (`ota_loadImageInfo`) is left out.
- HciOta.Receiver.StartRequest: the running address is an argument; a session with neither address valid is refused as in the source.
- OtaBuilder.Build: file names, command line and file access are left out; the version override and stack version are arguments.
- Reporting.Reporter.ReportHandler: the physical tick clock with its wrap-around, the 32-bit microsecond products, and a full timer pool are replaced by an ideal clock and timers that always start; the SDK's comparison of types other than 48-bit counters is an argument; the early exits when no entry is in use would change nothing.
- ReportRuns.ReportSpacing: configuration and binding of the entry stay fixed during a run.
- Counter.WaterMeter.CountersHandler: attributes, poll rates and sleep are left out.
- Litres.LitresConserved: presets are excluded from its runs and are the subject of `Accounts.LitresAccounted`; saves are carried out, skipped ones are the subject of `ConfigBattery`; a pulse carried over a restart that is followed by a second restart before the next poll is lost, as in the source, and is not counted by it.
- Programmer.Programmer.WriteBlockFlash: device errors and the retry loops, ranges past the 24-bit address space, and offsets that are not page boundaries are left out; how the programmer's own firmware treats a burst across a page end is not part of this repository.
- Zigbee stack, commissioning, radio, buttons, leak sensor, battery measurement, zigbee2mqtt converters and sample applications are not modelled; they would add easy members.
