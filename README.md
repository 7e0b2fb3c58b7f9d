# Lulzbot extras for Marlin, modelled in Dafny

`Marlin/src/Lulzbot_Extras.h` adds vendor-specific patches to the Marlin 3D-printer firmware. This project models the four parts of it that hold state:

- **Z-offset auto-save** (`zoffset_autosave.dfy`, module `ZOffsetAutoSave`). The EEPROM settings record carries a CRC. The settings serializer accumulates that CRC byte by byte in `working_crc` while it advances `eeprom_index`. `LULZBOT_EEPROM_BEFORE_ZOFFSET` saves the CRC and captures the index into `AutoSaveZOffset`. `LULZBOT_EEPROM_AFTER_ZOFFSET` puts the saved CRC back. As a result, the z-offset bytes never reach the CRC, and their position is known for a later single-value write.
  - The serializer pass is a loop over the record's fields, and field `t` is the bracketed one. The same pass stands for both writing and reading the record, because the macros bracket `EEPROM_WRITE` and `EEPROM_READ` alike.
  - The CRC update is the parameter `step: (bv16, bv8) -> bv16`, and the model never interprets it.
  - The model proves four things: the CRC skips exactly the z-offset field; it does not depend on the z-offset's bytes; the captured offset is the total length of the fields before it; and overwriting the z-offset at that offset gives the image of the updated record, with the same CRC.
- **Frame-IRQ toggle** (`frame_irq.dfy`, module `FrameIrq`). `enable_frame_irq` keeps `frame_irq_enabled` beside the FRAMEIE bit of the USB host controller's HIEN register. It writes the register only when the state changes, and it returns the previous state. `LULZBOT_FRAME_IRQ_SAVE`/`RESTORE` use that returned state to undo a temporary change. The register is a `bv8` field, and `regRd`/`regWr` are a read and an assignment of that field.
- **SD byte check** (`sdcard_check.dfy`, module `SdCardCheck`). `spi_error` is a sticky latch. A suspect byte sets it, and `LULZBOT_SDCARD_COMMAND_DONE` reports it and clears it.
- **Bed-leveling report** (`bed_leveling_report.dfy`, module `BedLeveling`). `BedLevelingReport::point` stores into slot `i` of three four-element arrays. The coordinates are floats that are only copied, so they have a type parameter `F`.

## Model

| member | source | states |
|---|---|---|
| `ZOffsetAutoSave.AutoSaveZOffset.constructor` | Marlin/src/Lulzbot_Extras.h:56-62 | the offset starts at zero; the header only declares the static `eeprom_offset`, and the model assumes its definition has no initializer, so it is zero-initialised |
| `ZOffsetAutoSave.AutoSaveZOffset.Offset` | Marlin/src/Lulzbot_Extras.h:60 | capturing overwrites the stored offset, so a recapture replaces it |
| `ZOffsetAutoSave.SettingsSerializer.BeforeZOffset` | Marlin/src/Lulzbot_Extras.h:70-72 | the returned saved CRC is the running CRC, and the captured offset is the running EEPROM index |
| `ZOffsetAutoSave.SettingsSerializer.AfterZOffset` | Marlin/src/Lulzbot_Extras.h:74 | the running CRC becomes the saved CRC, and the index is untouched |
| `ZOffsetAutoSave.SettingsSerializer.ZOffsetField` | Marlin/src/Lulzbot_Extras.h:68-74 | whatever bytes the bracketed field feeds, the CRC afterwards equals the CRC before it; the index still moves past the field, and the field's start index is captured |
| `ZOffsetAutoSave.SettingsSerializer.Pass` | Marlin/src/Lulzbot_Extras.h:46-74 | after a full pass the CRC equals `PassCrc` (the CRC of every field but the z-offset), the index has moved past the whole image, and the captured offset is the start index plus the length of the fields before the z-offset |
| `ZOffsetAutoSave.CrcBytesSkipTracked` | Marlin/src/Lulzbot_Extras.h:46-50 | the bytes that reach the CRC are exactly the image of the fields before the z-offset followed by the image of the fields after it |
| `ZOffsetAutoSave.FieldAtOffset` | Marlin/src/Lulzbot_Extras.h:46-50 | the bytes of the image at a field's offset are that field's bytes; for the z-offset, the captured offset locates its value for a write of that value alone |
| `ZOffsetAutoSave.PassCrcIgnoresTracked` | Marlin/src/Lulzbot_Extras.h:46-50 | the CRC of a pass is the same whatever the z-offset field holds, including its size |
| `ZOffsetAutoSave.SingleValueWriteKeepsCrc` | Marlin/src/Lulzbot_Extras.h:46-77 | overwriting the z-offset bytes at the captured offset with a same-size value gives the image of the record with only that field changed; every field keeps its offset, and the CRC is the one the full write stored |
| `FrameIrq.HienAfterEnable` | Marlin/src/Lulzbot_Extras.h:139-145 | when the state is unchanged, HIEN is untouched; otherwise FRAMEIE ends set when enabling and clear when disabling; every other bit is preserved |
| `FrameIrq.EnableIdempotent` | Marlin/src/Lulzbot_Extras.h:137-147 | enabling twice with the same argument leaves the register as enabling once does |
| `FrameIrq.EnableKeepsMirror` | Marlin/src/Lulzbot_Extras.h:139-145 | if the flag mirrors the FRAMEIE bit before a call, it still mirrors it afterwards |
| `FrameIrq.SaveRestoreRegister` | Marlin/src/Lulzbot_Extras.h:158-159 | switching to `en` and back to the returned state keeps every bit but FRAMEIE; HIEN is untouched when the state did not change, and when it changed FRAMEIE ends as the remembered state; HIEN ends exactly as before when it mirrored the flag |
| `FrameIrq.FrameIrqControl.constructor` | Marlin/src/Lulzbot_Extras.h:136 | the flag starts false |
| `FrameIrq.FrameIrqControl.EnableFrameIrq` | Marlin/src/Lulzbot_Extras.h:137-147 | returns the flag's previous value; afterwards the flag equals the argument, and HIEN is as `HienAfterEnable` says |
| `FrameIrq.FrameIrqControl.FrameIrqSave` | Marlin/src/Lulzbot_Extras.h:158 | the saved state is the flag before the call, and the flag becomes `en` |
| `FrameIrq.FrameIrqControl.FrameIrqRestore` | Marlin/src/Lulzbot_Extras.h:159 | the flag returns to the saved state |
| `FrameIrq.FrameIrqControl.SaveThenRestore` | Marlin/src/Lulzbot_Extras.h:158-159 | a SAVE followed by its RESTORE gives back the flag and leaves HIEN as two `HienAfterEnable` steps give it: untouched when the flag already equalled `en`; otherwise every bit but FRAMEIE kept and FRAMEIE equal to the old flag, even where it did not mirror the flag (HIEN 0x40 with the flag false and `en` true ends at 0x00); HIEN whole when it mirrored the flag |
| `SdCardCheck.SuspectBytes` | Marlin/src/Lulzbot_Extras.h:109 | over end-of-file and the byte values, exactly the control characters other than newline and carriage return, and the bytes from 0x7F up, set the latch |
| `SdCardCheck.SpiErrorLatch.constructor` | Marlin/src/Lulzbot_Extras.h:108 | the latch starts clear |
| `SdCardCheck.SpiErrorLatch.CheckByte` | Marlin/src/Lulzbot_Extras.h:107-109 | the latch afterwards is its old value or the byte being suspect, so it is set exactly on a suspect byte and never cleared |
| `SdCardCheck.SpiErrorLatch.CommandDone` | Marlin/src/Lulzbot_Extras.h:111-115 | the error is reported exactly when the latch was set, and the latch ends clear |
| `BedLeveling.BedLevelingReport.constructor` | Marlin/src/Lulzbot_Extras.h:84-86 | three distinct, freshly allocated arrays of four slots |
| `BedLeveling.BedLevelingReport.Point` | Marlin/src/Lulzbot_Extras.h:89-93 | slot `i` of `x`, `y` and `z` holds the new coordinates, and every other slot keeps its value |

## Left out

- `AutoSaveZOffset::store` and `BedLevelingReport::report` are only declared in this header, and their bodies are not part of this model. For `store`, the model proves the property a single-value write at the captured offset relies on (`SingleValueWriteKeepsCrc`); it does not model the write itself.
- Nothing in `AutoSaveZOffset` records whether a capture happened, and `offset` accepts any value (line 60); whether the unseen body of `store` guards against a missing or out-of-range offset is not known. The model assumes the out-of-line definition of `eeprom_offset` has no initializer, so the offset is zero until the first capture, and `Offset` accepts any integer.
- The CRC-16 algorithm, `EEPROM_READ`/`EEPROM_WRITE` and the EEPROM medium belong to the host firmware. The CRC update is an uninterpreted parameter. A field read or write is modelled only by its effect on the running CRC and index.
- The register map of the USB host controller is not part of this model. FRAMEIE is taken as bit 6 (0x40) of HIEN, as on the MAX3421E.
- `frame_irq_enabled` is `volatile`, and `LULZBOT_USB_IDLE_TASK` disables interrupts around calls to driver `Poll()` methods. Interrupts, concurrency and the foreign driver code are not modelled. So the code that runs between `LULZBOT_FRAME_IRQ_SAVE` and `LULZBOT_FRAME_IRQ_RESTORE` is not modelled either.
- `isprint` comes from the C library. The model takes its "C" locale meaning, the ASCII characters 0x20 to 0x7E. `CheckByte` requires the value a read returns, -1 or 0 to 255, because that is the domain `isprint` is defined on.
- The serial message that `LULZBOT_SDCARD_COMMAND_DONE` prints is modelled only by the boolean `reported`.
- The float contents of the bed-leveling report are opaque. `point` takes a `uint8_t` index and does no bounds check, so `Point` requires `i < 4`.
- The EMI pin functions, `on_reflash`, the configuration conditionals, the USB pin and speed-up macros, and the language and menu strings are declarations or configuration text with no behaviour to model.
- The extensible-UI alert dialog screen is drawing and sound code built on a UI framework that is not part of this model.
