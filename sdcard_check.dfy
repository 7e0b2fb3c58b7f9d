/** SD card debugging: every byte read from a G-code file on the SD card is
    checked, and a byte that cannot belong to a text file latches an error
    flag; when the command being read is complete, a latched flag is
    reported (as a likely SPI read error) and cleared. */
module SdCardCheck {

  /** The C library's `isprint` in the "C" locale: the printable ASCII
      characters, space to tilde. */
  predicate IsPrint(c: int)
  {
    0x20 <= c <= 0x7E
  }

  /** A byte that latches the error: not end-of-file (-1), not printable,
      and neither a newline nor a carriage return. */
  predicate IsSuspectByte(n: int)
  {
    n != -1 && !IsPrint(n) && n != '\n' as int && n != '\r' as int
  }

  /** Over the values a read can return (-1 at end of file, else a byte),
      exactly the control characters other than newline and carriage
      return, and the bytes from DEL upwards, latch the error. */
  lemma SuspectBytes(n: int)
    requires -1 <= n <= 0xFF
    ensures IsSuspectByte(n) <==>
            (0 <= n < 0x20 && n != 0x0A && n != 0x0D) || 0x7F <= n
  {
  }

  /** The error flag, which stays set once set until the command is done. */
  class SpiErrorLatch {
    var spiError: bool

    constructor ()
      ensures !spiError
    {
      spiError := false;
    }

    /** `LULZBOT_SDCARD_CHECK_BYTE(n)`: sets the flag on a suspect byte and
        never clears it. */
    method CheckByte(n: int)
      requires -1 <= n <= 0xFF
      modifies this
      ensures spiError == (old(spiError) || IsSuspectByte(n))
    {
      if n != -1 && !IsPrint(n) && n != '\n' as int && n != '\r' as int {
        spiError := true;
      }
    }

    /** `LULZBOT_SDCARD_COMMAND_DONE(cmd)`: reports exactly when the flag
        was set, and leaves it clear. */
    method CommandDone() returns (reported: bool)
      modifies this
      ensures reported == old(spiError)
      ensures !spiError
    {
      reported := false;
      if spiError {
        reported := true;  // a serial message naming the command
        spiError := false;
      }
    }
  }
}
