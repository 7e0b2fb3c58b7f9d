/** USB host manual polling: the frame interrupt of the USB host controller
    is switched on and off through one bit of its interrupt-enable register
    HIEN, and a boolean remembers which way it was last switched so that the
    register is written only on a change. A save/restore pair uses the
    returned previous state to undo a temporary change. */
module FrameIrq {

  /** The FRAMEIE bit of the HIEN register of the MAX3421E host controller
      (bit 6); its definition lives in the USB host library, which is not
      part of this model. */
  const BM_FRAMEIE: bv8 := 0x40

  /** The frame interrupt is enabled in register value `hien`. */
  predicate FrameIeSet(hien: bv8)
  {
    hien & BM_FRAMEIE != 0
  }

  /** The boolean tracks the register: it says whether the bit is set. */
  predicate Mirrors(hien: bv8, enabled: bool)
  {
    FrameIeSet(hien) == enabled
  }

  /** HIEN after `enable_frame_irq(enable)` when the remembered state was
      `enabled`. */
  function HienAfterEnable(hien: bv8, enabled: bool, enable: bool): (r: bv8)
    ensures enabled == enable ==> r == hien
    ensures enabled != enable ==> FrameIeSet(r) == enable
    ensures r & !BM_FRAMEIE == hien & !BM_FRAMEIE
  {
    if enabled == enable then hien
    else if enable then hien | BM_FRAMEIE
    else hien & !BM_FRAMEIE
  }

  /** Enabling twice with the same argument does what enabling once does:
      the second call finds the state already switched and writes nothing. */
  lemma EnableIdempotent(hien: bv8, enabled: bool, enable: bool)
    ensures HienAfterEnable(HienAfterEnable(hien, enabled, enable), enable, enable)
         == HienAfterEnable(hien, enabled, enable)
  {
  }

  /** Once the register mirrors the boolean, every call keeps it so. */
  lemma EnableKeepsMirror(hien: bv8, enabled: bool, enable: bool)
    requires Mirrors(hien, enabled)
    ensures Mirrors(HienAfterEnable(hien, enabled, enable), enable)
  {
  }

  /** Switching to `en` and back to the state returned: HIEN ends with every
      bit as before except FRAMEIE; it is untouched when the state did not
      change, and otherwise FRAMEIE ends as the remembered state; so when
      the register mirrored the boolean, it ends exactly as before. */
  lemma SaveRestoreRegister(hien: bv8, enabled: bool, en: bool)
    ensures var r := HienAfterEnable(HienAfterEnable(hien, enabled, en), en, enabled);
            r & !BM_FRAMEIE == hien & !BM_FRAMEIE &&
            (enabled == en ==> r == hien) &&
            (enabled != en ==> FrameIeSet(r) == enabled)
    ensures Mirrors(hien, enabled) ==>
            HienAfterEnable(HienAfterEnable(hien, enabled, en), en, enabled) == hien
  {
  }

  /** The host controller's interrupt-enable register and the flag that
      `enable_frame_irq` keeps beside it. */
  class FrameIrqControl {
    var rHIEN: bv8
    var frameIrqEnabled: bool

    /** The flag starts false; the register holds whatever the host
        controller's initialisation put there. */
    constructor (hien: bv8)
      ensures rHIEN == hien && !frameIrqEnabled
    {
      rHIEN := hien;
      frameIrqEnabled := false;
    }

    /** `enable_frame_irq`: returns the previous state; on a change,
        read-modify-writes HIEN to set or clear FRAMEIE and records the new
        state; otherwise touches nothing. */
    method EnableFrameIrq(enable: bool) returns (prevState: bool)
      modifies this
      ensures prevState == old(frameIrqEnabled)
      ensures frameIrqEnabled == enable
      ensures rHIEN == HienAfterEnable(old(rHIEN), old(frameIrqEnabled), enable)
    {
      prevState := frameIrqEnabled;
      if prevState != enable {
        var hien := rHIEN;  // regRd(rHIEN)
        if enable {
          rHIEN := hien | BM_FRAMEIE;  // regWr
        } else {
          rHIEN := hien & !BM_FRAMEIE;  // regWr
        }
        frameIrqEnabled := enable;
      }
    }

    /** `LULZBOT_FRAME_IRQ_SAVE(en)`: switch to `en`, keeping the state
        that was in force. */
    method FrameIrqSave(en: bool) returns (savedIrqState: bool)
      modifies this
      ensures savedIrqState == old(frameIrqEnabled)
      ensures frameIrqEnabled == en
      ensures rHIEN == HienAfterEnable(old(rHIEN), old(frameIrqEnabled), en)
    {
      savedIrqState := EnableFrameIrq(en);
    }

    /** `LULZBOT_FRAME_IRQ_RESTORE()`: switch back to the saved state. */
    method FrameIrqRestore(savedIrqState: bool)
      modifies this
      ensures frameIrqEnabled == savedIrqState
      ensures rHIEN == HienAfterEnable(old(rHIEN), old(frameIrqEnabled), savedIrqState)
    {
      var _ := EnableFrameIrq(savedIrqState);
    }

    /** A SAVE immediately followed by its RESTORE gives back the flag, and
        the register too whenever it mirrored the flag. When it did not and
        the state changed, FRAMEIE ends as the flag was, whatever it was. */
    method SaveThenRestore(en: bool)
      modifies this
      ensures frameIrqEnabled == old(frameIrqEnabled)
      ensures rHIEN == HienAfterEnable(HienAfterEnable(old(rHIEN), old(frameIrqEnabled), en), en, old(frameIrqEnabled))
      ensures old(frameIrqEnabled) == en ==> rHIEN == old(rHIEN)
      ensures old(frameIrqEnabled) != en ==> FrameIeSet(rHIEN) == old(frameIrqEnabled)
      ensures Mirrors(old(rHIEN), old(frameIrqEnabled)) ==> rHIEN == old(rHIEN)
      ensures rHIEN & !BM_FRAMEIE == old(rHIEN) & !BM_FRAMEIE
    {
      var savedIrqState := FrameIrqSave(en);
      FrameIrqRestore(savedIrqState);
      SaveRestoreRegister(old(rHIEN), old(frameIrqEnabled), en);
    }
  }
}
