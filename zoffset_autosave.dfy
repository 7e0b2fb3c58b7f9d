/** Z-offset auto-save: the EEPROM settings record is protected by a CRC
    that is accumulated byte by byte while the record is written or read.
    The z-offset field is bracketed so that its bytes never reach the CRC,
    and the EEPROM index at which it starts is captured so that the value
    can later be rewritten on its own without invalidating the CRC.

    The CRC polynomial belongs to the host firmware: it is a parameter of
    the model (`step`), one call per byte, and is never interpreted. */
module ZOffsetAutoSave {

  type Crc = bv16
  type Byte = bv8

  /** One update of the CRC accumulator by one byte. */
  type CrcStep = (Crc, Byte) -> Crc

  // ---------------------------------------------------------------------
  // Specification functions
  // ---------------------------------------------------------------------

  /** The accumulator after feeding `bytes`, in order, starting from `crc`. */
  function CrcOf(step: CrcStep, crc: Crc, bytes: seq<Byte>): Crc
    decreases |bytes|
  {
    if bytes == [] then crc else CrcOf(step, step(crc, bytes[0]), bytes[1..])
  }

  /** The EEPROM image of fields `lo` up to (not including) `hi` of a
      record: those fields laid out one after another. */
  function Image(fields: seq<seq<Byte>>, lo: nat, hi: nat): seq<Byte>
    requires lo <= hi <= |fields|
    decreases hi - lo
  {
    if lo == hi then [] else Image(fields, lo, hi - 1) + fields[hi - 1]
  }

  /** The EEPROM image of a whole record. */
  function Flatten(fields: seq<seq<Byte>>): seq<Byte>
  {
    Image(fields, 0, |fields|)
  }

  /** The EEPROM index of field `k`, relative to the start of the record. */
  function FieldOffset(fields: seq<seq<Byte>>, k: nat): nat
    requires k <= |fields|
  {
    |Image(fields, 0, k)|
  }

  /** The bytes that have reached the CRC once the first `n` fields have
      passed, field `t` being bracketed. */
  function CrcBytes(fields: seq<seq<Byte>>, t: nat, n: nat): seq<Byte>
    requires n <= |fields|
  {
    if n == 0 then []
    else if n - 1 == t then CrcBytes(fields, t, n - 1)
    else CrcBytes(fields, t, n - 1) + fields[n - 1]
  }

  /** The CRC a full pass over `fields` leaves, with field `t` bracketed. */
  function PassCrc(step: CrcStep, crc0: Crc, fields: seq<seq<Byte>>, t: nat): Crc
  {
    CrcOf(step, crc0, CrcBytes(fields, t, |fields|))
  }

  /** Overwriting `|v|` bytes of `image` starting at `off`. */
  function Splice(image: seq<Byte>, off: nat, v: seq<Byte>): seq<Byte>
    requires off + |v| <= |image|
  {
    image[..off] + v + image[off + |v|..]
  }

  // ---------------------------------------------------------------------
  // Lemmas about the specification
  // ---------------------------------------------------------------------

  /** Feeding `a + b` is feeding `a`, then `b`. */
  lemma {:induction false} CrcOfAppend(step: CrcStep, crc: Crc, a: seq<Byte>, b: seq<Byte>)
    ensures CrcOf(step, crc, a + b) == CrcOf(step, CrcOf(step, crc, a), b)
    decreases |a|
  {
    if a == [] {
      assert a + b == b;
    } else {
      assert (a + b)[1..] == a[1..] + b;
      CrcOfAppend(step, step(crc, a[0]), a[1..], b);
    }
  }

  /** The image of a run of fields is the image of its first part followed
      by the image of the rest. */
  lemma {:induction false} ImageSplit(fields: seq<seq<Byte>>, lo: nat, mid: nat, hi: nat)
    requires lo <= mid <= hi <= |fields|
    ensures Image(fields, lo, hi) == Image(fields, lo, mid) + Image(fields, mid, hi)
    decreases hi - mid
  {
    if mid == hi {
      assert Image(fields, lo, mid) + [] == Image(fields, lo, mid);
    } else {
      ImageSplit(fields, lo, mid, hi - 1);
      var a, b := Image(fields, lo, mid), Image(fields, mid, hi - 1);
      assert (a + b) + fields[hi - 1] == a + (b + fields[hi - 1]);
    }
  }

  /** Two records whose fields `lo` to `hi` agree have the same image there. */
  lemma {:induction false} ImageAgree(f: seq<seq<Byte>>, g: seq<seq<Byte>>, lo: nat, hi: nat)
    requires lo <= hi <= |f| && hi <= |g|
    requires forall k :: lo <= k < hi ==> f[k] == g[k]
    ensures Image(f, lo, hi) == Image(g, lo, hi)
    decreases hi - lo
  {
    if lo < hi {
      ImageAgree(f, g, lo, hi - 1);
    }
  }

  /** Two records whose fields `lo` to `hi` have the same sizes have images
      of the same length there. */
  lemma {:induction false} ImageLengthAgree(f: seq<seq<Byte>>, g: seq<seq<Byte>>, lo: nat, hi: nat)
    requires lo <= hi <= |f| && hi <= |g|
    requires forall k :: lo <= k < hi ==> |f[k]| == |g[k]|
    ensures |Image(f, lo, hi)| == |Image(g, lo, hi)|
    decreases hi - lo
  {
    if lo < hi {
      ImageLengthAgree(f, g, lo, hi - 1);
    }
  }

  /** What the CRC sees is every field but the bracketed one: the fields
      before it, then the fields after it. */
  lemma {:induction false} CrcBytesSkipTracked(fields: seq<seq<Byte>>, t: nat, n: nat)
    requires n <= |fields|
    ensures n <= t ==> CrcBytes(fields, t, n) == Image(fields, 0, n)
    ensures t < n ==> CrcBytes(fields, t, n) == Image(fields, 0, t) + Image(fields, t + 1, n)
  {
    if n > 0 {
      CrcBytesSkipTracked(fields, t, n - 1);
      if n - 1 == t {
        assert Image(fields, 0, t) + Image(fields, t + 1, n) == Image(fields, 0, t);
      } else if t < n - 1 {
        assert Image(fields, 0, t) + Image(fields, t + 1, n)
            == (Image(fields, 0, t) + Image(fields, t + 1, n - 1)) + fields[n - 1];
      }
    }
  }

  /** Every field sits in the image at its offset: the bytes found there are
      exactly the field's bytes. In particular the captured offset locates
      the z-offset field. */
  lemma FieldAtOffset(fields: seq<seq<Byte>>, k: nat)
    requires k < |fields|
    ensures FieldOffset(fields, k) + |fields[k]| <= |Flatten(fields)|
    ensures Flatten(fields)[FieldOffset(fields, k)..FieldOffset(fields, k) + |fields[k]|] == fields[k]
  {
    ImageSplit(fields, 0, k + 1, |fields|);
    assert Image(fields, 0, k + 1) == Image(fields, 0, k) + fields[k];
  }

  /** The CRC ignores the z-offset value: a pass over a record whose
      z-offset field holds anything else, of any size, leaves the same CRC. */
  lemma PassCrcIgnoresTracked(step: CrcStep, crc0: Crc, fields: seq<seq<Byte>>, t: nat, v: seq<Byte>)
    requires t < |fields|
    ensures PassCrc(step, crc0, fields[t := v], t) == PassCrc(step, crc0, fields, t)
  {
    var fields' := fields[t := v];
    CrcBytesSkipTracked(fields, t, |fields|);
    CrcBytesSkipTracked(fields', t, |fields|);
    ImageAgree(fields, fields', 0, t);
    ImageAgree(fields, fields', t + 1, |fields|);
  }

  /** A single-value write of the z-offset at the captured offset: the new
      image is the image of the record with only the z-offset field
      changed, every field keeps its offset, and so a read pass over the new
      image computes the CRC the full write stored. */
  lemma SingleValueWriteKeepsCrc(step: CrcStep, crc0: Crc, fields: seq<seq<Byte>>, t: nat, v: seq<Byte>)
    requires t < |fields| && |v| == |fields[t]|
    ensures FieldOffset(fields, t) + |v| <= |Flatten(fields)|
    ensures Splice(Flatten(fields), FieldOffset(fields, t), v) == Flatten(fields[t := v])
    ensures forall k :: 0 <= k <= |fields| ==> FieldOffset(fields[t := v], k) == FieldOffset(fields, k)
    ensures PassCrc(step, crc0, fields[t := v], t) == PassCrc(step, crc0, fields, t)
  {
    var fields' := fields[t := v];
    var n := |fields|;
    var off := FieldOffset(fields, t);
    ImageSplit(fields, 0, t + 1, n);
    ImageSplit(fields', 0, t + 1, n);
    assert Image(fields, 0, t + 1) == Image(fields, 0, t) + fields[t];
    assert Image(fields', 0, t + 1) == Image(fields', 0, t) + v;
    ImageAgree(fields, fields', 0, t);
    ImageAgree(fields, fields', t + 1, n);
    var image := Flatten(fields);
    assert image[..off] == Image(fields, 0, t);
    assert image[off + |v|..] == Image(fields, t + 1, n);
    forall k | 0 <= k <= n
      ensures FieldOffset(fields', k) == FieldOffset(fields, k)
    {
      ImageLengthAgree(fields, fields', 0, k);
    }
    PassCrcIgnoresTracked(step, crc0, fields, t, v);
  }

  // ---------------------------------------------------------------------
  // State that the source updates in place
  // ---------------------------------------------------------------------

  /** Holds the EEPROM index of the z-offset field for a later
      single-value store. */
  class AutoSaveZOffset {
    var eepromOffset: int

    /** A static int: zero until the first capture. */
    constructor ()
      ensures eepromOffset == 0
    {
      eepromOffset := 0;
    }

    /** Capturing overwrites whatever was captured before. */
    method Offset(offset: int)
      modifies this
      ensures eepromOffset == offset
    {
      eepromOffset := offset;
    }
  }

  /** The host's settings serializer during one pass: the running CRC
      `working_crc`, the running EEPROM index `eeprom_index`, and the
      `aszo` instance the bracketing macros capture into. That instance is
      static in the firmware, so every serializer is given the same one. */
  class SettingsSerializer {
    const step: CrcStep
    var workingCrc: Crc
    var eepromIndex: int
    const aszo: AutoSaveZOffset

    constructor (step: CrcStep, crc: Crc, index: int, aszo: AutoSaveZOffset)
      ensures this.step == step && workingCrc == crc && eepromIndex == index
      ensures this.aszo == aszo
    {
      this.step := step;
      workingCrc := crc;
      eepromIndex := index;
      this.aszo := aszo;
    }

    /** Writing or reading one field: each byte passes through the CRC and
        advances the index. */
    method Field(bytes: seq<Byte>)
      modifies this
      ensures workingCrc == CrcOf(step, old(workingCrc), bytes)
      ensures eepromIndex == old(eepromIndex) + |bytes|
    {
      workingCrc := CrcOf(step, workingCrc, bytes);
      eepromIndex := eepromIndex + |bytes|;
    }

    /** `LULZBOT_EEPROM_BEFORE_ZOFFSET`: save the CRC, capture the index. */
    method BeforeZOffset() returns (savedCrc: Crc)
      modifies aszo
      ensures savedCrc == workingCrc
      ensures aszo.eepromOffset == eepromIndex
    {
      savedCrc := workingCrc;
      aszo.Offset(eepromIndex);
    }

    /** `LULZBOT_EEPROM_AFTER_ZOFFSET`: put the saved CRC back. */
    method AfterZOffset(savedCrc: Crc)
      modifies this
      ensures workingCrc == savedCrc
      ensures eepromIndex == old(eepromIndex)
    {
      workingCrc := savedCrc;
    }

    /** The z-offset field inside its brackets: whatever its bytes, the CRC
        afterwards is the CRC before it, the index still advances past it,
        and its start index is captured. */
    method ZOffsetField(bytes: seq<Byte>)
      modifies this, aszo
      ensures workingCrc == old(workingCrc)
      ensures eepromIndex == old(eepromIndex) + |bytes|
      ensures aszo.eepromOffset == old(eepromIndex)
    {
      var savedCrc := BeforeZOffset();
      Field(bytes);
      AfterZOffset(savedCrc);
    }

    /** A full pass over the record, the z-offset being field `t`. */
    method Pass(fields: seq<seq<Byte>>, t: nat)
      requires t < |fields|
      modifies this, aszo
      ensures workingCrc == PassCrc(step, old(workingCrc), fields, t)
      ensures eepromIndex == old(eepromIndex) + |Flatten(fields)|
      ensures aszo.eepromOffset == old(eepromIndex) + FieldOffset(fields, t)
    {
      ghost var crc0, index0 := workingCrc, eepromIndex;
      var i := 0;
      while i < |fields|
        invariant 0 <= i <= |fields|
        invariant workingCrc == CrcOf(step, crc0, CrcBytes(fields, t, i))
        invariant eepromIndex == index0 + FieldOffset(fields, i)
        invariant t < i ==> aszo.eepromOffset == index0 + FieldOffset(fields, t)
      {
        if i == t {
          ZOffsetField(fields[i]);
        } else {
          CrcOfAppend(step, crc0, CrcBytes(fields, t, i), fields[i]);
          Field(fields[i]);
        }
        i := i + 1;
      }
    }
  }

  /** A client of the pass: a record A (4 bytes), z-offset B (2 bytes),
      C (4 bytes), written once with B = 0x2222 from index 0 and once with
      B = 0x5555 from index 100. Both passes leave the same CRC, and since
      they share the one `AutoSaveZOffset`, the second capture (104)
      replaces the first (4). */
  method TwoPassesAgree(step: CrcStep)
  {
    var a: seq<Byte> := [0x11, 0x11, 0x11, 0x11];
    var c: seq<Byte> := [0x33, 0x33, 0x33, 0x33];
    var aszo := new AutoSaveZOffset();
    var first := new SettingsSerializer(step, 0, 0, aszo);
    first.Pass([a, [0x22, 0x22], c], 1);
    assert aszo.eepromOffset == 4;
    var second := new SettingsSerializer(step, 0, 100, aszo);
    second.Pass([a, [0x55, 0x55], c], 1);
    assert aszo.eepromOffset == 104;
    PassCrcIgnoresTracked(step, 0, [a, [0x22, 0x22], c], 1, [0x55, 0x55]);
    assert [a, [0x22, 0x22], c][1 := [0x55, 0x55]] == [a, [0x55, 0x55], c];
    assert first.workingCrc == second.workingCrc;
  }
}
