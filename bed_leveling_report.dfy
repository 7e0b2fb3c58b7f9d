/** Probe quality check: the bed-leveling report keeps the coordinates of
    the four probed points in three arrays of four entries, one slot per
    point. The coordinates are floats that are only copied, so their type
    is a parameter, `F`. */
module BedLeveling {

  /** The number of probe points the report holds. */
  const POINTS := 4

  class BedLevelingReport<F(0)> {
    const x: array<F>
    const y: array<F>
    const z: array<F>

    /** Three distinct arrays of four slots each. */
    ghost predicate Valid()
      reads this
    {
      x.Length == POINTS && y.Length == POINTS && z.Length == POINTS &&
      x != y && y != z && x != z
    }

    constructor ()
      ensures Valid() && fresh(x) && fresh(y) && fresh(z)
    {
      x := new F[POINTS];
      y := new F[POINTS];
      z := new F[POINTS];
    }

    /** `point(i, _x, _y, _z)`: stores the coordinates in slot `i` of each
        array and leaves every other slot as it was. The index is not
        checked, so it must name one of the four slots. */
    method Point(i: nat, px: F, py: F, pz: F)
      requires Valid() && i < POINTS
      modifies x, y, z
      ensures Valid()
      ensures x[..] == old(x[..])[i := px]
      ensures y[..] == old(y[..])[i := py]
      ensures z[..] == old(z[..])[i := pz]
    {
      x[i] := px;
      y[i] := py;
      z[i] := pz;
    }
  }
}
