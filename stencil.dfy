/**
 * The earlier copy of the offset tables, `stencil.hpp`. Its tables list the
 * same offsets in the same order as those of `presets.hpp`, so every property
 * proved there carries over.
 */
module Stencil {
  import opened Coords3d
  import Presets

  const Stencil7: seq<Coords> :=
    [Coords( 0,  0,  0),
     Coords(-1,  0,  0), Coords( 0, -1,  0), Coords( 0,  0, -1),
     Coords( 1,  0,  0), Coords( 0,  1,  0), Coords( 0,  0,  1)]

  const Stencil19: seq<Coords> :=
    [Coords( 0,  0,  0),
     Coords(-1,  0,  0), Coords( 0, -1,  0), Coords( 0,  0, -1),
     Coords( 1,  0,  0), Coords( 0,  1,  0), Coords( 0,  0,  1),
     Coords(-1, -1,  0), Coords(-1,  1,  0), Coords( 1, -1,  0), Coords( 1,  1,  0),
     Coords(-1,  0, -1), Coords(-1,  0,  1), Coords( 1,  0, -1), Coords( 1,  0,  1),
     Coords( 0, -1, -1), Coords( 0, -1,  1), Coords( 0,  1, -1), Coords( 0,  1,  1)]

  const Stencil27: seq<Coords> :=
    [Coords( 0,  0,  0),
     Coords(-1,  0,  0), Coords( 0, -1,  0), Coords( 0,  0, -1),
     Coords( 1,  0,  0), Coords( 0,  1,  0), Coords( 0,  0,  1),
     Coords(-1, -1,  0), Coords(-1,  1,  0), Coords( 1, -1,  0), Coords( 1,  1,  0),
     Coords(-1,  0, -1), Coords(-1,  0,  1), Coords( 1,  0, -1), Coords( 1,  0,  1),
     Coords( 0, -1, -1), Coords( 0, -1,  1), Coords( 0,  1, -1), Coords( 0,  1,  1),
     Coords(-1, -1, -1), Coords(-1, -1,  1), Coords(-1,  1, -1), Coords(-1,  1,  1),
     Coords( 1, -1, -1), Coords( 1, -1,  1), Coords( 1,  1, -1), Coords( 1,  1,  1)]

  /** The tables are the preset tables, offset for offset. */
  lemma SameAsPresets()
    ensures Stencil7 == Presets.Stencil7
    ensures Stencil19 == Presets.Stencil19
    ensures Stencil27 == Presets.Stencil27
  {
  }

  /** `STENCIL<7>`: seven distinct offsets beginning with the origin, the same as the preset table. */
  lemma Stencil7Shape()
    ensures Stencil7 == Presets.Stencil7
    ensures |Stencil7| == 7 && Presets.Distinct(Stencil7) && Stencil7[0] == Coords(0, 0, 0)
    ensures Presets.ClosedUnderNegation(Stencil7)
  {
    SameAsPresets();
    Presets.Stencil7Shape();
    Presets.Stencil7IsSymmetric();
  }

  /** `STENCIL<19>`: nineteen distinct unit offsets with at most two nonzero components each. */
  lemma Stencil19Shape()
    ensures Stencil19 == Presets.Stencil19
    ensures |Stencil19| == 19 && Presets.Distinct(Stencil19)
    ensures forall o :: o in Stencil19 <==> Presets.IsUnitOffset(o) && Presets.NonzeroCount(o) <= 2
    ensures Presets.ClosedUnderNegation(Stencil19)
    ensures Stencil7 == Stencil19[..7]
  {
    SameAsPresets();
    Presets.Stencil19Shape();
    Presets.Stencil19IsSymmetric();
    Presets.TablesArePrefixes();
  }

  /** `STENCIL<27>`: twenty-seven distinct offsets covering all of {-1, 0, 1}^3. */
  lemma Stencil27Shape()
    ensures Stencil27 == Presets.Stencil27
    ensures |Stencil27| == 27 && Presets.Distinct(Stencil27)
    ensures forall o :: o in Stencil27 <==> Presets.IsUnitOffset(o)
    ensures Presets.ClosedUnderNegation(Stencil27)
    ensures Stencil19 == Stencil27[..19]
  {
    SameAsPresets();
    Presets.Stencil27Shape();
    Presets.Stencil27IsSymmetric();
    Presets.TablesArePrefixes();
  }
}
