/**
 * The preset offset tables `STENCIL<7>`, `STENCIL<19>` and `STENCIL<27>` and
 * the preset weight function `constweight` of `presets.hpp`.
 */
module Presets {
  import opened Coords3d
  import Adjmat

  /** Symmetric 7-point stencil: the origin, the three negative unit steps, then the positive ones. */
  const Stencil7: seq<Coords> :=
    [Coords( 0,  0,  0),
     Coords(-1,  0,  0), Coords( 0, -1,  0), Coords( 0,  0, -1),
     Coords( 1,  0,  0), Coords( 0,  1,  0), Coords( 0,  0,  1)]

  /** Symmetric 19-point stencil: `STENCIL<7>` followed by the twelve edge diagonals. */
  const Stencil19: seq<Coords> :=
    [Coords( 0,  0,  0),
     Coords(-1,  0,  0), Coords( 0, -1,  0), Coords( 0,  0, -1),
     Coords( 1,  0,  0), Coords( 0,  1,  0), Coords( 0,  0,  1),
     Coords(-1, -1,  0), Coords(-1,  1,  0), Coords( 1, -1,  0), Coords( 1,  1,  0),
     Coords(-1,  0, -1), Coords(-1,  0,  1), Coords( 1,  0, -1), Coords( 1,  0,  1),
     Coords( 0, -1, -1), Coords( 0, -1,  1), Coords( 0,  1, -1), Coords( 0,  1,  1)]

  /** Symmetric 27-point stencil: `STENCIL<19>` followed by the eight corner diagonals. */
  const Stencil27: seq<Coords> :=
    [Coords( 0,  0,  0),
     Coords(-1,  0,  0), Coords( 0, -1,  0), Coords( 0,  0, -1),
     Coords( 1,  0,  0), Coords( 0,  1,  0), Coords( 0,  0,  1),
     Coords(-1, -1,  0), Coords(-1,  1,  0), Coords( 1, -1,  0), Coords( 1,  1,  0),
     Coords(-1,  0, -1), Coords(-1,  0,  1), Coords( 1,  0, -1), Coords( 1,  0,  1),
     Coords( 0, -1, -1), Coords( 0, -1,  1), Coords( 0,  1, -1), Coords( 0,  1,  1),
     Coords(-1, -1, -1), Coords(-1, -1,  1), Coords(-1,  1, -1), Coords(-1,  1,  1),
     Coords( 1, -1, -1), Coords( 1, -1,  1), Coords( 1,  1, -1), Coords( 1,  1,  1)]

  /** No offset occurs twice in the table. */
  predicate Distinct(s: seq<Coords>)
  {
    forall i, j :: 0 <= i < j < |s| ==> s[i] != s[j]
  }

  /** Every component is -1, 0 or 1. */
  predicate IsUnitOffset(o: Coords)
  {
    -1 <= o.x <= 1 && -1 <= o.y <= 1 && -1 <= o.z <= 1
  }

  /** The number of nonzero components of an offset. */
  function NonzeroCount(o: Coords): nat
  {
    (if o.x != 0 then 1 else 0) + (if o.y != 0 then 1 else 0) + (if o.z != 0 then 1 else 0)
  }

  function Negate(o: Coords): Coords
  {
    Coords(-o.x, -o.y, -o.z)
  }

  /** The table holds the opposite of each of its offsets. */
  predicate ClosedUnderNegation(s: seq<Coords>)
  {
    forall k :: 0 <= k < |s| ==> Negate(s[k]) in s
  }

  /**
   * `STENCIL<7>` is seven distinct offsets starting at the origin, and it is
   * exactly the unit offsets with at most one nonzero component.
   */
  lemma Stencil7Shape()
    ensures |Stencil7| == 7 && Distinct(Stencil7) && Stencil7[0] == Coords(0, 0, 0)
    ensures forall o :: o in Stencil7 <==> IsUnitOffset(o) && NonzeroCount(o) <= 1
  {
    forall o | IsUnitOffset(o) && NonzeroCount(o) <= 1
      ensures o in Stencil7
    {
      if o.x != 0 {
        assert o == Stencil7[if o.x < 0 then 1 else 4];
      } else if o.y != 0 {
        assert o == Stencil7[if o.y < 0 then 2 else 5];
      } else if o.z != 0 {
        assert o == Stencil7[if o.z < 0 then 3 else 6];
      } else {
        assert o == Stencil7[0];
      }
    }
  }

  /** Every entry of `STENCIL<27>` is a unit offset found back at its own position. */
  lemma {:induction false} PositionsOfStencil27()
    ensures forall k :: 0 <= k < 27 ==>
              IsUnitOffset(Stencil27[k]) && UnitOffsetPosition(Stencil27[k]) == k
  {
    forall k | 0 <= k < 27
      ensures IsUnitOffset(Stencil27[k]) && UnitOffsetPosition(Stencil27[k]) == k
    {
      if k < 7 {
      } else if k < 15 {
      } else if k < 19 {
      } else if k < 23 {
      } else {
      }
    }
  }

  /** `STENCIL<27>` is twenty-seven distinct offsets covering all of {-1, 0, 1}^3. */
  lemma Stencil27Shape()
    ensures |Stencil27| == 27 && Distinct(Stencil27)
    ensures forall o :: o in Stencil27 <==> IsUnitOffset(o)
  {
    PositionsOfStencil27();
    forall i, j | 0 <= i < j < 27
      ensures Stencil27[i] != Stencil27[j]
    {
      assert UnitOffsetPosition(Stencil27[i]) != UnitOffsetPosition(Stencil27[j]);
    }
    forall o | IsUnitOffset(o)
      ensures o in Stencil27
    {
      assert Stencil27[UnitOffsetPosition(o)] == o;
    }
    forall o | o in Stencil27
      ensures IsUnitOffset(o)
    {
      var k :| 0 <= k < 27 && Stencil27[k] == o;
    }
  }

  /**
   * `STENCIL<19>` is nineteen distinct offsets, and it is exactly the unit
   * offsets with at most two nonzero components.
   */
  lemma Stencil19Shape()
    ensures |Stencil19| == 19 && Distinct(Stencil19)
    ensures forall o :: o in Stencil19 <==> IsUnitOffset(o) && NonzeroCount(o) <= 2
  {
    Stencil27Shape();
    PositionsOfStencil27();
    assert Stencil19 == Stencil27[..19];
    forall o | IsUnitOffset(o) && NonzeroCount(o) <= 2
      ensures o in Stencil19
    {
      var k := UnitOffsetPosition(o);
      assert Stencil19[k] == o;
    }
    forall o | o in Stencil19
      ensures IsUnitOffset(o) && NonzeroCount(o) <= 2
    {
      var k :| 0 <= k < 19 && Stencil19[k] == o;
      assert Stencil27[k] == o;
    }
  }

  /**
   * Where a unit offset sits in `STENCIL<27>`: the tables list offsets by
   * growing number of nonzero components, so the position is below 7, 19 or
   * 27 according to that number.
   */
  function UnitOffsetPosition(o: Coords): (k: nat)
    requires IsUnitOffset(o)
    ensures k < 27 && Stencil27[k] == o
    ensures NonzeroCount(o) <= 1 ==> k < 7
    ensures NonzeroCount(o) == 2 ==> 7 <= k < 19
    ensures NonzeroCount(o) == 3 ==> 19 <= k
  {
    if o.z == 0 && o.y == 0 then
      (if o.x == 0 then 0 else if o.x < 0 then 1 else 4)
    else if o.z == 0 && o.x == 0 then
      (if o.y < 0 then 2 else 5)
    else if o.y == 0 && o.x == 0 then
      (if o.z < 0 then 3 else 6)
    else if o.z == 0 then
      7 + 2 * (if o.x < 0 then 0 else 1) + (if o.y < 0 then 0 else 1)
    else if o.y == 0 then
      11 + 2 * (if o.x < 0 then 0 else 1) + (if o.z < 0 then 0 else 1)
    else if o.x == 0 then
      15 + 2 * (if o.y < 0 then 0 else 1) + (if o.z < 0 then 0 else 1)
    else
      19 + 4 * (if o.x < 0 then 0 else 1) + 2 * (if o.y < 0 then 0 else 1) + (if o.z < 0 then 0 else 1)
  }

  /**
   * A table that is exactly the unit offsets with at most `bound` nonzero
   * components holds the opposite of each of its offsets.
   */
  lemma ClosedByShape(s: seq<Coords>, bound: nat)
    requires forall o :: o in s <==> IsUnitOffset(o) && NonzeroCount(o) <= bound
    ensures ClosedUnderNegation(s)
  {
    forall k | 0 <= k < |s|
      ensures Negate(s[k]) in s
    {
      assert s[k] in s;
      assert NonzeroCount(Negate(s[k])) == NonzeroCount(s[k]);
    }
  }

  /** Every table is symmetric: it holds the opposite of each of its offsets. */
  lemma Stencil7IsSymmetric()
    ensures ClosedUnderNegation(Stencil7)
  {
    Stencil7Shape();
    ClosedByShape(Stencil7, 1);
  }

  lemma Stencil19IsSymmetric()
    ensures ClosedUnderNegation(Stencil19)
  {
    Stencil19Shape();
    ClosedByShape(Stencil19, 2);
  }

  lemma Stencil27IsSymmetric()
    ensures ClosedUnderNegation(Stencil27)
  {
    Stencil27Shape();
    assert forall o :: o in Stencil27 <==> IsUnitOffset(o) && NonzeroCount(o) <= 3;
    ClosedByShape(Stencil27, 3);
  }

  /** Each smaller table is the head of the next larger one. */
  lemma TablesArePrefixes()
    ensures Stencil7 == Stencil19[..7]
    ensures Stencil19 == Stencil27[..19]
  {
  }

  /**
   * The static stencil of the utility header lists the same seven distinct
   * offsets, each negative step directly followed by its positive one.
   */
  lemma UtilityStencilIsReordering()
    ensures |Coords3d.Stencil7| == |Stencil7| && Distinct(Coords3d.Stencil7)
    ensures forall o :: o in Coords3d.Stencil7 <==> o in Stencil7
    ensures Coords3d.Stencil7 != Stencil7
  {
    Stencil7Shape();
    InterleavedSigns(Coords3d.Stencil7, Stencil7);
    assert Coords3d.Stencil7[2] != Stencil7[2];
  }

  /** Listing each negative step next to its positive one only reorders a 7-point table. */
  lemma InterleavedSigns(a: seq<Coords>, b: seq<Coords>)
    requires |a| == 7 && |b| == 7 && Distinct(b)
    requires a[0] == b[0] && a[1] == b[1] && a[2] == b[4] && a[3] == b[2]
    requires a[4] == b[5] && a[5] == b[3] && a[6] == b[6]
    ensures Distinct(a)
    ensures forall o :: o in a <==> o in b
  {
    forall o | o in b
      ensures o in a
    {
      var k :| 0 <= k < 7 && b[k] == o;
      if k == 2 { assert a[3] == o; }
      else if k == 3 { assert a[5] == o; }
      else if k == 4 { assert a[2] == o; }
      else if k == 5 { assert a[4] == o; }
      else { assert a[k] == o; }
    }
  }

  /** `constweight(v)`: a zero-argument weight function that always yields `v`, 1 by default. */
  function ConstWeight(v: real := 1.0): (w: Adjmat.WeightFn)
    ensures w.NoArgs? && w.value() == v
  {
    Adjmat.NoArgs(() => v)
  }

  /** Without an argument the constant weight is 1. */
  lemma ConstWeightDefault()
    ensures ConstWeight().NoArgs? && ConstWeight().value() == 1.0
  {
  }
}
