/**
 * Coordinate helpers of matrixgen's utility header: element-wise arithmetic on
 * integer triplets, the wrap-around modulus used for periodic boundaries, the
 * grid-membership tests and the static 7-point stencil.
 *
 * Integers are unbounded here; the source's `int` is 32 bits wide, which only
 * matters for grids whose node count overflows it.
 */
module Coords3d {
  import Arith

  /** A point or an offset of the 3-D lattice, `Coords3d_t<int>`. */
  datatype Coords = Coords(x: int, y: int, z: int)

  /** Element-wise addition of triplets (`operator+`). */
  function Add(a: Coords, b: Coords): Coords
  {
    Coords(a.x + b.x, a.y + b.y, a.z + b.z)
  }

  /** Element-wise subtraction of triplets (`operator-`). */
  function Sub(a: Coords, b: Coords): Coords
  {
    Coords(a.x - b.x, a.y - b.y, a.z - b.z)
  }

  /** `operator-` undoes `operator+` and vice versa. */
  lemma AddSubInverse(a: Coords, b: Coords)
    ensures Sub(Add(a, b), b) == a
    ensures Add(Sub(a, b), b) == a
    ensures Sub(a, a) == Coords(0, 0, 0)
  {
  }

  function Abs(n: int): nat
  {
    if n < 0 then -n else n
  }

  /** C++ `/` on signed integers: the quotient truncated toward zero. */
  function TruncDiv(n: int, m: int): int
    requires m != 0
  {
    var q := Abs(n) / Abs(m);
    if (n < 0) == (m < 0) then q else -q
  }

  /**
   * C++ `%` on signed integers. The result takes the sign of the dividend and
   * completes the identity `(n / m) * m + n % m == n` of the language.
   */
  function TruncRem(n: int, m: int): (r: int)
    requires m != 0
    ensures TruncDiv(n, m) * m + r == n
    ensures Abs(r) < Abs(m)
    ensures n >= 0 ==> r >= 0
    ensures n <= 0 ==> r <= 0
  {
    TruncDivRem(n, m);
    var r := Abs(n) % Abs(m);
    if n < 0 then -r else r
  }

  /** The truncated quotient and the sign-restored remainder of the magnitudes recompose `n`. */
  lemma TruncDivRem(n: int, m: int)
    requires m != 0
    ensures 0 <= Abs(n) % Abs(m) < Abs(m)
    ensures TruncDiv(n, m) * m + (if n < 0 then -(Abs(n) % Abs(m)) else Abs(n) % Abs(m)) == n
  {
    var d := Abs(m);
    var q, r := Abs(n) / d, Abs(n) % d;
    assert Abs(n) == q * d + r;
    SignedQuotient(n, m, q, r);
  }

  /** Restoring the signs of a quotient-remainder decomposition of magnitudes. */
  lemma SignedQuotient(n: int, m: int, q: int, r: int)
    requires m != 0 && Abs(n) == q * Abs(m) + r
    ensures (if (n < 0) == (m < 0) then q else -q) * m + (if n < 0 then -r else r) == n
  {
    if m < 0 {
      assert q * m == -(q * Abs(m));
    }
  }

  /** `m` divides `a - b`. */
  predicate Congruent(a: int, b: int, m: int)
    requires m != 0
  {
    (a - b) % Abs(m) == 0
  }

  lemma MultipleIsCongruent(a: int, b: int, k: int, m: int)
    requires m != 0 && a - b == k * m
    ensures Congruent(a, b, m)
  {
    if m > 0 {
      Arith.DivModUnique(a - b, Abs(m), k, 0);
    } else {
      Arith.DivModUnique(a - b, Abs(m), -k, 0);
    }
  }

  /**
   * `mod` exactly as written: C++ `%`, then one correction by `mod` when the
   * remainder is negative. For a positive modulus the result lies in [0, m)
   * and is congruent to `n`; see NegativeModulusEscapesRange for the negative
   * case.
   */
  function Mod(n: int, m: int): (r: int)
    requires m != 0
    ensures Congruent(n, r, m)
    ensures m > 0 ==> 0 <= r < m
  {
    var rem := TruncRem(n, m);
    if rem >= 0 then
      MultipleIsCongruent(n, rem, TruncDiv(n, m), m);
      rem
    else
      MultipleIsCongruent(n, m + rem, TruncDiv(n, m) - 1, m);
      m + rem
  }

  /**
   * The documented promise for a negative modulus, a result in (m, 0], is not
   * kept: the C++ remainder of 3 by -2 is 1 and is returned as is, and that of
   * -3 by -2 is -1, which the correction turns into -3.
   */
  lemma NegativeModulusEscapesRange()
    ensures Mod(3, -2) == 1 && !(-2 < Mod(3, -2) <= 0)
    ensures Mod(-3, -2) == -3 && !(-2 < Mod(-3, -2) <= 0)
  {
    assert TruncRem(3, -2) == 1;
    assert TruncRem(-3, -2) == -1;
  }

  /**
   * The modulus the documentation describes: the representative of `n` modulo
   * `m` in [0, m) for a positive and in (m, 0] for a negative modulus.
   */
  function FloorMod(n: int, m: int): (r: int)
    requires m != 0
    ensures Congruent(n, r, m)
    ensures m > 0 ==> 0 <= r < m
    ensures m < 0 ==> m < r <= 0
  {
    var e := n % Abs(m);
    assert n == (n / Abs(m)) * Abs(m) + e;
    if m > 0 || e == 0 then
      MultipleIsCongruent(n, e, if m > 0 then n / Abs(m) else -(n / Abs(m)), m);
      e
    else
      MultipleIsCongruent(n, e + m, -(n / Abs(m)) - 1, m);
      e + m
  }

  /** For the positive moduli of periodic wrap the code and the documentation agree. */
  lemma {:induction false} ModAgreesForPositiveModulus(n: int, m: int)
    requires m > 0
    ensures Mod(n, m) == FloorMod(n, m) == n % m
  {
    var q := Abs(n) / m;
    var r := Abs(n) % m;
    assert Abs(n) == q * m + r;
    if n < 0 {
      if r == 0 {
        Arith.DivModUnique(n, m, -q, 0);
      } else {
        Arith.DivModUnique(n, m, -q - 1, m - r);
      }
    }
  }

  /** Both representatives of the same residue class within one window coincide. */
  lemma FloorModIsTheRepresentative(n: int, m: int, r: int)
    requires m > 0 && 0 <= r < m && Congruent(n, r, m)
    ensures FloorMod(n, m) == r
  {
    var k := (n - r) / m;
    assert n - r == k * m + (n - r) % m;
    Arith.DivModUnique(n, m, k, r);
  }

  predicate PositiveDims(dims: Coords)
  {
    dims.x > 0 && dims.y > 0 && dims.z > 0
  }

  predicate NonzeroDims(dims: Coords)
  {
    dims.x != 0 && dims.y != 0 && dims.z != 0
  }

  /** Is the node at `c` contained by the grid (`is_inside_grid`)? */
  predicate IsInsideGrid(c: Coords, dims: Coords)
    requires PositiveDims(dims)
  {
    0 <= c.x < dims.x && 0 <= c.y < dims.y && 0 <= c.z < dims.z
  }

  /**
   * Periodic step `modplus`: `a + b` wrapped into the box spanned by
   * `modulus`, axis by axis, with `mod` as written.
   */
  function ModPlus(a: Coords, b: Coords, modulus: Coords): (r: Coords)
    requires NonzeroDims(modulus)
    ensures Congruent(a.x + b.x, r.x, modulus.x)
    ensures Congruent(a.y + b.y, r.y, modulus.y)
    ensures Congruent(a.z + b.z, r.z, modulus.z)
    ensures PositiveDims(modulus) ==> IsInsideGrid(r, modulus)
  {
    Coords(Mod(a.x + b.x, modulus.x),
           Mod(a.y + b.y, modulus.y),
           Mod(a.z + b.z, modulus.z))
  }

  /**
   * `modplus` with the documented modulus: for a negative modulus each axis
   * lands in (modulus, 0].
   */
  function WrappedModPlus(a: Coords, b: Coords, modulus: Coords): (r: Coords)
    requires NonzeroDims(modulus)
    ensures Congruent(a.x + b.x, r.x, modulus.x)
    ensures Congruent(a.y + b.y, r.y, modulus.y)
    ensures Congruent(a.z + b.z, r.z, modulus.z)
    ensures PositiveDims(modulus) ==> IsInsideGrid(r, modulus)
    ensures modulus.x < 0 ==> modulus.x < r.x <= 0
    ensures modulus.y < 0 ==> modulus.y < r.y <= 0
    ensures modulus.z < 0 ==> modulus.z < r.z <= 0
  {
    Coords(FloorMod(a.x + b.x, modulus.x),
           FloorMod(a.y + b.y, modulus.y),
           FloorMod(a.z + b.z, modulus.z))
  }

  /** For the positive dimensions of a grid both readings of `modplus` agree. */
  lemma ModPlusAgreesForPositiveDims(a: Coords, b: Coords, dims: Coords)
    requires PositiveDims(dims)
    ensures ModPlus(a, b, dims) == WrappedModPlus(a, b, dims)
  {
    ModAgreesForPositiveModulus(a.x + b.x, dims.x);
    ModAgreesForPositiveModulus(a.y + b.y, dims.y);
    ModAgreesForPositiveModulus(a.z + b.z, dims.z);
  }

  /** With a negative modulus `modplus` as written leaves the documented box. */
  lemma ModPlusEscapesForNegativeModulus()
    ensures ModPlus(Coords(3, 0, 0), Coords(0, 0, 0), Coords(-2, 1, 1)).x == 1
    ensures WrappedModPlus(Coords(3, 0, 0), Coords(0, 0, 0), Coords(-2, 1, 1)).x == -1
  {
    NegativeModulusEscapesRange();
    var r := FloorMod(3, -2);
    assert Congruent(3, r, -2) && -2 < r <= 0;
    assert (3 - r) % 2 == 0;
  }

  /** A value is its own `mod` exactly when it already lies in [0, m). */
  lemma ModFixesExactlyTheWindow(n: int, m: int)
    requires m > 0
    ensures Mod(n, m) == n <==> 0 <= n < m
  {
    if 0 <= n < m {
      MultipleIsCongruent(n, n, 0, m);
      ModAgreesForPositiveModulus(n, m);
      FloorModIsTheRepresentative(n, m, n);
    }
  }

  /** Wrapping a node that already lies in the grid leaves it where it is. */
  lemma ModPlusFixesInsideNodes(a: Coords, dims: Coords)
    requires PositiveDims(dims) && IsInsideGrid(a, dims)
    ensures ModPlus(a, Coords(0, 0, 0), dims) == a
  {
    ModFixesExactlyTheWindow(a.x, dims.x);
    ModFixesExactlyTheWindow(a.y, dims.y);
    ModFixesExactlyTheWindow(a.z, dims.z);
  }

  /** `is_inside_grid` holds exactly of the nodes that are their own periodic image. */
  lemma InsideGridIffOwnImage(c: Coords, dims: Coords)
    requires PositiveDims(dims)
    ensures IsInsideGrid(c, dims) <==> ModPlus(c, Coords(0, 0, 0), dims) == c
  {
    ModFixesExactlyTheWindow(c.x, dims.x);
    ModFixesExactlyTheWindow(c.y, dims.y);
    ModFixesExactlyTheWindow(c.z, dims.z);
  }

  /**
   * Is the in-grid node at `c` off the outer `extent` layers of the grid
   * (`is_inner_node<Index_t, EXTENT>`)?
   */
  predicate IsInnerNode(c: Coords, dims: Coords, extent: nat)
    requires 0 <= c.x < dims.x && 0 <= c.y < dims.y && 0 <= c.z < dims.z
  {
    extent <= c.x < dims.x - extent &&
    extent <= c.y < dims.y - extent &&
    extent <= c.z < dims.z - extent
  }

  /** Every offset no longer than `extent` on each axis leads from an inner node into the grid. */
  lemma InnerNodeNeighborsInside(c: Coords, dims: Coords, extent: nat, o: Coords)
    requires PositiveDims(dims) && IsInsideGrid(c, dims) && IsInnerNode(c, dims, extent)
    requires Abs(o.x) <= extent && Abs(o.y) <= extent && Abs(o.z) <= extent
    ensures IsInsideGrid(Add(c, o), dims)
  {
  }

  /** The static symmetric 7-point stencil of the utility header (`STENCIL<7>`). */
  const Stencil7: seq<Coords> :=
    [Coords( 0,  0,  0),
     Coords(-1,  0,  0), Coords(1, 0, 0),
     Coords( 0, -1,  0), Coords(0, 1, 0),
     Coords( 0,  0, -1), Coords(0, 0, 1)]

  /**
   * A node is inner with extent 1 exactly when every offset of `STENCIL<7>`
   * leads from it to a node of the grid.
   */
  lemma InnerNodeIffStencilInside(c: Coords, dims: Coords)
    requires PositiveDims(dims) && IsInsideGrid(c, dims)
    ensures IsInnerNode(c, dims, 1) <==>
            forall k :: 0 <= k < |Stencil7| ==> IsInsideGrid(Add(c, Stencil7[k]), dims)
  {
    if IsInnerNode(c, dims, 1) {
      forall k | 0 <= k < |Stencil7|
        ensures IsInsideGrid(Add(c, Stencil7[k]), dims)
      {
        InnerNodeNeighborsInside(c, dims, 1, Stencil7[k]);
      }
    } else {
      if c.x < 1 {
        assert !IsInsideGrid(Add(c, Stencil7[1]), dims);
      } else if c.x >= dims.x - 1 {
        assert !IsInsideGrid(Add(c, Stencil7[2]), dims);
      } else if c.y < 1 {
        assert !IsInsideGrid(Add(c, Stencil7[3]), dims);
      } else if c.y >= dims.y - 1 {
        assert !IsInsideGrid(Add(c, Stencil7[4]), dims);
      } else if c.z < 1 {
        assert !IsInsideGrid(Add(c, Stencil7[5]), dims);
      } else {
        assert !IsInsideGrid(Add(c, Stencil7[6]), dims);
      }
    }
  }
}
