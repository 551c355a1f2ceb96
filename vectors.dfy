/** Integer row vectors of a lattice basis: the dot product, the prefix
    row operation b_i <- b_i + c * b_j over the first `cols` entries, the
    nonzero extent of a row and powers of two.  The basis entries are
    arbitrary-precision integers, so `int` is exact here. */
module Vectors {

  /** Dot product of the first `cols` entries of two rows; it vanishes
      when x is zero on those entries. */
  function Dot(x: seq<int>, y: seq<int>, cols: nat): (d: int)
    requires cols <= |x| && cols <= |y|
    ensures (forall k :: 0 <= k < cols ==> x[k] == 0) ==> d == 0
  {
    if cols == 0 then 0 else Dot(x, y, cols - 1) + x[cols - 1] * y[cols - 1]
  }

  /** A squared norm is never negative, and is zero only for a row that is
      zero on the entries summed. */
  lemma {:induction false} DotSelf(x: seq<int>, cols: nat)
    requires cols <= |x|
    ensures Dot(x, x, cols) >= 0
    ensures Dot(x, x, cols) == 0 ==> forall k :: 0 <= k < cols ==> x[k] == 0
  {
    if cols > 0 {
      DotSelf(x, cols - 1);
      assert x[cols - 1] * x[cols - 1] >= 0;
    }
  }

  /** Every row of s has exactly w entries. */
  predicate Rows(s: seq<seq<int>>, w: nat)
  {
    forall k :: 0 <= k < |s| ==> |s[k]| == w
  }

  /** x + c * y on the first `cols` entries; the rest of x is kept. */
  function AddMulPrefix(x: seq<int>, y: seq<int>, c: int, cols: nat): (r: seq<int>)
    requires cols <= |x| && cols <= |y|
    ensures |r| == |x|
  {
    seq(|x|, k requires 0 <= k < |x| => if k < cols then x[k] + c * y[k] else x[k])
  }

  /** Every entry of x from index `from` on is zero. */
  predicate ZeroFrom(x: seq<int>, from: int)
  {
    forall c :: 0 <= c < |x| && from <= c ==> x[c] == 0
  }

  /** The column `col` of a matrix given by rows. */
  function Column(m: seq<seq<int>>, col: nat): (r: seq<int>)
    requires forall k :: 0 <= k < |m| ==> col < |m[k]|
    ensures |r| == |m|
  {
    seq(|m|, k requires 0 <= k < |m| => m[k][col])
  }

  /** Number of leading entries up to and including the last nonzero one. */
  function SizeNZ(x: seq<int>): (r: nat)
    ensures r <= |x|
    ensures ZeroFrom(x, r)
    ensures r > 0 ==> x[r - 1] != 0
  {
    if |x| == 0 then 0
    else if x[|x| - 1] != 0 then |x|
    else SizeNZ(x[..|x| - 1])
  }

  function Pow2(e: nat): (r: nat)
    ensures r >= 1
  {
    if e == 0 then 1 else 2 * Pow2(e - 1)
  }

  lemma {:induction false} Pow2Add(a: nat, b: nat)
    ensures Pow2(a + b) == Pow2(a) * Pow2(b)
  {
    if a > 0 {
      Pow2Add(a - 1, b);
      assert Pow2(a + b) == 2 * Pow2(a - 1 + b);
    }
  }

  /** The dot product is symmetric. */
  lemma {:induction false} DotSym(x: seq<int>, y: seq<int>, cols: nat)
    requires cols <= |x| && cols <= |y|
    ensures Dot(x, y, cols) == Dot(y, x, cols)
  {
    if cols > 0 {
      DotSym(x, y, cols - 1);
    }
  }

  /** Linearity in the first argument: <x + c y, z> = <x, z> + c <y, z>,
      for every prefix of the columns the row operation touched. */
  lemma {:induction false} DotAddMulLeft(x: seq<int>, y: seq<int>, z: seq<int>, c: int, cols: nat, k: nat)
    requires cols <= |x| && cols <= |y|
    requires k <= cols && k <= |z|
    ensures Dot(AddMulPrefix(x, y, c, cols), z, k) == Dot(x, z, k) + c * Dot(y, z, k)
  {
    if k > 0 {
      DotAddMulLeft(x, y, z, c, cols, k - 1);
      var x' := AddMulPrefix(x, y, c, cols);
      var xv, yv, zv := x[k - 1], y[k - 1], z[k - 1];
      assert x'[k - 1] == xv + c * yv;
      Distribute(xv, yv, zv, c, Dot(y, z, k - 1));
    }
  }

  lemma Distribute(xv: int, yv: int, zv: int, c: int, d: int)
    ensures (xv + c * yv) * zv == xv * zv + c * (yv * zv)
    ensures c * d + c * (yv * zv) == c * (d + yv * zv)
  {
  }

  /** Linearity in the second argument. */
  lemma DotAddMulRight(z: seq<int>, x: seq<int>, y: seq<int>, c: int, cols: nat)
    requires cols <= |x| && cols <= |y| && cols <= |z|
    ensures Dot(z, AddMulPrefix(x, y, c, cols), cols) == Dot(z, x, cols) + c * Dot(z, y, cols)
  {
    var x' := AddMulPrefix(x, y, c, cols);
    DotSym(z, x', cols);
    DotAddMulLeft(x, y, z, c, cols, cols);
    DotSym(x, z, cols);
    DotSym(y, z, cols);
  }

  /** The squared norm after the row operation:
      <x + c y, x + c y> = <x, x> + 2 c <x, y> + c^2 <y, y>. */
  lemma DotAddMulSelf(x: seq<int>, y: seq<int>, c: int, cols: nat)
    requires cols <= |x| && cols <= |y|
    ensures var x' := AddMulPrefix(x, y, c, cols);
      Dot(x', x', cols) == Dot(x, x, cols) + 2 * c * Dot(x, y, cols) + c * c * Dot(y, y, cols)
  {
    var x' := AddMulPrefix(x, y, c, cols);
    DotAddMulLeft(x, y, x', c, cols, cols);
    DotAddMulRight(x, x, y, c, cols);
    DotAddMulRight(y, x, y, c, cols);
    DotSym(y, x, cols);
    ExpandSquare(Dot(x, x, cols), Dot(x, y, cols), Dot(y, y, cols), c);
  }

  lemma ExpandSquare(xx: int, xy: int, yy: int, c: int)
    ensures (xx + c * xy) + c * (xy + c * yy) == xx + 2 * c * xy + c * c * yy
  {
    assert c * (xy + c * yy) == c * xy + c * (c * yy);
  }

  /** Columns where one of the two rows is zero add nothing to the dot product. */
  lemma {:induction false} DotZeroTail(x: seq<int>, y: seq<int>, lo: nat, hi: nat)
    requires lo <= hi <= |x| && hi <= |y|
    requires forall c :: lo <= c < hi ==> x[c] == 0 || y[c] == 0
    ensures Dot(x, y, hi) == Dot(x, y, lo)
  {
    if hi > lo {
      DotZeroTail(x, y, lo, hi - 1);
      assert x[hi - 1] * y[hi - 1] == 0;
    }
  }
}
