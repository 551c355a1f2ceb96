/** The exact integer Gram matrix g of MatGSO.  Only its lower triangle
    g[a][e], e <= a, is maintained; symG(a, e) reads it symmetrically.  The
    functions below give the matrix each operation produces over the known
    rows, and the lemmas prove that it stays the Gram matrix of the basis. */
module Gram {
  import opened Vectors
  import opened Reindex

  predicate Square<T>(g: seq<seq<T>>)
  {
    forall k :: 0 <= k < |g| ==> |g[k]| == |g|
  }

  /** symG(a, e): the stored entry g(max(a, e), min(a, e)). */
  function Sym<T>(g: seq<seq<T>>, a: nat, e: nat): (r: T)
    requires Square(g) && a < |g| && e < |g|
    ensures e <= a ==> r == g[a][e]
    ensures a <= e ==> r == g[e][a]
  {
    if a >= e then g[a][e] else g[e][a]
  }

  /** g holds, in its lower triangle, the dot products over the first `cols`
      columns of the first m rows of bs. */
  predicate IsGramOf(g: seq<seq<int>>, bs: seq<seq<int>>, m: nat, cols: nat)
  {
    && Square(g) && m <= |g| && m <= |bs|
    && (forall k :: 0 <= k < m ==> cols <= |bs[k]|)
    && (forall a, e :: 0 <= e <= a < m ==> g[a][e] == Dot(bs[a], bs[e], cols))
  }

  /** Read through symG, an exact Gram matrix gives the dot product in either order. */
  lemma SymDot(g: seq<seq<int>>, bs: seq<seq<int>>, m: nat, cols: nat, a: nat, e: nat)
    requires IsGramOf(g, bs, m, cols) && a < m && e < m
    ensures Sym(g, a, e) == Dot(bs[a], bs[e], cols)
  {
    if a < e {
      DotSym(bs[e], bs[a], cols);
    }
  }

  /** g with row i filled up to the diagonal with the dot products of row i
      and the rows before it (discoverRow, fplll/gso.cpp:91-93). */
  function WithGramRow(g: seq<seq<int>>, bs: seq<seq<int>>, i: nat, cols: nat): (r: seq<seq<int>>)
    requires Square(g) && i < |g| && i < |bs|
    requires forall k :: 0 <= k <= i ==> cols <= |bs[k]|
    ensures |r| == |g| && Square(r)
    ensures forall a, e :: 0 <= a < |g| && 0 <= e < |g| && (a != i || i < e) ==> r[a][e] == g[a][e]
    ensures IsGramOf(g, bs, i, cols) ==> IsGramOf(r, bs, i + 1, cols)
  {
    seq(|g|, a requires 0 <= a < |g| =>
      seq(|g|, e requires 0 <= e < |g| =>
        if a == i && e <= i then Dot(bs[i], bs[e], cols) else g[a][e]))
  }

  /** Discovering row i keeps g exact while the known columns grow from
      cols0 to cols, provided the rows known before are zero beyond cols0:
      their stored dot products do not change. */
  lemma DiscoverExact(g: seq<seq<int>>, bs: seq<seq<int>>, i: nat, cols0: nat, cols: nat)
    requires IsGramOf(g, bs, i, cols0) && i < |g| && i < |bs| && cols0 <= cols
    requires forall k :: 0 <= k <= i ==> cols <= |bs[k]|
    requires forall k :: 0 <= k < i ==> ZeroFrom(bs[k], cols0)
    ensures IsGramOf(WithGramRow(g, bs, i, cols), bs, i + 1, cols)
  {
    var r := WithGramRow(g, bs, i, cols);
    forall a, e | 0 <= e <= a < i + 1
      ensures r[a][e] == Dot(bs[a], bs[e], cols)
    {
      if a < i {
        DotZeroTail(bs[a], bs[e], cols0, cols);
      }
    }
  }

  /** The known rows (below m) are zero from column `cols` on, and every
      other row k is zero from column ext[k] on (its initRowSize). */
  predicate Covered(bs: seq<seq<int>>, m: nat, cols: nat, ext: seq<int>)
  {
    && (forall k :: 0 <= k < m && k < |bs| ==> ZeroFrom(bs[k], cols))
    && (forall k :: m <= k < |bs| && k < |ext| ==> ZeroFrom(bs[k], ext[k]))
  }

  /** The integer-Gram state of MatGSO is exact: g is the Gram matrix of the
      known rows over the known columns, and no row has entries beyond the
      columns it is accounted for in. */
  predicate ExactGram(g: seq<seq<int>>, bs: seq<seq<int>>, m: nat, cols: nat, ext: seq<int>)
  {
    IsGramOf(g, bs, m, cols) && Covered(bs, m, cols, ext)
  }

  /** discoverRow keeps the state exact when the new known-column count
      covers both the old count and the new row's extent. */
  lemma DiscoverKeepsExact(g: seq<seq<int>>, bs: seq<seq<int>>, m: nat, cols0: nat, cols: nat, ext: seq<int>)
    requires ExactGram(g, bs, m, cols0, ext)
    requires m < |g| && m < |bs| && m < |ext| && cols0 <= cols && ext[m] <= cols
    requires forall k :: 0 <= k <= m ==> cols <= |bs[k]|
    ensures ExactGram(WithGramRow(g, bs, m, cols), bs, m + 1, cols, ext)
  {
    DiscoverExact(g, bs, m, cols0, cols);
  }

  // ---------------------------------------------------------------------
  // b_i <- b_i + c b_j  (row_add, row_sub, row_addmul_si, _si_2exp, _2exp)
  // ---------------------------------------------------------------------

  /** Growing g with every old entry kept keeps it the Gram matrix of the
      known rows. */
  lemma GrowKeepsGram(g: seq<seq<int>>, bs: seq<seq<int>>, m: nat, cols: nat, g': seq<seq<int>>)
    requires IsGramOf(g, bs, m, cols)
    requires Square(g') && |g| <= |g'|
    requires forall a, e :: 0 <= a < |g| && 0 <= e < |g| ==> g'[a][e] == g[a][e]
    ensures IsGramOf(g', bs, m, cols)
  {
  }

  /** The new squared norm of row i: g(i,i) + 2 c <b_i, b_j> + c^2 g(j,j),
      with <b_i, b_j> read through symG. */
  function AddMulDiag(g: seq<seq<int>>, i: nat, j: nat, c: int): (d: int)
    requires Square(g) && i < |g| && j < |g|
  {
    g[i][i] + 2 * c * Sym(g, i, j) + c * c * g[j][j]
  }

  /** Entry (a, e) after the row operation with m known rows: the diagonal
      entry of row i first, then symG(i, k) += c symG(j, k) for k < m, k != i. */
  function AddMulEntry(g: seq<seq<int>>, i: nat, j: nat, c: int, m: nat, a: nat, e: nat): (x: int)
    requires Square(g) && i < |g| && j < |g| && a < |g| && e < |g|
  {
    if a == i && e == i then AddMulDiag(g, i, j, c)
    else if a == i && e < i && e < m then g[i][e] + c * Sym(g, j, e)
    else if e == i && i < a < m then g[a][i] + c * Sym(g, j, a)
    else g[a][e]
  }

  /** The Gram matrix after b_i <- b_i + c b_j; only row and column i of the
      lower triangle change. */
  function AddMulGram(g: seq<seq<int>>, i: nat, j: nat, c: int, m: nat): (r: seq<seq<int>>)
    requires Square(g) && i < |g| && j < |g|
    ensures |r| == |g| && Square(r)
    ensures forall a, e :: 0 <= a < |g| && 0 <= e < |g| && a != i && e != i ==> r[a][e] == g[a][e]
    ensures forall a, e :: 0 <= a < e < |g| ==> r[a][e] == g[a][e]
  {
    seq(|g|, a requires 0 <= a < |g| =>
      seq(|g|, e requires 0 <= e < |g| => AddMulEntry(g, i, j, c, m, a, e)))
  }

  lemma AddMulEntryExact(g: seq<seq<int>>, bs: seq<seq<int>>, i: nat, j: nat, c: int, m: nat, cols: nat, a: nat, e: nat)
    requires IsGramOf(g, bs, m, cols)
    requires i < m && j < m && e <= a < m
    ensures var bs' := bs[i := AddMulPrefix(bs[i], bs[j], c, cols)];
      AddMulEntry(g, i, j, c, m, a, e) == Dot(bs'[a], bs'[e], cols)
  {
    var x, y := bs[i], bs[j];
    var x' := AddMulPrefix(x, y, c, cols);
    if a == i && e == i {
      SymDot(g, bs, m, cols, i, j);
      DotAddMulSelf(x, y, c, cols);
    } else if a == i {
      SymDot(g, bs, m, cols, j, e);
      DotAddMulLeft(x, y, bs[e], c, cols, cols);
    } else if e == i {
      SymDot(g, bs, m, cols, j, a);
      DotAddMulRight(bs[a], x, y, c, cols);
      DotSym(bs[a], y, cols);
    }
  }

  /** Gram consistency of the row operations: if g is exact for b before
      b_i <- b_i + c b_j (both rows known), the updated g is exact after.
      This holds for i == j too, where b_i becomes (1 + c) b_i. */
  lemma AddMulExact(g: seq<seq<int>>, bs: seq<seq<int>>, i: nat, j: nat, c: int, m: nat, cols: nat)
    requires IsGramOf(g, bs, m, cols)
    requires i < m && j < m
    ensures IsGramOf(AddMulGram(g, i, j, c, m), bs[i := AddMulPrefix(bs[i], bs[j], c, cols)], m, cols)
  {
    var bs' := bs[i := AddMulPrefix(bs[i], bs[j], c, cols)];
    var g' := AddMulGram(g, i, j, c, m);
    forall a, e | 0 <= e <= a < m
      ensures g'[a][e] == Dot(bs'[a], bs'[e], cols)
    {
      AddMulEntryExact(g, bs, i, j, c, m, cols, a, e);
    }
  }

  /** The row operation keeps the whole integer-Gram state exact: it changes
      b_i only on the known columns, beyond which both rows are zero. */
  lemma AddMulKeepsExact(g: seq<seq<int>>, bs: seq<seq<int>>, i: nat, j: nat, c: int, m: nat, cols: nat, ext: seq<int>)
    requires ExactGram(g, bs, m, cols, ext)
    requires i < m && j < m
    ensures ExactGram(AddMulGram(g, i, j, c, m), bs[i := AddMulPrefix(bs[i], bs[j], c, cols)], m, cols, ext)
  {
    AddMulExact(g, bs, i, j, c, m, cols);
  }

  // ---------------------------------------------------------------------
  // The diagonal update as the source writes it
  // ---------------------------------------------------------------------

  /** The diagonal update of fplll/gso.cpp:182-184 (and 203-205, 225-230,
      254-260, 287-293): it reads g(i, j) directly, not symG(i, j). */
  function AddMulDiagAsWritten(g: seq<seq<int>>, i: nat, j: nat, c: int): (d: int)
    requires Square(g) && i < |g| && j < |g|
  {
    g[i][i] + 2 * c * g[i][j] + c * c * g[j][j]
  }

  /** The row operation's Gram update with the diagonal as written. */
  function AddMulGramAsWritten(g: seq<seq<int>>, i: nat, j: nat, c: int, m: nat): (r: seq<seq<int>>)
    requires Square(g) && i < |g| && j < |g|
    ensures |r| == |g| && Square(r)
    ensures r[i][i] == AddMulDiagAsWritten(g, i, j, c)
    ensures forall a, e :: 0 <= a < |g| && 0 <= e < |g| && !(a == i && e == i) ==>
      r[a][e] == AddMulGram(g, i, j, c, m)[a][e]
  {
    var r := AddMulGram(g, i, j, c, m);
    r[i := r[i][i := AddMulDiagAsWritten(g, i, j, c)]]
  }

  /** When the row being changed lies below the other one (i > j), g(i, j)
      is in the lower triangle and the written update is the exact one. */
  lemma AsWrittenAgreesBelowDiagonal(g: seq<seq<int>>, i: nat, j: nat, c: int, m: nat)
    requires Square(g) && j < i < |g|
    ensures AddMulGramAsWritten(g, i, j, c, m) == AddMulGram(g, i, j, c, m)
  {
    var r := AddMulGramAsWritten(g, i, j, c, m);
    var s := AddMulGram(g, i, j, c, m);
    assert AddMulDiagAsWritten(g, i, j, c) == AddMulDiag(g, i, j, c);
    assert forall a :: 0 <= a < |g| ==> r[a] == s[a];
  }

  /** With i < j the written update reads the upper triangle, which nothing
      maintains: for b = [[1], [1]] with an exact lower triangle and a zero
      upper entry, row_add(0, 1) stores 2 as the squared norm of b_0 = [2]. */
  lemma AsWrittenBreaksGram()
    ensures var g := [[1, 0], [1, 1]];
      var bs := [[1], [1]];
      var bs' := bs[0 := AddMulPrefix(bs[0], bs[1], 1, 1)];
      && IsGramOf(g, bs, 2, 1)
      && IsGramOf(AddMulGram(g, 0, 1, 1, 2), bs', 2, 1)
      && AddMulGramAsWritten(g, 0, 1, 1, 2)[0][0] == 2
      && Dot(bs'[0], bs'[0], 1) == 4
      && !IsGramOf(AddMulGramAsWritten(g, 0, 1, 1, 2), bs', 2, 1)
  {
    var g := [[1, 0], [1, 1]];
    var bs := [[1], [1]];
    var bs' := bs[0 := AddMulPrefix(bs[0], bs[1], 1, 1)];
    assert bs'[0] == [2];
    assert Dot(bs'[0], bs'[0], 1) == 4;
    assert IsGramOf(g, bs, 2, 1) by {
      assert Dot(bs[0], bs[0], 1) == 1 && Dot(bs[1], bs[0], 1) == 1 && Dot(bs[1], bs[1], 1) == 1;
    }
    AddMulExact(g, bs, 0, 1, 1, 2, 1);
  }

  /** The diagonal update of row_addmul_si, row_addmul_si_2exp and
      row_addmul_2exp (fplll/gso.cpp:225-230, 254-260, 287-293, with
      c = x 2^expo) as the statements run: g(i, i) first gains 2 c g(i, j),
      and c^2 g(j, j) is read afterwards.  When i == j that read sees the
      updated entry, so the result is (1 + 2c)(1 + c^2) g(i, i). */
  function AddMulDiagInOrder(g: seq<seq<int>>, i: nat, j: nat, c: int): (d: int)
    requires Square(g) && i < |g| && j < |g|
    ensures i != j ==> d == AddMulDiagAsWritten(g, i, j, c)
    ensures i == j ==> d == (1 + 2 * c) * (1 + c * c) * g[i][i]
  {
    var gii := g[i][i] + 2 * c * g[i][j];
    assert i == j ==> gii + c * c * gii == (1 + 2 * c) * (1 + c * c) * g[i][i] by {
      if i == j {
        assert gii == (1 + 2 * c) * g[i][i];
      }
    }
    gii + c * c * (if i == j then gii else g[j][j])
  }

  /** Adding a non-zero multiple of a row to itself: the order as written is
      off by 2 c^3 g(i, i) from the exact (1 + c)^2 g(i, i), so it is wrong
      for every non-zero row. */
  lemma InOrderMisses(g: seq<seq<int>>, i: nat, c: int)
    requires Square(g) && i < |g|
    ensures AddMulDiag(g, i, i, c) == (1 + c) * (1 + c) * g[i][i]
    ensures AddMulDiagInOrder(g, i, i, c) - AddMulDiag(g, i, i, c) == 2 * c * c * c * g[i][i]
    ensures c != 0 && g[i][i] != 0 ==> AddMulDiagInOrder(g, i, i, c) != AddMulDiag(g, i, i, c)
  {
    var x := g[i][i];
    assert (1 + 2 * c) * (1 + c * c) * x - (1 + c) * (1 + c) * x == 2 * c * c * c * x;
    if c != 0 && x != 0 {
      assert c * c > 0;
      assert c * c * c != 0;
    }
  }

  /** For b = [[1]] and c = -2, b_0 becomes [-1] of squared norm 1; the
      exact update stores 1, the order as written stores (1 - 4)(1 + 4) = -15. */
  lemma InOrderBreaksGram()
    ensures var g := [[1]];
      var bs := [[1]];
      var bs' := bs[0 := AddMulPrefix(bs[0], bs[0], -2, 1)];
      && IsGramOf(g, bs, 1, 1)
      && Dot(bs'[0], bs'[0], 1) == 1
      && AddMulGram(g, 0, 0, -2, 1)[0][0] == 1
      && AddMulDiagInOrder(g, 0, 0, -2) == -15
  {
    var g := [[1]];
    var bs := [[1]];
    var bs' := bs[0 := AddMulPrefix(bs[0], bs[0], -2, 1)];
    assert bs'[0] == [-1];
    assert Dot(bs'[0], bs'[0], 1) == 1;
    assert IsGramOf(g, bs, 1, 1) by {
      assert Dot(bs[0], bs[0], 1) == 1;
    }
    AddMulExact(g, bs, 0, 0, -2, 1, 1);
  }

  // ---------------------------------------------------------------------
  // rowSwap
  // ---------------------------------------------------------------------

  /** Whether rowSwap(i, j) (i <= j) with m known rows rewrites the
      lower-triangle entry (a, e) (fplll/gso.cpp:336-343): rows i and j
      entirely, column i for the rows between i and j, and columns i and j
      for the known rows below j.  (g(j, i) is listed with row j; it is read
      from itself.) */
  predicate SwapTouches(i: nat, j: nat, m: nat, a: nat, e: nat)
  {
    e <= a && (a == i || a == j || (e == i && a < j) || ((e == i || e == j) && j < a < m))
  }

  /** Entry (a, e) after rowSwap(i, j): the symmetric entry of the swapped indices. */
  function SwapEntry<T>(g: seq<seq<T>>, i: nat, j: nat, m: nat, a: nat, e: nat): (r: T)
    requires Square(g) && i < |g| && j < |g| && a < |g| && e < |g|
  {
    if SwapTouches(i, j, m, a, e) then Sym(g, Source(Transpose(i, j), a), Source(Transpose(i, j), e))
    else g[a][e]
  }

  function SwapGram<T>(g: seq<seq<T>>, i: nat, j: nat, m: nat): (r: seq<seq<T>>)
    requires Square(g) && i < |g| && j < |g|
    ensures |r| == |g| && Square(r)
    ensures forall a, e :: 0 <= a < |g| && 0 <= e < |g| && !SwapTouches(i, j, m, a, e) ==> r[a][e] == g[a][e]
    ensures i <= j ==> r[j][i] == g[j][i]
  {
    seq(|g|, a requires 0 <= a < |g| =>
      seq(|g|, e requires 0 <= e < |g| => SwapEntry(g, i, j, m, a, e)))
  }

  /** rowSwap keeps g the exact Gram matrix of the swapped basis, and leaves
      g(j, i) where it is (the dot product of the two rows does not change). */
  lemma SwapExact(g: seq<seq<int>>, bs: seq<seq<int>>, i: nat, j: nat, m: nat, cols: nat)
    requires IsGramOf(g, bs, m, cols)
    requires i <= j < m
    ensures IsGramOf(SwapGram(g, i, j, m), Permute(bs, Transpose(i, j)), m, cols)
    ensures SwapGram(g, i, j, m)[j][i] == g[j][i]
    ensures forall a, e :: 0 <= a < |g| && 0 <= e < |g| && !SwapTouches(i, j, m, a, e) ==>
      SwapGram(g, i, j, m)[a][e] == g[a][e]
  {
    var p := Transpose(i, j);
    var bs' := Permute(bs, p);
    var g' := SwapGram(g, i, j, m);
    forall a, e | 0 <= e <= a < m
      ensures g'[a][e] == Dot(bs'[a], bs'[e], cols)
    {
      SymDot(g, bs, m, cols, Source(p, a), Source(p, e));
    }
  }

  /** rowSwap of two known rows keeps the integer-Gram state exact. */
  lemma SwapKeepsExact(g: seq<seq<int>>, bs: seq<seq<int>>, i: nat, j: nat, m: nat, cols: nat, ext: seq<int>)
    requires ExactGram(g, bs, m, cols, ext)
    requires i <= j < m
    ensures ExactGram(SwapGram(g, i, j, m), Permute(bs, Transpose(i, j)), m, cols, ext)
  {
    SwapExact(g, bs, i, j, m, cols);
  }

  // ---------------------------------------------------------------------
  // moveRow
  // ---------------------------------------------------------------------

  /** The known lower triangle (rows below m) re-indexed by p and read
      through symG; entries outside it are kept. */
  function PermuteGram<T>(g: seq<seq<T>>, p: Reindex, m: nat): (r: seq<seq<T>>)
    requires Square(g) && m <= |g|
    requires forall k :: 0 <= k < m ==> Source(p, k) < m
    ensures |r| == |g| && Square(r)
  {
    seq(|g|, a requires 0 <= a < |g| =>
      seq(|g|, e requires 0 <= e < |g| =>
        if e <= a < m then Sym(g, Source(p, a), Source(p, e)) else g[a][e]))
  }

  /** The re-indexing moveRow(oldR, newR) applies to the Gram matrix with
      m known rows: rotateGramRight(newR, oldR, m) when the row moves up,
      rotateGramLeft(oldR, min(newR, m - 1), m) when it moves down from a
      row other than the last known one (fplll/gso.cpp:365-366, 389-391). */
  function MoveGramIndex(oldR: nat, newR: nat, m: nat): (p: Reindex)
  {
    if newR < oldR then Rotate(Right, newR, oldR)
    else if 0 < m <= newR then Rotate(Left, oldR, m - 1)
    else Rotate(Left, oldR, newR)
  }

  /** Whether moveRow(oldR, newR) rotates the Gram matrix at all. */
  predicate MoveGramRotates(oldR: nat, newR: nat, m: nat)
  {
    newR < oldR || (oldR < newR && oldR + 1 < m)
  }

  lemma MoveGramIndexInRange(oldR: nat, newR: nat, m: nat, k: nat)
    requires newR < oldR ==> oldR < m
    requires MoveGramRotates(oldR, newR, m) && k < m
    ensures Source(MoveGramIndex(oldR, newR, m), k) < m
  {
  }

  function MoveGram<T>(g: seq<seq<T>>, oldR: nat, newR: nat, m: nat): (r: seq<seq<T>>)
    requires Square(g) && m <= |g|
    requires newR < oldR ==> oldR < m
    ensures |r| == |g| && Square(r)
    ensures oldR == newR ==> r == g
    ensures forall a, e :: 0 <= a < |g| && 0 <= e < |g| && !(e <= a < m) ==> r[a][e] == g[a][e]
  {
    if MoveGramRotates(oldR, newR, m) then
      assert forall k :: 0 <= k < m ==> Source(MoveGramIndex(oldR, newR, m), k) < m by {
        forall k | 0 <= k < m ensures Source(MoveGramIndex(oldR, newR, m), k) < m {
          MoveGramIndexInRange(oldR, newR, m, k);
        }
      }
      PermuteGram(g, MoveGramIndex(oldR, newR, m), m)
    else g
  }

  /** On every row that stays known, the Gram re-indexing and the re-indexing
      of the basis agree. */
  lemma MoveIndicesAgree(oldR: nat, newR: nat, m: nat, k: nat)
    requires newR < oldR ==> oldR < m
    requires oldR != newR
    requires k < (if oldR < m <= newR then m - 1 else m)
    ensures var p := MoveIndex(oldR, newR);
      && (MoveGramRotates(oldR, newR, m) ==> Source(MoveGramIndex(oldR, newR, m), k) == Source(p, k))
      && (!MoveGramRotates(oldR, newR, m) ==> Source(p, k) == k)
      && Source(p, k) < m
  {
    if oldR < newR && MoveGramRotates(oldR, newR, m) {
      if m <= newR {
        LeftRotationsAgree(oldR, m - 1, newR, k);
      }
    }
  }

  /** moveRow keeps g the exact Gram matrix of the rotated basis over the rows
      that are known afterwards. */
  lemma MoveRowGramExact(g: seq<seq<int>>, bs: seq<seq<int>>, oldR: nat, newR: nat, m: nat, cols: nat)
    requires IsGramOf(g, bs, m, cols) && |bs| <= |g|
    requires oldR < |bs| && newR < |bs| && oldR != newR
    requires newR < oldR ==> oldR < m
    ensures var p := MoveIndex(oldR, newR);
      IsGramOf(MoveGram(g, oldR, newR, m), Permute(bs, p), if oldR < m <= newR then m - 1 else m, cols)
  {
    var p := MoveIndex(oldR, newR);
    var m' := if oldR < m <= newR then m - 1 else m;
    var bs' := Permute(bs, p);
    var g' := MoveGram(g, oldR, newR, m);
    forall k | 0 <= k < m'
      ensures cols <= |bs'[k]|
    {
      MoveIndicesAgree(oldR, newR, m, k);
    }
    forall a, e | 0 <= e <= a < m'
      ensures g'[a][e] == Dot(bs'[a], bs'[e], cols)
    {
      MoveIndicesAgree(oldR, newR, m, a);
      MoveIndicesAgree(oldR, newR, m, e);
      SymDot(g, bs, m, cols, Source(p, a), Source(p, e));
    }
  }
}
