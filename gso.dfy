/** MatGSO's exact bookkeeping (fplll/gso.cpp): the basis b, the transforms
    u and uInvT, the integer Gram matrix g (or, without it, which entries of
    the floating-point Gram matrix gf are stale), the validity cursors
    gsoValidCols and the counters of known rows and columns.  The
    floating-point GSO coefficients mu and r, and bf, are not modelled. */
module GSO {
  import opened Vectors
  import opened Reindex
  import opened Validity
  import opened Gram
  import opened Transform
  import opened RowOps

  /** v grown to `size` entries; new entries are `fill` (std::vector::resize). */
  function Resize<T>(v: seq<T>, size: nat, fill: T): (r: seq<T>)
    requires |v| <= size
    ensures |r| == size && r[..|v|] == v
    ensures forall k :: |v| <= k < size ==> r[k] == fill
  {
    v + seq(size - |v|, _ => fill)
  }

  /** A square matrix grown to size x size; old entries are kept, new ones are `fill`. */
  function ResizeSquare<T>(m: seq<seq<T>>, size: nat, fill: T): (r: seq<seq<T>>)
    requires Square(m) && |m| <= size
    ensures |r| == size && Square(r)
    ensures forall a, e :: 0 <= a < |m| && 0 <= e < |m| ==> r[a][e] == m[a][e]
    ensures forall a, e :: 0 <= a < size && 0 <= e < size && (|m| <= a || |m| <= e) ==> r[a][e] == fill
  {
    seq(size, a requires 0 <= a < size =>
      seq(size, e requires 0 <= e < size => if a < |m| && e < |m| then m[a][e] else fill))
  }

  /** The gf entries (a, e) that rowOpEnd(first, last) marks stale with m
      known rows: the lower row of each touched row and the part of its
      column below it among the known rows (fplll/gso.cpp:65-70). */
  predicate RowOpStale(first: nat, last: nat, m: nat, a: nat, e: nat)
  {
    e <= a && (first <= a < last || (first <= e < last && a < m))
  }

  /** s with the entries (a, e) for which `cells` holds set to stale. */
  function MarkStale(s: seq<seq<bool>>, cells: Cells): (r: seq<seq<bool>>)
    requires Square(s)
    ensures |r| == |s| && Square(r)
  {
    seq(|s|, a requires 0 <= a < |s| =>
      seq(|s|, e requires 0 <= e < |s| => s[a][e] || InCells(cells, a, e)))
  }

  /** Sets of gf entries: row i up to the diagonal (invalidateGramRow),
      column i below the diagonal among m known rows, what
      rowOpEnd(first, last) marks, and the entries getGram(i, j) reads for
      lo <= j < hi. */
  datatype Cells =
    | RowPart(i: nat)
    | ColumnPart(i: nat, m: nat)
    | RowOpPart(first: nat, last: nat, m: nat)
    | ReadPart(i: nat, lo: nat, hi: nat)

  predicate InCells(cells: Cells, a: nat, e: nat)
  {
    match cells
    case RowPart(i) => a == i && e <= i
    case ColumnPart(i, m) => e == i && i < a < m
    case RowOpPart(first, last, m) => RowOpStale(first, last, m, a, e)
    case ReadPart(i, lo, hi) => (a == i && e <= i && lo <= e < hi) || (e == i && i < a && lo <= a < hi)
  }

  /** s with the entries (a, e) for which `cells` holds made fresh: no mark
      is added, and exactly those entries lose theirs. */
  function Refresh(s: seq<seq<bool>>, cells: Cells): (r: seq<seq<bool>>)
    requires Square(s)
    ensures |r| == |s| && Square(r)
    ensures forall a, e :: 0 <= a < |s| && 0 <= e < |s| && r[a][e] ==> s[a][e]
    ensures forall a, e :: 0 <= a < |s| && 0 <= e < |s| && InCells(cells, a, e) ==> !r[a][e]
  {
    seq(|s|, a requires 0 <= a < |s| =>
      seq(|s|, e requires 0 <= e < |s| => s[a][e] && !InCells(cells, a, e)))
  }

  /** One more getGram(i, j) in updateGSORow's loop: the entries read for
      lo..j-1 grow into those read for lo..j.  Each read is the stored
      lower-triangle entry (max(i, j), min(i, j)). */
  lemma RefreshStep(s: seq<seq<bool>>, i: nat, lo: nat, j: nat)
    requires Square(s) && i < |s| && j < |s| && lo <= j
    ensures var t := Refresh(s, ReadPart(i, lo, j));
      t[Max(i, j) := t[Max(i, j)][Min(i, j) := false]] == Refresh(s, ReadPart(i, lo, j + 1))
  {
    var a, e := Max(i, j), Min(i, j);
    var t := Refresh(s, ReadPart(i, lo, j));
    var r := t[a := t[a][e := false]];
    var q := Refresh(s, ReadPart(i, lo, j + 1));
    forall k | 0 <= k < |s|
      ensures r[k] == q[k]
    {
    }
  }

  /** Reading nothing refreshes nothing. */
  lemma RefreshEmpty(s: seq<seq<bool>>, i: nat, lo: nat)
    requires Square(s)
    ensures Refresh(s, ReadPart(i, lo, lo)) == s
  {
    var r := Refresh(s, ReadPart(i, lo, lo));
    forall k | 0 <= k < |s|
      ensures r[k] == s[k]
    {
    }
  }

  /** How far updateGSORow's loop reads from j on (fplll/gso.cpp:151-165):
      up to and including the first j <= lastJ below i whose mu is not
      finite, or else to lastJ + 1; the result is one past the last j read. */
  function StopIndex(j: nat, lastJ: nat, i: nat, nonFinite: set<nat>): (k: nat)
    ensures j <= k
    decreases lastJ + 1 - j
  {
    if j > lastJ then j
    else if j < i && j in nonFinite then j + 1
    else StopIndex(j + 1, lastJ, i, nonFinite)
  }

  /** The loop reads every j up to lastJ when no mu is non-finite, and
      otherwise stops right after the first non-finite one. */
  lemma {:induction false} StopIndexFirst(j: nat, lastJ: nat, i: nat, nonFinite: set<nat>)
    ensures var k := StopIndex(j, lastJ, i, nonFinite);
      && k <= (if j <= lastJ then lastJ + 1 else j)
      && ((forall t :: j <= t <= lastJ && t < i ==> t !in nonFinite) ==> k == (if j <= lastJ then lastJ + 1 else j))
      && (!(forall t :: j <= t <= lastJ && t < i ==> t !in nonFinite) ==>
            && j < k && k - 1 < i && k - 1 in nonFinite
            && (forall t :: j <= t < k - 1 && t < i ==> t !in nonFinite))
    decreases lastJ + 1 - j
  {
    if j <= lastJ && !(j < i && j in nonFinite) {
      StopIndexFirst(j + 1, lastJ, i, nonFinite);
    }
  }

  /** One round of rowOpEnd's loop marks row i and its column: the marks of
      rows first..i-1 grow into those of rows first..i. */
  lemma RowOpStaleStep(s: seq<seq<bool>>, first: nat, i: nat, m: nat)
    requires Square(s) && first <= i < m <= |s|
    ensures MarkStale(MarkStale(MarkStale(s, RowOpPart(first, i, m)), RowPart(i)), ColumnPart(i, m))
         == MarkStale(s, RowOpPart(first, i + 1, m))
  {
    var r := MarkStale(MarkStale(MarkStale(s, RowOpPart(first, i, m)), RowPart(i)), ColumnPart(i, m));
    var t := MarkStale(s, RowOpPart(first, i + 1, m));
    forall a | 0 <= a < |s|
      ensures r[a] == t[a]
    {
    }
  }

  /** Marking nothing: rowOpEnd over an empty range. */
  lemma MarkStaleEmpty(s: seq<seq<bool>>, first: nat, m: nat)
    requires Square(s)
    ensures MarkStale(s, RowOpPart(first, first, m)) == s
  {
    var r := MarkStale(s, RowOpPart(first, first, m));
    forall a | 0 <= a < |s|
      ensures r[a] == s[a]
    {
    }
  }

  /** The entries rowSwap's three loops have exchanged once the first runs
      up to k1 (k1 <= i), the second up to k2 (i < k2 <= j) and the third
      up to k3 (j < k3 <= m); the two diagonal entries come last. */
  predicate SwapSoFar(i: nat, j: nat, k1: nat, k2: nat, k3: nat, a: nat, e: nat)
  {
    e <= a && (
      || ((a == i || a == j) && e < k1)
      || (e == i && i < a < k2)
      || (a == j && i < e < k2)
      || ((e == i || e == j) && j < a < k3))
  }

  /** g is g0 with the entries SwapSoFar names exchanged as rowSwap(i, j)
      exchanges them. */
  ghost predicate SwapStage(g: seq<seq<int>>, g0: seq<seq<int>>, i: nat, j: nat, m: nat, k1: nat, k2: nat, k3: nat)
  {
    && Square(g0) && i < |g0| && j < |g0| && |g| == |g0| && Square(g)
    && forall a, e :: 0 <= a < |g| && 0 <= e < |g| ==>
         g[a][e] == if SwapSoFar(i, j, k1, k2, k3, a, e) then SwapEntry(g0, i, j, m, a, e) else g0[a][e]
  }

  /** The entries of g the loop of a row operation has updated once it has
      run up to k: the diagonal entry (a, e) = (i, i), set before the loop,
      row i left of the diagonal and column i below it. */
  predicate AddMulSoFar(i: nat, k: nat, a: nat, e: nat)
  {
    (a == i && e == i) || (a == i && e < k && e < i) || (e == i && i < a < k)
  }

  /** g is g0 with the entries AddMulSoFar names updated as
      AddMulGram(g0, i, j, c, m) updates them. */
  ghost predicate AddMulStage(g: seq<seq<int>>, g0: seq<seq<int>>, i: nat, j: nat, c: int, m: nat, k: nat)
  {
    && Square(g0) && i < |g0| && j < |g0| && |g| == |g0| && Square(g)
    && forall a, e :: 0 <= a < |g| && 0 <= e < |g| ==>
         g[a][e] == if AddMulSoFar(i, k, a, e) then AddMulEntry(g0, i, j, c, m, a, e) else g0[a][e]
  }

  lemma AddMulStageStart(g0: seq<seq<int>>, i: nat, j: nat, c: int, m: nat)
    requires Square(g0) && i < |g0| && j < |g0|
    ensures AddMulStage(g0[i := g0[i][i := AddMulDiag(g0, i, j, c)]], g0, i, j, c, m, 0)
  {
  }

  lemma AddMulStageDone(g: seq<seq<int>>, g0: seq<seq<int>>, i: nat, j: nat, c: int, m: nat)
    requires AddMulStage(g, g0, i, j, c, m, m) && m <= |g0|
    ensures g == AddMulGram(g0, i, j, c, m)
  {
    var r := AddMulGram(g0, i, j, c, m);
    forall a | 0 <= a < |g|
      ensures g[a] == r[a]
    {
      assert |g[a]| == |r[a]| == |g|;
      forall e | 0 <= e < |g|
        ensures g[a][e] == r[a][e]
      {
      }
    }
  }

  /** initRowSize after moveRow(oldR, newR) with m known rows, given the
      rotated basis bs' (fplll/gso.cpp:401-408): when the row moves to an
      unknown position the extents are rotated with the rows, and a known
      row that leaves the known range gets the extent of its entries. */
  function MoveRowExtents(ext: seq<int>, bs': seq<seq<int>>, oldR: nat, newR: nat, m: nat): (r: seq<int>)
    requires oldR < |ext| && newR < |ext| && newR < |bs'|
    ensures |r| == |ext|
    ensures !(oldR < newR && m <= newR) ==> r == ext
    ensures forall k :: 0 <= k < |ext| && (k < oldR || newR < k) ==> r[k] == ext[k]
    ensures oldR < m <= newR ==> r[newR] >= 1 && ZeroFrom(bs'[newR], r[newR])
  {
    if oldR < newR && m <= newR then
      var e := Permute(ext, Rotate(Left, oldR, newR));
      if oldR < m then e[newR := Max(SizeNZ(bs'[newR]), 1)] else e
    else ext
  }

  /** The extents stay between 0 and the row length n. */
  lemma MoveRowExtentsBounded(ext: seq<int>, bs': seq<seq<int>>, oldR: nat, newR: nat, m: nat, n: nat)
    requires oldR < |ext| && newR < |ext| && newR < |bs'| && |bs'[newR]| == n && 1 <= n
    requires forall k :: 0 <= k < |ext| ==> 0 <= ext[k] <= n
    ensures var r := MoveRowExtents(ext, bs', oldR, newR, m);
      forall k :: 0 <= k < |r| ==> 0 <= r[k] <= n
  {
    if oldR < newR && m <= newR {
      forall k | 0 <= k < |ext|
        ensures Source(Rotate(Left, oldR, newR), k) < |ext|
      {
        SourceInRange(Rotate(Left, oldR, newR), |ext|, k);
      }
    }
  }

  /** moveRow keeps the integer-Gram state exact: g re-indexed as moveRow
      rotates it is the Gram matrix of the rotated basis over the rows known
      afterwards, and every row stays within the columns it is accounted for. */
  lemma MoveRowKeepsExact(g: seq<seq<int>>, bs: seq<seq<int>>, ext: seq<int>, oldR: nat, newR: nat, m: nat, cols: nat)
    requires ExactGram(g, bs, m, cols, ext) && |bs| <= |g| && |bs| <= |ext|
    requires oldR < |bs| && newR < |bs|
    requires newR < oldR ==> oldR < m
    ensures var bs' := Permute(bs, MoveIndex(oldR, newR));
      ExactGram(MoveGram(g, oldR, newR, m), bs', MoveRowKnown(oldR, newR, m), cols,
                MoveRowExtents(ext, bs', oldR, newR, m))
  {
    var p := MoveIndex(oldR, newR);
    var bs' := Permute(bs, p);
    var m' := MoveRowKnown(oldR, newR, m);
    var ext' := MoveRowExtents(ext, bs', oldR, newR, m);
    if oldR == newR {
      PermuteTrivial(bs, p);
    } else {
      MoveRowGramExact(g, bs, oldR, newR, m, cols);
      forall k | 0 <= k < m' && k < |bs'|
        ensures ZeroFrom(bs'[k], cols)
      {
        MoveIndicesAgree(oldR, newR, m, k);
      }
      forall k | m' <= k < |bs'| && k < |ext'|
        ensures ZeroFrom(bs'[k], ext'[k])
      {
        SourceInRange(p, |bs|, k);
        if oldR < newR && m <= newR {
          SourceInRange(p, |ext|, k);
        }
      }
    }
  }

  /** Re-indexing the rows keeps their common length. */
  lemma PermuteRows(s: seq<seq<int>>, p: Reindex, w: nat)
    requires Rows(s, w) && Fits(p, |s|)
    ensures Rows(Permute(s, p), w)
  {
    forall k | 0 <= k < |s|
      ensures Source(p, k) < |s|
    {
      SourceInRange(p, |s|, k);
    }
  }

  /** The extents after sizeIncreased's loop: rows `from` <= k < |bs| get
      the length of their non-zero prefix, at least 1 (fplll/gso.cpp:464-465). */
  function NewExtents(ext: seq<int>, bs: seq<seq<int>>, from: nat): (r: seq<int>)
    requires |bs| <= |ext|
    ensures |r| == |ext|
    ensures forall k :: from <= k < |bs| ==> 1 <= r[k] && ZeroFrom(bs[k], r[k])
    ensures forall k :: 0 <= k < |ext| && !(from <= k < |bs|) ==> r[k] == ext[k]
  {
    seq(|ext|, k requires 0 <= k < |ext| => if from <= k < |bs| then Max(SizeNZ(bs[k]), 1) else ext[k])
  }

  /** sizeIncreased keeps the integer-Gram state exact: the grown g keeps
      the old entries, and every row from the old allocation on is zero
      beyond the extent it gets. */
  lemma GrowKeepsExact(g: seq<seq<int>>, bs: seq<seq<int>>, m: nat, cols: nat, ext: seq<int>,
                       g': seq<seq<int>>, d: nat)
    requires ExactGram(g, bs, m, cols, ext) && |g| == |ext| && |bs| <= d && |ext| <= d
    requires Square(g') && |g'| == d
    requires forall a, e :: 0 <= a < |g| && 0 <= e < |g| ==> g'[a][e] == g[a][e]
    ensures ExactGram(g', bs, m, cols, NewExtents(Resize(ext, d, 0), bs, |ext|))
  {
    var ext' := NewExtents(Resize(ext, d, 0), bs, |ext|);
    GrowKeepsGram(g, bs, m, cols, g');
    forall k | m <= k < |bs| && k < |ext'|
      ensures ZeroFrom(bs[k], ext'[k])
    {
      if k < |ext| {
        assert ext'[k] == ext[k];
      }
    }
  }

  /** The new extents stay between 1 and the row length n. */
  lemma NewExtentsBounded(ext: seq<int>, bs: seq<seq<int>>, from: nat, n: nat)
    requires |bs| <= |ext| && 1 <= n
    requires Rows(bs, n)
    requires forall k :: 0 <= k < |ext| && !(from <= k < |bs|) ==> 0 <= ext[k] <= n
    ensures forall k :: 0 <= k < |ext| ==> 0 <= NewExtents(ext, bs, from)[k] <= n
  {
  }

  /** Resizing to the current size changes nothing. */
  lemma ResizeSame<T>(v: seq<T>, fill: T)
    ensures Resize(v, |v|, fill) == v
  {
  }

  class MatGSO {
    /** Number of columns of the basis. */
    const n: nat
    /** Number of columns of u and uInvT. */
    const transformCols: nat
    const enableIntGram: bool
    const enableRowExpo: bool
    const enableTransform: bool
    const enableInvTransform: bool
    const rowOpForceLong: bool

    /** The basis; d = |b| rows of n integers. */
    var b: seq<seq<int>>
    var u: seq<seq<int>>
    var uInvT: seq<seq<int>>
    /** The integer Gram matrix (enableIntGram), allocDim x allocDim, lower triangle meaningful. */
    var g: seq<seq<int>>
    /** Which entries of the floating-point Gram matrix gf hold NaN (without enableIntGram). */
    var gfStale: seq<seq<bool>>
    var gsoValidCols: seq<int>
    var initRowSize: seq<int>
    var rowExpo: seq<int>
    var nKnownRows: nat
    var nSourceRows: nat
    var nKnownCols: nat
    var colsLocked: bool
    var allocDim: nat

    /** The shapes of the basis, the transforms and the Gram matrix. */
    ghost predicate MatrixShapes()
      reads this`b, this`u, this`uInvT, this`g, this`gfStale, this`allocDim
    {
      && |b| <= allocDim
      && Rows(b, n)
      && (enableTransform ==> |u| == |b| && Rows(u, transformCols))
      && (enableTransform && enableInvTransform ==>
            |uInvT| == |b| && Rows(uInvT, transformCols))
      && (enableIntGram ==> |g| == allocDim && Square(g))
      && (!enableIntGram ==> |gfStale| == allocDim && Square(gfStale))
    }

    /** The per-row vectors have one entry per allocated row. */
    ghost predicate VectorShapes()
      reads this`gsoValidCols, this`initRowSize, this`rowExpo, this`allocDim
    {
      && |gsoValidCols| == allocDim && |initRowSize| == allocDim
      && (enableRowExpo ==> |rowExpo| == allocDim)
      && (forall k :: 0 <= k < |initRowSize| ==> 0 <= initRowSize[k] <= n)
    }

    /** nSourceRows <= nKnownRows <= d, and the two differ only while the
        columns are locked, which the integer Gram matrix never allows.
        Known rows have non-negative cursors. */
    ghost predicate Counters()
      reads this`b, this`gsoValidCols, this`nKnownRows, this`nSourceRows, this`nKnownCols, this`colsLocked
    {
      && nSourceRows <= nKnownRows <= |b|
      && nKnownCols <= n
      && (!colsLocked ==> nSourceRows == nKnownRows)
      && (enableIntGram ==> nSourceRows == nKnownRows)
      && (forall k :: 0 <= k < nKnownRows && k < |gsoValidCols| ==> gsoValidCols[k] >= 0)
    }

    /** The shapes and counters every operation keeps. */
    ghost predicate Valid()
      reads this
    {
      1 <= n && MatrixShapes() && VectorShapes() && Counters()
    }

    /** The exact state: with enableIntGram, g is the Gram matrix of the known
        rows over the known columns, known rows are zero beyond the known
        columns and the others beyond their initRowSize; with both
        transforms, u uInvT^T = I. */
    ghost predicate Consistent()
      reads this
    {
      && Valid()
      && (enableIntGram ==> ExactGram(g, b, nKnownRows, nKnownCols, initRowSize))
      && (enableTransform && enableInvTransform ==> IsInversePair(u, uInvT, transformCols))
    }

    /** A MatGSO over an empty basis with rows of n entries: nothing is
        allocated or known yet; rows come in through SizeIncreased. */
    constructor (n: nat, transformCols: nat, enableIntGram: bool, enableRowExpo: bool,
                 enableTransform: bool, enableInvTransform: bool, rowOpForceLong: bool)
      requires 1 <= n
      ensures Consistent()
      ensures this.n == n && this.transformCols == transformCols
      ensures this.enableIntGram == enableIntGram && this.enableRowExpo == enableRowExpo
      ensures this.enableTransform == enableTransform && this.enableInvTransform == enableInvTransform
      ensures this.rowOpForceLong == rowOpForceLong
      ensures b == [] && allocDim == 0 && nKnownRows == 0 && nKnownCols == 0 && !colsLocked
    {
      this.n := n;
      this.transformCols := transformCols;
      this.enableIntGram := enableIntGram;
      this.enableRowExpo := enableRowExpo;
      this.enableTransform := enableTransform;
      this.enableInvTransform := enableInvTransform;
      this.rowOpForceLong := rowOpForceLong;
      b, u, uInvT, g, gfStale := [], [], [], [], [];
      gsoValidCols, initRowSize, rowExpo := [], [], [];
      nKnownRows, nSourceRows, nKnownCols := 0, 0, 0;
      colsLocked := false;
      allocDim := 0;
    }

    // -------------------------------------------------------------------
    // Validity cursors
    // -------------------------------------------------------------------

    /** invalidateGSORow (fplll/gso.cpp:25-29). */
    method InvalidateGSORow(i: nat, newValidCols: int)
      requires Consistent()
      requires i < nKnownRows && 0 <= newValidCols <= i + 1
      modifies this`gsoValidCols
      ensures gsoValidCols == Lower(old(gsoValidCols), i, newValidCols)
      ensures gsoValidCols[i] == Min(old(gsoValidCols[i]), newValidCols)
      ensures Consistent()
    {
      gsoValidCols := gsoValidCols[i := Min(gsoValidCols[i], newValidCols)];
    }

    /** invalidateGramRow (fplll/gso.cpp:53-56): gf(i, j) := NaN for j <= i. */
    method InvalidateGramRow(i: nat)
      requires Square(gfStale) && i < |gfStale|
      modifies this`gfStale
      ensures gfStale == MarkStale(old(gfStale), RowPart(i))
    {
      ghost var s0 := gfStale;
      var j := 0;
      while j <= i
        invariant 0 <= j <= i + 1
        invariant |gfStale| == |s0| && Square(gfStale)
        invariant forall a, e :: 0 <= a < |gfStale| && 0 <= e < |gfStale| ==>
          gfStale[a][e] == (s0[a][e] || (a == i && e < j))
      {
        gfStale := gfStale[i := gfStale[i][j := true]];
        j := j + 1;
      }
      assert forall a :: 0 <= a < |s0| ==> gfStale[a] == MarkStale(s0, RowPart(i))[a];
    }

    /** The inner loop of rowOpEnd (fplll/gso.cpp:68-69): gf(j, i) := NaN
        for the known rows j below row i. */
    method InvalidateGramColumn(i: nat, m: nat)
      requires Square(gfStale) && i < m <= |gfStale|
      modifies this`gfStale
      ensures gfStale == MarkStale(old(gfStale), ColumnPart(i, m))
    {
      ghost var s0 := gfStale;
      var j := i + 1;
      while j < m
        invariant i + 1 <= j <= m
        invariant |gfStale| == |s0| && Square(gfStale)
        invariant forall a, e :: 0 <= a < |gfStale| && 0 <= e < |gfStale| ==>
          gfStale[a][e] == (s0[a][e] || (e == i && i < a < j))
      {
        gfStale := gfStale[j := gfStale[j][i := true]];
        j := j + 1;
      }
      assert forall a :: 0 <= a < |s0| ==> gfStale[a] == MarkStale(s0, ColumnPart(i, m))[a];
    }

    /** rowOpEnd (fplll/gso.cpp:59-76): the cursors of rows first..last-1
        drop to 0, those of the later known rows to at most `first`; without
        the integer Gram matrix, the gf row and column of every touched row
        become stale. */
    method RowOpEnd(first: nat, last: nat)
      requires Consistent()
      requires first <= last <= nKnownRows
      modifies this`gsoValidCols, this`gfStale
      ensures Consistent()
      ensures gsoValidCols == RowOpEndCursors(old(gsoValidCols), first, last, nKnownRows)
      ensures enableIntGram ==> gfStale == old(gfStale)
      ensures !enableIntGram ==> gfStale == MarkStale(old(gfStale), RowOpPart(first, last, nKnownRows))
    {
      RowOpEndTouched(first, last);
      InvalidateRowsFrom(last, first);
    }

    /** The first loop of rowOpEnd (fplll/gso.cpp:64-72): the rows
        first..last-1 get cursor 0 and, without the integer Gram matrix,
        stale gf rows and columns. */
    method RowOpEndTouched(first: nat, last: nat)
      requires Consistent()
      requires first <= last <= nKnownRows
      modifies this`gsoValidCols, this`gfStale
      ensures Consistent()
      ensures gsoValidCols == LowerFrom(old(gsoValidCols), first, last, 0)
      ensures enableIntGram ==> gfStale == old(gfStale)
      ensures !enableIntGram ==> gfStale == MarkStale(old(gfStale), RowOpPart(first, last, nKnownRows))
    {
      ghost var s0 := gfStale;
      if !enableIntGram {
        MarkStaleEmpty(s0, first, nKnownRows);
      }
      var i := first;
      while i < last
        invariant first <= i <= last
        invariant Consistent()
        invariant gsoValidCols == LowerFrom(old(gsoValidCols), first, i, 0)
        invariant enableIntGram ==> gfStale == s0
        invariant !enableIntGram ==> gfStale == MarkStale(s0, RowOpPart(first, i, nKnownRows))
      {
        RowOpEndRow(i, s0, first);
        i := i + 1;
      }
    }

    /** One round of rowOpEnd's first loop (fplll/gso.cpp:65-71): without
        the integer Gram matrix, gf row i and its column below become stale,
        which extends the marks of rows first..i-1 made on s0 to rows
        first..i; then the cursor of row i drops to 0. */
    method RowOpEndRow(i: nat, ghost s0: seq<seq<bool>>, ghost first: nat)
      requires Consistent() && first <= i < nKnownRows
      requires !enableIntGram ==>
        Square(s0) && nKnownRows <= |s0| && gfStale == MarkStale(s0, RowOpPart(first, i, nKnownRows))
      modifies this`gsoValidCols, this`gfStale
      ensures Consistent()
      ensures gsoValidCols == Lower(old(gsoValidCols), i, 0)
      ensures enableIntGram ==> gfStale == old(gfStale)
      ensures !enableIntGram ==> gfStale == MarkStale(s0, RowOpPart(first, i + 1, nKnownRows))
    {
      if !enableIntGram {
        InvalidateGramRow(i);
        InvalidateGramColumn(i, nKnownRows);
        RowOpStaleStep(s0, first, i, nKnownRows);
      }
      InvalidateGSORow(i, 0);
    }

    /** invalidateGSORow(i, bound) for every known row i from `start` on (the
        second loop of rowOpEnd, fplll/gso.cpp:73-74, and the first loop of
        moveRow, fplll/gso.cpp:352-354 and 376-378). */
    method InvalidateRowsFrom(start: nat, bound: nat)
      requires Consistent()
      requires bound <= start <= |b|
      modifies this`gsoValidCols
      ensures Consistent()
      ensures gsoValidCols == LowerFrom(old(gsoValidCols), start, nKnownRows, bound)
    {
      var i := start;
      while i < nKnownRows
        invariant start <= i <= Max(start, nKnownRows)
        invariant Consistent()
        invariant gsoValidCols == LowerFrom(old(gsoValidCols), start, i, bound)
      {
        InvalidateGSORow(i, bound);
        i := i + 1;
      }
    }

    // -------------------------------------------------------------------
    // Discovery
    // -------------------------------------------------------------------

    /** The loop of discoverRow (fplll/gso.cpp:92-93): g(i, j) := <b_i, b_j>
        over the known columns, for j <= i. */
    method FillGramRow(i: nat)
      requires Square(g) && i < |g| && i < |b|
      requires forall k :: 0 <= k <= i ==> nKnownCols <= |b[k]|
      modifies this`g
      ensures g == WithGramRow(old(g), b, i, nKnownCols)
    {
      ghost var g0 := g;
      var j := 0;
      while j <= i
        invariant 0 <= j <= i + 1
        invariant |g| == |g0| && Square(g)
        invariant forall e :: 0 <= e < j ==> g[i][e] == Dot(b[i], b[e], nKnownCols)
        invariant forall a, e :: 0 <= a < |g| && 0 <= e < |g| && !(a == i && e < j) ==> g[a][e] == g0[a][e]
      {
        g := g[i := g[i][j := Dot(b[i], b[j], nKnownCols)]];
        j := j + 1;
      }
      ghost var r := WithGramRow(g0, b, i, nKnownCols);
      forall a | 0 <= a < |g|
        ensures g[a] == r[a]
      {
        assert |g[a]| == |r[a]| == |g|;
        forall e | 0 <= e < |g|
          ensures g[a][e] == r[a][e]
        {
        }
      }
    }

    /** discoverRow (fplll/gso.cpp:79-99): row nKnownRows becomes known.
        Unless the columns are locked, nSourceRows follows and nKnownCols
        grows to cover the row's extent; with the integer Gram matrix its row
        of g is filled with dot products, otherwise its gf row becomes stale. */
    method DiscoverRow()
      requires Consistent()
      requires nKnownRows < |b|
      requires !(colsLocked && enableIntGram)
      modifies this`nKnownRows, this`nSourceRows, this`nKnownCols, this`g, this`gfStale, this`gsoValidCols
      ensures Consistent()
      ensures nKnownRows == old(nKnownRows) + 1
      ensures !colsLocked ==> nSourceRows == nKnownRows && nKnownCols == Max(old(nKnownCols), initRowSize[old(nKnownRows)])
      ensures colsLocked ==> nSourceRows == old(nSourceRows) && nKnownCols == old(nKnownCols)
      ensures gsoValidCols == old(gsoValidCols)[old(nKnownRows) := 0]
      ensures enableIntGram ==> gfStale == old(gfStale) && g == WithGramRow(old(g), b, old(nKnownRows), nKnownCols)
      ensures !enableIntGram ==> g == old(g) && gfStale == MarkStale(old(gfStale), RowPart(old(nKnownRows)))
    {
      var i := nKnownRows;
      ghost var cols0 := nKnownCols;
      CountRow();
      DiscoverRest(i, cols0);
    }

    /** The counters of discoverRow (fplll/gso.cpp:81-90): one more known
        row; unless the columns are locked, the source rows follow and the
        known columns widen to the new row's extent. */
    method CountRow()
      requires nKnownRows < |initRowSize|
      modifies this`nKnownRows, this`nSourceRows, this`nKnownCols
      ensures nKnownRows == old(nKnownRows) + 1
      ensures !colsLocked ==> nSourceRows == nKnownRows && nKnownCols == Max(old(nKnownCols), initRowSize[old(nKnownRows)])
      ensures colsLocked ==> nSourceRows == old(nSourceRows) && nKnownCols == old(nKnownCols)
    {
      var i := nKnownRows;
      nKnownRows := nKnownRows + 1;
      if !colsLocked {
        nSourceRows := nKnownRows;
        nKnownCols := Max(nKnownCols, initRowSize[i]);
      }
    }

    /** The end of discoverRow (fplll/gso.cpp:91-98), once row i has been
        counted as known and nKnownCols has grown from cols0: the Gram part,
        then the cursor of row i starts at 0.  The state is exact again. */
    method DiscoverRest(i: nat, ghost cols0: nat)
      requires MatrixShapes() && VectorShapes() && 1 <= n
      requires nKnownRows == i + 1 && i < |b| && nSourceRows <= nKnownRows && nKnownCols <= n
      requires !colsLocked ==> nSourceRows == nKnownRows
      requires enableIntGram ==> nSourceRows == nKnownRows
      requires forall k :: 0 <= k < i ==> gsoValidCols[k] >= 0
      requires enableIntGram ==>
        && ExactGram(g, b, i, cols0, initRowSize) && cols0 <= nKnownCols && initRowSize[i] <= nKnownCols
      requires enableTransform && enableInvTransform ==> IsInversePair(u, uInvT, transformCols)
      modifies this`g, this`gfStale, this`gsoValidCols
      ensures Consistent()
      ensures gsoValidCols == old(gsoValidCols)[i := 0]
      ensures enableIntGram ==> gfStale == old(gfStale) && g == WithGramRow(old(g), b, i, nKnownCols)
      ensures !enableIntGram ==> g == old(g) && gfStale == MarkStale(old(gfStale), RowPart(i))
    {
      DiscoverGram(i, cols0);
      gsoValidCols := gsoValidCols[i := 0];
    }

    /** The Gram part of discoverRow (fplll/gso.cpp:91-96) for the new row
        i, once nKnownCols has grown from cols0. */
    method DiscoverGram(i: nat, ghost cols0: nat)
      requires MatrixShapes() && i < |b| && nKnownCols <= n
      requires enableIntGram ==>
        && ExactGram(g, b, i, cols0, initRowSize) && cols0 <= nKnownCols
        && i < |initRowSize| && initRowSize[i] <= nKnownCols
      modifies this`g, this`gfStale
      ensures MatrixShapes()
      ensures enableIntGram ==>
        && gfStale == old(gfStale) && g == WithGramRow(old(g), b, i, nKnownCols)
        && ExactGram(g, b, i + 1, nKnownCols, initRowSize)
      ensures !enableIntGram ==> g == old(g) && gfStale == MarkStale(old(gfStale), RowPart(i))
    {
      if enableIntGram {
        ghost var g0 := g;
        FillGramRow(i);
        DiscoverKeepsExact(g0, b, i, cols0, nKnownCols, initRowSize);
      } else {
        InvalidateGramRow(i);
      }
    }

    /** getGram(f, i, j), as far as the stale marks go.  With int-Gram it
        reads g and changes nothing; otherwise it reads the stored entry
        (max(i, j), min(i, j)) of gf, computes it when it is stale, and
        leaves it fresh. */
    method ReadGram(i: nat, j: nat)
      requires Consistent()
      requires i < |b| && j < |b|
      modifies this`gfStale
      ensures Consistent()
      ensures enableIntGram ==> gfStale == old(gfStale)
      ensures !enableIntGram ==> gfStale == old(gfStale)[Max(i, j) := old(gfStale)[Max(i, j)][Min(i, j) := false]]
    {
      if !enableIntGram {
        var a, e := Max(i, j), Min(i, j);
        gfStale := gfStale[a := gfStale[a][e := false]];
      }
    }

    /** The loop of updateGSORow (fplll/gso.cpp:151-165) from j0 to lastJ:
        getGram(i, j), then for j below i the check that mu(i, j) is finite;
        `nonFinite` holds the j for which it would not be.  The loop stops
        with false at the first such j; `stop` is one past the last j read. */
    method ReadGramRow(i: nat, j0: nat, lastJ: nat, nonFinite: set<nat>) returns (ok: bool, stop: nat)
      requires Consistent()
      requires i < |b| && lastJ < |b|
      modifies this`gfStale
      ensures Consistent()
      ensures stop == StopIndex(j0, lastJ, i, nonFinite)
      ensures ok <==> forall t :: j0 <= t <= lastJ && t < i ==> t !in nonFinite
      ensures ok ==> stop == Max(j0, lastJ + 1)
      ensures enableIntGram ==> gfStale == old(gfStale)
      ensures !enableIntGram ==> gfStale == Refresh(old(gfStale), ReadPart(i, j0, stop))
    {
      ghost var s0 := gfStale;
      if !enableIntGram {
        RefreshEmpty(s0, i, j0);
      }
      var j := j0;
      while j <= lastJ
        invariant j0 <= j <= Max(j0, lastJ + 1)
        invariant forall t :: j0 <= t < j && t < i ==> t !in nonFinite
        invariant StopIndex(j, lastJ, i, nonFinite) == StopIndex(j0, lastJ, i, nonFinite)
        invariant Consistent()
        invariant enableIntGram ==> gfStale == s0
        invariant !enableIntGram ==> Square(s0) && gfStale == Refresh(s0, ReadPart(i, j0, j))
      {
        ReadGram(i, j);
        if !enableIntGram {
          RefreshStep(s0, i, j0, j);
        }
        if i > j && j in nonFinite {
          return false, j + 1;
        }
        j := j + 1;
      }
      return true, j;
    }

    /** updateGSORow, its effect on the validity cursor and the stale marks
        (fplll/gso.cpp:140-168).  A row equal to nKnownRows is discovered
        first.  The loop runs for j from max(0, gsoValidCols[i]) to lastJ and
        stops with false at the first j below i whose mu is not finite;
        otherwise the cursor of row i becomes max(0, gsoValidCols[i], lastJ + 1).
        Without int-Gram, every gf entry the loop has read is fresh. */
    method UpdateGSORow(i: nat, lastJ: nat, nonFinite: set<nat>) returns (ok: bool)
      requires Consistent()
      requires i <= nKnownRows && i < |b|
      requires i == nKnownRows ==> !(colsLocked && enableIntGram)
      requires lastJ < (if i == nKnownRows && !colsLocked then i + 1 else nSourceRows)
      modifies this`nKnownRows, this`nSourceRows, this`nKnownCols, this`g, this`gfStale, this`gsoValidCols
      ensures Consistent()
      ensures nKnownRows == old(nKnownRows) + (if i == old(nKnownRows) then 1 else 0)
      ensures i < old(nKnownRows) ==>
        nSourceRows == old(nSourceRows) && nKnownCols == old(nKnownCols) && g == old(g)
      ensures i == old(nKnownRows) && !colsLocked ==>
        nSourceRows == nKnownRows && nKnownCols == Max(old(nKnownCols), initRowSize[i])
      ensures i == old(nKnownRows) && colsLocked ==> nSourceRows == old(nSourceRows) && nKnownCols == old(nKnownCols)
      ensures i == old(nKnownRows) && enableIntGram ==> g == WithGramRow(old(g), b, i, nKnownCols)
      ensures i == old(nKnownRows) && !enableIntGram ==> g == old(g)
      ensures enableIntGram ==> gfStale == old(gfStale)
      ensures var v1 := if i == old(nKnownRows) then old(gsoValidCols)[i := 0] else old(gsoValidCols);
        var j0 := Max(0, v1[i]);
        && (ok <==> forall t :: j0 <= t <= lastJ && t < i ==> t !in nonFinite)
        && gsoValidCols == (if ok then v1[i := Max(j0, lastJ + 1)] else v1)
        && (!enableIntGram ==>
              Square(old(gfStale)) &&
              var s1 := if i == old(nKnownRows) then MarkStale(old(gfStale), RowPart(i)) else old(gfStale);
              gfStale == Refresh(s1, ReadPart(i, j0, StopIndex(j0, lastJ, i, nonFinite))))
    {
      if i >= nKnownRows {
        DiscoverRow();
      }
      ok := UpdateKnownRow(i, lastJ, nonFinite);
    }

    /** updateGSORow once row i is known (fplll/gso.cpp:150-167): the loop,
        then on success the new cursor of row i. */
    method UpdateKnownRow(i: nat, lastJ: nat, nonFinite: set<nat>) returns (ok: bool)
      requires Consistent()
      requires i < nKnownRows && lastJ < |b|
      modifies this`gfStale, this`gsoValidCols
      ensures Consistent()
      ensures var j0 := Max(0, old(gsoValidCols)[i]);
        && (ok <==> forall t :: j0 <= t <= lastJ && t < i ==> t !in nonFinite)
        && gsoValidCols == (if ok then old(gsoValidCols)[i := Max(j0, lastJ + 1)] else old(gsoValidCols))
        && (enableIntGram ==> gfStale == old(gfStale))
        && (!enableIntGram ==> gfStale == Refresh(old(gfStale), ReadPart(i, j0, StopIndex(j0, lastJ, i, nonFinite))))
    {
      var j0 := Max(0, gsoValidCols[i]);
      var stop;
      ok, stop := ReadGramRow(i, j0, lastJ, nonFinite);
      if ok {
        gsoValidCols := gsoValidCols[i := stop];
      }
    }

    // -------------------------------------------------------------------
    // Row operations b_i <- b_i + c b_j
    // -------------------------------------------------------------------

    /** The state after b_i <- b_i + c b_j from (b0, u0, w0, g0): b_i changes
        on the known columns, u_i by c u_j, uInvT_j by -c uInvT_i, and g as
        AddMulGram says; what is disabled does not change. */
    ghost predicate AddMulDone(b0: seq<seq<int>>, u0: seq<seq<int>>, w0: seq<seq<int>>, g0: seq<seq<int>>,
                               i: nat, j: nat, c: int)
      reads this
    {
      && i < |b0| && j < |b0| && nKnownCols <= |b0[i]| && nKnownCols <= |b0[j]|
      && b == b0[i := AddMulPrefix(b0[i], b0[j], c, nKnownCols)]
      && (if enableTransform then
            && i < |u0| && j < |u0| && transformCols <= |u0[i]| && transformCols <= |u0[j]|
            && u == u0[i := AddMulPrefix(u0[i], u0[j], c, transformCols)]
          else u == u0)
      && (if enableTransform && enableInvTransform then
            && i < |w0| && j < |w0| && transformCols <= |w0[i]| && transformCols <= |w0[j]|
            && uInvT == w0[j := AddMulPrefix(w0[j], w0[i], -c, transformCols)]
          else uInvT == w0)
      && (if enableIntGram then
            Square(g0) && i < |g0| && j < |g0| && g == AddMulGram(g0, i, j, c, nKnownRows)
          else g == g0)
    }

    /** The loop shared by the row operations (fplll/gso.cpp:187-189 and the
        like): symG(i, k) += c symG(j, k) for the known rows k != i, after
        g(i, i) has been set to its new value. */
    method AddMulGramRow(i: nat, j: nat, c: int, ghost g0: seq<seq<int>>)
      requires Square(g0) && i < nKnownRows <= |g0| && j < nKnownRows
      requires g == g0[i := g0[i][i := AddMulDiag(g0, i, j, c)]]
      modifies this`g
      ensures g == AddMulGram(g0, i, j, c, nKnownRows)
    {
      AddMulStageStart(g0, i, j, c, nKnownRows);
      var k := 0;
      while k < nKnownRows
        invariant 0 <= k <= nKnownRows
        invariant AddMulStage(g, g0, i, j, c, nKnownRows, k)
      {
        if k != i {
          var t := c * Sym(g, j, k);
          if i >= k {
            g := g[i := g[i][k := g[i][k] + t]];
          } else {
            g := g[k := g[k][i := g[k][i] + t]];
          }
        }
        k := k + 1;
      }
      AddMulStageDone(g, g0, i, j, c, nKnownRows);
    }

    /** b_i <- b_i + c b_j with the new diagonal entry g(i, i) = diag already
        computed, as every row operation does before touching row i of g.
        With i == j and both transforms, uInvT stops being the inverse
        transpose of u (the source does not exclude that call). */
    method AddMulRow(i: nat, j: nat, c: int, diag: int)
      requires Consistent()
      requires i < nKnownRows && j < nSourceRows
      requires enableIntGram ==> diag == AddMulDiag(g, i, j, c)
      modifies this`b, this`u, this`uInvT, this`g
      ensures Valid()
      ensures AddMulDone(old(b), old(u), old(uInvT), old(g), i, j, c)
      ensures i != j || !(enableTransform && enableInvTransform) ==> Consistent()
    {
      ghost var b0, g0 := b, g;
      AddMulVectors(i, j, c);
      if enableIntGram {
        g := g[i := g[i][i := diag]];
        AddMulGramRow(i, j, c, g0);
        AddMulKeepsExact(g0, b0, i, j, c, nKnownRows, nKnownCols, initRowSize);
      }
    }

    /** The updates of b, u and uInvT of a row operation (fplll/gso.cpp:174-180
        and the like): b_i <- b_i + c b_j over the known columns,
        u_i <- u_i + c u_j and uInvT_j <- uInvT_j - c uInvT_i. */
    method AddMulVectors(i: nat, j: nat, c: int)
      requires MatrixShapes() && i < |b| && j < |b| && nKnownCols <= n
      modifies this`b, this`u, this`uInvT
      ensures MatrixShapes()
      ensures b == old(b)[i := AddMulPrefix(old(b)[i], old(b)[j], c, nKnownCols)]
      ensures enableTransform ==> u == old(u)[i := AddMulPrefix(old(u)[i], old(u)[j], c, transformCols)]
      ensures !enableTransform ==> u == old(u)
      ensures enableTransform && enableInvTransform ==>
        uInvT == old(uInvT)[j := AddMulPrefix(old(uInvT)[j], old(uInvT)[i], -c, transformCols)]
      ensures !(enableTransform && enableInvTransform) ==> uInvT == old(uInvT)
      ensures enableTransform && enableInvTransform && i != j && IsInversePair(old(u), old(uInvT), transformCols) ==>
        IsInversePair(u, uInvT, transformCols)
    {
      b := b[i := AddMulPrefix(b[i], b[j], c, nKnownCols)];
      if enableTransform {
        if enableInvTransform && i != j && IsInversePair(u, uInvT, transformCols) {
          AddMulKeepsInverse(u, uInvT, i, j, c, transformCols);
        }
        u := u[i := AddMulPrefix(u[i], u[j], c, transformCols)];
        if enableInvTransform {
          uInvT := uInvT[j := AddMulPrefix(uInvT[j], uInvT[i], -c, transformCols)];
        }
      }
    }

    /** row_add (fplll/gso.cpp:172-190): b_i <- b_i + b_j. */
    method RowAdd(i: nat, j: nat)
      requires Consistent()
      requires i < nKnownRows && j < nSourceRows
      modifies this`b, this`u, this`uInvT, this`g
      ensures Valid()
      ensures AddMulDone(old(b), old(u), old(uInvT), old(g), i, j, 1)
      ensures i != j || !(enableTransform && enableInvTransform) ==> Consistent()
    {
      var diag := 0;
      if enableIntGram {
        var t := 2 * Sym(g, i, j) + g[j][j];
        diag := g[i][i] + t;
      }
      AddMulRow(i, j, 1, diag);
    }

    /** row_sub (fplll/gso.cpp:193-211): b_i <- b_i - b_j. */
    method RowSub(i: nat, j: nat)
      requires Consistent()
      requires i < nKnownRows && j < nSourceRows
      modifies this`b, this`u, this`uInvT, this`g
      ensures Valid()
      ensures AddMulDone(old(b), old(u), old(uInvT), old(g), i, j, -1)
      ensures i != j || !(enableTransform && enableInvTransform) ==> Consistent()
    {
      var diag := 0;
      if enableIntGram {
        var t := g[j][j] - 2 * Sym(g, i, j);
        diag := g[i][i] + t;
      }
      AddMulRow(i, j, -1, diag);
    }

    /** row_addmul_si (fplll/gso.cpp:214-239): b_i <- b_i + x b_j for a
        64-bit x.  uInvT_j receives the exact -x (see NegLongBreaksInverse),
        and both terms of the diagonal are read from the old g (see
        AddMulDiagInOrder for the order as written). */
    method RowAddMulSi(i: nat, j: nat, x: Long)
      requires Consistent()
      requires i < nKnownRows && j < nSourceRows
      modifies this`b, this`u, this`uInvT, this`g
      ensures Valid()
      ensures AddMulDone(old(b), old(u), old(uInvT), old(g), i, j, x as int)
      ensures i != j || !(enableTransform && enableInvTransform) ==> Consistent()
    {
      var diag := 0;
      if enableIntGram {
        var t1 := Sym(g, i, j) * (x as int) * 2;
        var t2 := g[j][j] * (x as int) * (x as int);
        diag := g[i][i] + t1 + t2;
      }
      AddMulRow(i, j, x as int, diag);
    }

    /** row_addmul_si_2exp (fplll/gso.cpp:242-270): b_i <- b_i + x 2^expo b_j,
        with the diagonal read from the old g. */
    method RowAddMulSi2Exp(i: nat, j: nat, x: Long, expo: nat)
      requires Consistent()
      requires i < nKnownRows && j < nSourceRows
      modifies this`b, this`u, this`uInvT, this`g
      ensures Valid()
      ensures AddMulDone(old(b), old(u), old(uInvT), old(g), i, j, x as int * Pow2(expo))
      ensures i != j || !(enableTransform && enableInvTransform) ==> Consistent()
    {
      var diag := 0;
      if enableIntGram {
        var t1 := Sym(g, i, j) * (x as int) * Pow2(expo + 1);
        var t2 := g[j][j] * (x as int) * (x as int) * Pow2(2 * expo);
        diag := g[i][i] + t1 + t2;
        ScaledDiagonal(x as int, expo, Sym(g, i, j), g[j][j]);
      }
      AddMulRow(i, j, x as int * Pow2(expo), diag);
    }

    /** row_addmul_2exp (fplll/gso.cpp:273-303): b_i <- b_i + x 2^expo b_j
        for an arbitrary-precision x, with the diagonal read from the old g. */
    method RowAddMul2Exp(i: nat, j: nat, x: int, expo: nat)
      requires Consistent()
      requires i < nKnownRows && j < nSourceRows
      modifies this`b, this`u, this`uInvT, this`g
      ensures Valid()
      ensures AddMulDone(old(b), old(u), old(uInvT), old(g), i, j, x * Pow2(expo))
      ensures i != j || !(enableTransform && enableInvTransform) ==> Consistent()
    {
      var diag := 0;
      if enableIntGram {
        var t1 := Sym(g, i, j) * x * Pow2(expo + 1);
        var t2 := g[j][j] * x * x * Pow2(2 * expo);
        diag := g[i][i] + t1 + t2;
        ScaledDiagonal(x, expo, Sym(g, i, j), g[j][j]);
      }
      AddMulRow(i, j, x * Pow2(expo), diag);
    }

    /** row_addmul_we (fplll/gso.cpp:306-326): b_i <- b_i + x b_j for a
        floating-point x, given as (lx, expo) by get_si_exp_we and, on the
        last branch, as (zx, zexpo) by get_z_exp_we.  lx = 0 with expo = 0
        changes nothing. */
    method RowAddMulWe(i: nat, j: nat, lx: Long, expo: nat, zx: int, zexpo: nat)
      requires Consistent()
      requires i < nKnownRows && j < nSourceRows
      modifies this`b, this`u, this`uInvT, this`g
      ensures Valid()
      ensures var op := Dispatch(lx, expo, rowOpForceLong, zx, zexpo);
        && (op == NoOp ==> b == old(b) && u == old(u) && uInvT == old(uInvT) && g == old(g))
        && (op != NoOp ==> AddMulDone(old(b), old(u), old(uInvT), old(g), i, j, Coefficient(op)))
      ensures i != j || !(enableTransform && enableInvTransform) ==> Consistent()
    {
      if expo == 0 {
        if lx == 1 {
          RowAdd(i, j);
        } else if lx == -1 {
          RowSub(i, j);
        } else if lx != 0 {
          RowAddMulSi(i, j, lx);
        }
      } else if rowOpForceLong {
        RowAddMulSi2Exp(i, j, lx, expo);
      } else {
        RowAddMul2Exp(i, j, zx, zexpo);
      }
    }

    // -------------------------------------------------------------------
    // Structural operations
    // -------------------------------------------------------------------

    /** The first loop of rowSwap (fplll/gso.cpp:336-337): g(i, k) and
        g(j, k) change places for k < i. */
    method SwapGramLeft(i: nat, j: nat, ghost g0: seq<seq<int>>)
      requires Square(g0) && i <= j < |g0| && nKnownRows <= |g0| && g == g0
      modifies this`g
      ensures SwapStage(g, g0, i, j, nKnownRows, i, i + 1, j + 1)
    {
      var k := 0;
      while k < i
        invariant 0 <= k <= i
        invariant SwapStage(g, g0, i, j, nKnownRows, k, i + 1, j + 1)
      {
        var t := g[i][k];
        g := g[i := g[i][k := g[j][k]]];
        g := g[j := g[j][k := t]];
        k := k + 1;
      }
    }

    /** The second loop (fplll/gso.cpp:338-339): g(k, i) and g(j, k) change
        places for i < k < j. */
    method SwapGramMiddle(i: nat, j: nat, ghost g0: seq<seq<int>>)
      requires Square(g0) && i <= j < |g0| && nKnownRows <= |g0|
      requires SwapStage(g, g0, i, j, nKnownRows, i, i + 1, j + 1)
      modifies this`g
      ensures SwapStage(g, g0, i, j, nKnownRows, i, j, j + 1)
    {
      var k := i + 1;
      while k < j
        invariant i + 1 <= k <= Max(i + 1, j)
        invariant SwapStage(g, g0, i, j, nKnownRows, i, k, j + 1)
      {
        var t := g[k][i];
        g := g[k := g[k][i := g[j][k]]];
        g := g[j := g[j][k := t]];
        k := k + 1;
      }
    }

    /** The third loop (fplll/gso.cpp:340-341): g(k, i) and g(k, j) change
        places for the known rows k below j. */
    method SwapGramBelow(i: nat, j: nat, ghost g0: seq<seq<int>>)
      requires Square(g0) && i <= j < |g0| && nKnownRows <= |g0|
      requires SwapStage(g, g0, i, j, nKnownRows, i, j, j + 1)
      modifies this`g
      ensures SwapStage(g, g0, i, j, nKnownRows, i, j, Max(j + 1, nKnownRows))
    {
      var k := j + 1;
      while k < nKnownRows
        invariant j + 1 <= k <= Max(j + 1, nKnownRows)
        invariant SwapStage(g, g0, i, j, nKnownRows, i, j, k)
      {
        var t := g[k][i];
        g := g[k := g[k][i := g[k][j]]];
        g := g[k := g[k][j := t]];
        k := k + 1;
      }
    }

    /** The Gram part of rowSwap (fplll/gso.cpp:335-344): the three loops,
        then g(i, i) and g(j, j) change places. */
    method SwapGramRows(i: nat, j: nat)
      requires Square(g) && i <= j < |g| && nKnownRows <= |g|
      modifies this`g
      ensures g == SwapGram(old(g), i, j, nKnownRows)
    {
      ghost var g0 := g;
      SwapGramLeft(i, j, g0);
      SwapGramMiddle(i, j, g0);
      SwapGramBelow(i, j, g0);
      var t := g[i][i];
      g := g[i := g[i][i := g[j][j]]];
      g := g[j := g[j][j := t]];
      ghost var r := SwapGram(g0, i, j, nKnownRows);
      forall a | 0 <= a < |g|
        ensures g[a] == r[a]
      {
        assert |g[a]| == |r[a]| == |g|;
        forall e | 0 <= e < |g|
          ensures g[a][e] == r[a][e]
        {
        }
      }
    }

    /** rowSwap (fplll/gso.cpp:329-345): rows i and j of b (and u) change
        places and g follows; the GSO cursors are left to the caller.  The
        inverse transform must be disabled.  The state stays exact when both
        rows are known. */
    method RowSwap(i: nat, j: nat)
      requires Consistent()
      requires i <= j < |b| && !enableInvTransform
      modifies this`b, this`u, this`g
      ensures Valid()
      ensures b == Permute(old(b), Transpose(i, j))
      ensures enableTransform ==> u == Permute(old(u), Transpose(i, j))
      ensures !enableTransform ==> u == old(u)
      ensures enableIntGram ==> g == SwapGram(old(g), i, j, nKnownRows)
      ensures !enableIntGram ==> g == old(g)
      ensures j < nKnownRows ==> Consistent()
    {
      ghost var b0, g0 := b, g;
      SwapBasis(i, j);
      if enableIntGram {
        SwapGramRows(i, j);
        if j < nKnownRows {
          SwapKeepsExact(g0, b0, i, j, nKnownRows, nKnownCols, initRowSize);
        }
      }
    }

    /** The row exchanges of rowSwap on the basis and on u
        (fplll/gso.cpp:331-334). */
    method SwapBasis(i: nat, j: nat)
      requires MatrixShapes() && i <= j < |b|
      modifies this`b, this`u
      ensures MatrixShapes()
      ensures b == Permute(old(b), Transpose(i, j))
      ensures enableTransform ==> u == Permute(old(u), Transpose(i, j))
      ensures !enableTransform ==> u == old(u)
    {
      PermuteRows(b, Transpose(i, j), n);
      b := Permute(b, Transpose(i, j));
      if enableTransform {
        PermuteRows(u, Transpose(i, j), transformCols);
        u := Permute(u, Transpose(i, j));
      }
    }

    /** The rotations of the basis and the transforms in moveRow
        (fplll/gso.cpp:359-363, 383-387). */
    method RotateBasis(p: Reindex)
      requires MatrixShapes() && Fits(p, |b|)
      modifies this`b, this`u, this`uInvT
      ensures MatrixShapes()
      ensures b == Permute(old(b), p)
      ensures enableTransform ==> u == Permute(old(u), p)
      ensures !enableTransform ==> u == old(u)
      ensures enableTransform && enableInvTransform ==> uInvT == Permute(old(uInvT), p)
      ensures !(enableTransform && enableInvTransform) ==> uInvT == old(uInvT)
      ensures enableTransform && enableInvTransform && IsInversePair(old(u), old(uInvT), transformCols) ==>
        IsInversePair(u, uInvT, transformCols)
    {
      PermuteRows(b, p, n);
      b := Permute(b, p);
      if enableTransform {
        if enableInvTransform && IsInversePair(u, uInvT, transformCols) {
          PermuteKeepsInverse(u, uInvT, p, transformCols);
        }
        PermuteRows(u, p, transformCols);
        u := Permute(u, p);
        if enableInvTransform {
          PermuteRows(uInvT, p, transformCols);
          uInvT := Permute(uInvT, p);
        }
      }
    }

    /** The rotation of g, or of gf and its stale marks, in moveRow
        (fplll/gso.cpp:364-368, 388-396). */
    method RotateGram(oldR: nat, newR: nat)
      requires MatrixShapes() && nKnownRows <= allocDim
      requires newR < oldR ==> oldR < nKnownRows
      modifies this`g, this`gfStale
      ensures MatrixShapes()
      ensures enableIntGram ==> g == MoveGram(old(g), oldR, newR, nKnownRows)
      ensures !enableIntGram ==> g == old(g)
      ensures enableIntGram ==> gfStale == old(gfStale)
      ensures !enableIntGram ==> gfStale == MoveGram(old(gfStale), oldR, newR, nKnownRows)
    {
      if enableIntGram {
        g := MoveGram(g, oldR, newR, nKnownRows);
      } else {
        gfStale := MoveGram(gfStale, oldR, newR, nKnownRows);
      }
    }

    /** The rotations of the cursors and of rowExpo in moveRow
        (fplll/gso.cpp:355-356, 369-370, 379-380, 397-398). */
    method RotateCursors(p: Reindex)
      requires VectorShapes() && Fits(p, allocDim)
      modifies this`gsoValidCols, this`rowExpo
      ensures VectorShapes()
      ensures gsoValidCols == Permute(old(gsoValidCols), p)
      ensures enableRowExpo ==> rowExpo == Permute(old(rowExpo), p)
      ensures !enableRowExpo ==> rowExpo == old(rowExpo)
    {
      gsoValidCols := Permute(gsoValidCols, p);
      if enableRowExpo {
        rowExpo := Permute(rowExpo, p);
      }
    }

    /** All the rotations of moveRow. */
    method RotateRows(oldR: nat, newR: nat)
      requires MatrixShapes() && VectorShapes()
      requires oldR < |b| && newR < |b| && nKnownRows <= allocDim
      requires newR < oldR ==> oldR < nKnownRows
      modifies this`gsoValidCols, this`b, this`u, this`uInvT, this`g, this`gfStale, this`rowExpo
      ensures MatrixShapes() && VectorShapes()
      ensures gsoValidCols == Permute(old(gsoValidCols), MoveIndex(oldR, newR))
      ensures b == Permute(old(b), MoveIndex(oldR, newR))
      ensures enableTransform ==> u == Permute(old(u), MoveIndex(oldR, newR))
      ensures !enableTransform ==> u == old(u)
      ensures enableTransform && enableInvTransform ==> uInvT == Permute(old(uInvT), MoveIndex(oldR, newR))
      ensures !(enableTransform && enableInvTransform) ==> uInvT == old(uInvT)
      ensures enableIntGram ==> g == MoveGram(old(g), oldR, newR, nKnownRows) && gfStale == old(gfStale)
      ensures !enableIntGram ==> gfStale == MoveGram(old(gfStale), oldR, newR, nKnownRows) && g == old(g)
      ensures enableRowExpo ==> rowExpo == Permute(old(rowExpo), MoveIndex(oldR, newR))
      ensures !enableRowExpo ==> rowExpo == old(rowExpo)
      ensures enableTransform && enableInvTransform && IsInversePair(old(u), old(uInvT), transformCols) ==>
        IsInversePair(u, uInvT, transformCols)
    {
      var p := MoveIndex(oldR, newR);
      RotateCursors(p);
      RotateBasis(p);
      RotateGram(oldR, newR);
    }

    /** The end of moveRow (fplll/gso.cpp:401-408): when the row moves to a
        position among the rows not yet known, initRowSize is rotated too,
        and a known row leaving the known range lowers the counts and records
        the extent of its entries.  The requires say that the rotated state,
        counted with the new number of known rows and extents, is exact; the
        state is exact again afterwards. */
    method ShrinkKnownRows(oldR: nat, newR: nat)
      requires MatrixShapes() && VectorShapes() && 1 <= n
      requires !colsLocked && nSourceRows == nKnownRows && nKnownCols <= n
      requires oldR < |b| && newR < |b| && oldR != newR && nKnownRows <= |b|
      requires forall k :: 0 <= k < MoveRowKnown(oldR, newR, nKnownRows) ==> gsoValidCols[k] >= 0
      requires enableIntGram ==>
        ExactGram(g, b, MoveRowKnown(oldR, newR, nKnownRows), nKnownCols,
                  MoveRowExtents(initRowSize, b, oldR, newR, nKnownRows))
      requires enableTransform && enableInvTransform ==> IsInversePair(u, uInvT, transformCols)
      modifies this`initRowSize, this`nKnownRows, this`nSourceRows
      ensures Consistent()
      ensures initRowSize == MoveRowExtents(old(initRowSize), b, oldR, newR, old(nKnownRows))
      ensures nKnownRows == MoveRowKnown(oldR, newR, old(nKnownRows)) && nSourceRows == nKnownRows
    {
      MoveRowExtentsBounded(initRowSize, b, oldR, newR, nKnownRows, n);
      if oldR < newR && newR >= nKnownRows {
        initRowSize := Permute(initRowSize, Rotate(Left, oldR, newR));
        if oldR < nKnownRows {
          nKnownRows := nKnownRows - 1;
          nSourceRows := nKnownRows;
          initRowSize := initRowSize[newR := Max(SizeNZ(b[newR]), 1)];
        }
      }
    }

    /** moveRow (fplll/gso.cpp:348-411): row oldR moves to position newR and
        the rows between shift by one.  The cursors of the rows from
        min(oldR, newR) on are capped first; b, u, uInvT, the cursors,
        rowExpo and g (or the stale marks of gf) are rotated alike; a known
        row moved past the known rows stops being known.  Moving a row onto
        itself changes nothing. */
    method MoveRow(oldR: nat, newR: nat)
      requires Consistent()
      requires !colsLocked
      requires oldR < |b| && newR < |b|
      requires newR < oldR ==> oldR < nKnownRows
      modifies this`gsoValidCols, this`b, this`u, this`uInvT, this`g, this`gfStale, this`rowExpo
      modifies this`initRowSize, this`nKnownRows, this`nSourceRows
      ensures Consistent()
      ensures nKnownRows == MoveRowKnown(oldR, newR, old(nKnownRows)) && nSourceRows == nKnownRows
      ensures gsoValidCols == MoveRowCursors(old(gsoValidCols), oldR, newR, old(nKnownRows))
      ensures b == Permute(old(b), MoveIndex(oldR, newR))
      ensures enableTransform ==> u == Permute(old(u), MoveIndex(oldR, newR))
      ensures !enableTransform ==> u == old(u)
      ensures enableTransform && enableInvTransform ==> uInvT == Permute(old(uInvT), MoveIndex(oldR, newR))
      ensures !(enableTransform && enableInvTransform) ==> uInvT == old(uInvT)
      ensures enableIntGram ==> g == MoveGram(old(g), oldR, newR, old(nKnownRows)) && gfStale == old(gfStale)
      ensures !enableIntGram ==> gfStale == MoveGram(old(gfStale), oldR, newR, old(nKnownRows)) && g == old(g)
      ensures enableRowExpo ==> rowExpo == Permute(old(rowExpo), MoveIndex(oldR, newR))
      ensures !enableRowExpo ==> rowExpo == old(rowExpo)
      ensures initRowSize == MoveRowExtents(old(initRowSize), b, oldR, newR, old(nKnownRows))
    {
      if oldR == newR {
        var p := MoveIndex(oldR, newR);
        PermuteTrivial(b, p);
        if enableTransform {
          PermuteTrivial(u, p);
          if enableInvTransform {
            PermuteTrivial(uInvT, p);
          }
        }
        if enableRowExpo {
          PermuteTrivial(rowExpo, p);
        }
      } else {
        MoveRowApart(oldR, newR);
      }
    }

    /** moveRow for two different positions. */
    method MoveRowApart(oldR: nat, newR: nat)
      requires Consistent()
      requires !colsLocked
      requires oldR < |b| && newR < |b| && oldR != newR
      requires newR < oldR ==> oldR < nKnownRows
      modifies this`gsoValidCols, this`b, this`u, this`uInvT, this`g, this`gfStale, this`rowExpo
      modifies this`initRowSize, this`nKnownRows, this`nSourceRows
      ensures Consistent()
      ensures nKnownRows == MoveRowKnown(oldR, newR, old(nKnownRows)) && nSourceRows == nKnownRows
      ensures gsoValidCols == MoveRowCursors(old(gsoValidCols), oldR, newR, old(nKnownRows))
      ensures b == Permute(old(b), MoveIndex(oldR, newR))
      ensures enableTransform ==> u == Permute(old(u), MoveIndex(oldR, newR))
      ensures !enableTransform ==> u == old(u)
      ensures enableTransform && enableInvTransform ==> uInvT == Permute(old(uInvT), MoveIndex(oldR, newR))
      ensures !(enableTransform && enableInvTransform) ==> uInvT == old(uInvT)
      ensures enableIntGram ==> g == MoveGram(old(g), oldR, newR, old(nKnownRows)) && gfStale == old(gfStale)
      ensures !enableIntGram ==> gfStale == MoveGram(old(gfStale), oldR, newR, old(nKnownRows)) && g == old(g)
      ensures enableRowExpo ==> rowExpo == Permute(old(rowExpo), MoveIndex(oldR, newR))
      ensures !enableRowExpo ==> rowExpo == old(rowExpo)
      ensures initRowSize == MoveRowExtents(old(initRowSize), b, oldR, newR, old(nKnownRows))
    {
      CapAndRotate(oldR, newR);
      ShrinkKnownRows(oldR, newR);
    }

    /** The first part of moveRow (fplll/gso.cpp:350-398): the cursors from
        min(oldR, newR) on are capped, then everything is rotated.  The rows
        known afterwards keep non-negative cursors, and the Gram matrix is
        exact for them with the extents moveRow ends with. */
    method CapAndRotate(oldR: nat, newR: nat)
      requires Consistent()
      requires !colsLocked
      requires oldR < |b| && newR < |b| && oldR != newR
      requires newR < oldR ==> oldR < nKnownRows
      modifies this`gsoValidCols, this`b, this`u, this`uInvT, this`g, this`gfStale, this`rowExpo
      ensures MatrixShapes() && VectorShapes()
      ensures gsoValidCols == MoveRowCursors(old(gsoValidCols), oldR, newR, nKnownRows)
      ensures b == Permute(old(b), MoveIndex(oldR, newR))
      ensures enableTransform ==> u == Permute(old(u), MoveIndex(oldR, newR))
      ensures !enableTransform ==> u == old(u)
      ensures enableTransform && enableInvTransform ==> uInvT == Permute(old(uInvT), MoveIndex(oldR, newR))
      ensures !(enableTransform && enableInvTransform) ==> uInvT == old(uInvT)
      ensures enableIntGram ==> g == MoveGram(old(g), oldR, newR, nKnownRows) && gfStale == old(gfStale)
      ensures !enableIntGram ==> gfStale == MoveGram(old(gfStale), oldR, newR, nKnownRows) && g == old(g)
      ensures enableRowExpo ==> rowExpo == Permute(old(rowExpo), MoveIndex(oldR, newR))
      ensures !enableRowExpo ==> rowExpo == old(rowExpo)
      ensures forall k :: 0 <= k < MoveRowKnown(oldR, newR, nKnownRows) ==> gsoValidCols[k] >= 0
      ensures enableIntGram ==>
        ExactGram(g, b, MoveRowKnown(oldR, newR, nKnownRows), nKnownCols,
                  MoveRowExtents(initRowSize, b, oldR, newR, nKnownRows))
      ensures enableTransform && enableInvTransform ==> IsInversePair(u, uInvT, transformCols)
    {
      ghost var v0, b0, g0 := gsoValidCols, b, g;
      InvalidateRowsFrom(Min(oldR, newR), Min(oldR, newR));
      RotateRows(oldR, newR);
      MoveRowKeepsNonNegative(v0, oldR, newR, nKnownRows);
      if enableIntGram {
        MoveRowKeepsExact(g0, b0, initRowSize, oldR, newR, nKnownRows, nKnownCols);
      }
    }

    // -------------------------------------------------------------------
    // Columns lock and growth
    // -------------------------------------------------------------------

    /** lockCols (fplll/gso.cpp:414-416): from now on discoverRow neither
        widens the known columns nor advances nSourceRows. */
    method LockCols()
      requires Consistent()
      modifies this`colsLocked
      ensures Consistent() && colsLocked
    {
      colsLocked := true;
    }

    /** unlockCols (fplll/gso.cpp:419-422): the rows discovered while the
        columns were locked stop being known. */
    method UnlockCols()
      requires Consistent()
      modifies this`nKnownRows, this`colsLocked
      ensures Consistent() && !colsLocked
      ensures nKnownRows == old(nSourceRows) && nSourceRows == nKnownRows
    {
      nKnownRows := nSourceRows;
      colsLocked := false;
    }

    /** The state sizeIncreased starts from: the caller has appended rows to
        b (and to u and uInvT), so b may have more rows than allocDim; all
        else is as Valid() demands. */
    ghost predicate Appended()
      reads this
    {
      && 1 <= n && Rows(b, n)
      && (enableTransform ==> |u| == |b| && Rows(u, transformCols))
      && (enableTransform && enableInvTransform ==> |uInvT| == |b| && Rows(uInvT, transformCols))
      && (enableIntGram ==> |g| == allocDim && Square(g))
      && (!enableIntGram ==> |gfStale| == allocDim && Square(gfStale))
      && VectorShapes() && Counters()
    }

    /** g (or gf), gsoValidCols and rowExpo after the reallocation of
        sizeIncreased, given their values g0, s0, v0 and x0 before it: grown
        to |b| entries, the new ones 0 (new gf entries count as stale). */
    ghost predicate Reallocated(g0: seq<seq<int>>, s0: seq<seq<bool>>, v0: seq<int>, x0: seq<int>)
      reads this
    {
      && (enableIntGram ==> Square(g0) && |g0| <= |b| && g == ResizeSquare(g0, |b|, 0) && gfStale == s0)
      && (!enableIntGram ==> Square(s0) && |s0| <= |b| && gfStale == ResizeSquare(s0, |b|, true) && g == g0)
      && |v0| <= |b| && gsoValidCols == Resize(v0, |b|, 0)
      && (enableRowExpo ==> |x0| <= |b| && rowExpo == Resize(x0, |b|, 0))
      && (!enableRowExpo ==> rowExpo == x0)
    }

    /** The reallocation of sizeIncreased (fplll/gso.cpp:447-462): once the
        basis has d = |b| > allocDim rows, g (or gf) and the per-row vectors
        grow to d entries and allocDim becomes d. */
    method Reallocate()
      requires Appended() && |b| > allocDim
      modifies this`g, this`gfStale, this`gsoValidCols, this`initRowSize, this`rowExpo, this`allocDim
      ensures allocDim == |b| && |initRowSize| == |b|
      ensures Reallocated(old(g), old(gfStale), old(gsoValidCols), old(rowExpo))
      ensures initRowSize == Resize(old(initRowSize), |b|, 0)
    {
      var d := |b|;
      if enableIntGram {
        g := ResizeSquare(g, d, 0);
      } else {
        gfStale := ResizeSquare(gfStale, d, true);
      }
      gsoValidCols := Resize(gsoValidCols, d, 0);
      initRowSize := Resize(initRowSize, d, 0);
      if enableRowExpo {
        rowExpo := Resize(rowExpo, d, 0);
      }
      allocDim := d;
    }

    /** The loop of sizeIncreased (fplll/gso.cpp:464-469): every row from
        `from` on gets as extent the length of its non-zero prefix, at least 1. */
    method SetNewExtents(from: nat)
      requires |b| <= |initRowSize|
      modifies this`initRowSize
      ensures initRowSize == NewExtents(old(initRowSize), b, from)
    {
      ghost var e0 := initRowSize;
      var i := from;
      while i < |b|
        invariant from <= i <= Max(from, |b|)
        invariant |initRowSize| == |e0|
        invariant forall k :: 0 <= k < |e0| ==>
          initRowSize[k] == if from <= k < i then Max(SizeNZ(b[k]), 1) else e0[k]
      {
        initRowSize := initRowSize[i := Max(SizeNZ(b[i]), 1)];
        i := i + 1;
      }
      assert forall k :: 0 <= k < |e0| ==> initRowSize[k] == NewExtents(e0, b, from)[k];
    }

    /** sizeIncreased (fplll/gso.cpp:443-470), once the caller has appended
        rows to b: storage grows to the new row count when it exceeds
        allocDim, and the rows from the old allocDim on get their extent.
        If g was the Gram matrix of the known rows, every unknown row below
        the old allocDim was zero beyond its extent and u, uInvT are inverse,
        the state is exact. */
    method SizeIncreased()
      requires Appended()
      modifies this`g, this`gfStale, this`gsoValidCols, this`initRowSize, this`rowExpo, this`allocDim
      ensures Valid()
      ensures allocDim == Max(old(allocDim), |b|)
      ensures old(allocDim) < |b| ==> Reallocated(old(g), old(gfStale), old(gsoValidCols), old(rowExpo))
      ensures |b| <= old(allocDim) ==>
        g == old(g) && gfStale == old(gfStale) && gsoValidCols == old(gsoValidCols) && rowExpo == old(rowExpo)
      ensures initRowSize == NewExtents(Resize(old(initRowSize), allocDim, 0), b, old(allocDim))
      ensures (enableIntGram ==> ExactGram(old(g), b, nKnownRows, nKnownCols, old(initRowSize)))
        && (enableTransform && enableInvTransform ==> IsInversePair(u, uInvT, transformCols))
        ==> Consistent()
    {
      ghost var g0, e0 := g, initRowSize;
      var oldD := allocDim;
      if |b| > allocDim {
        Reallocate();
      } else {
        ResizeSame(initRowSize, 0);
      }
      ghost var e1 := initRowSize;
      SetNewExtents(oldD);
      NewExtentsBounded(e1, b, oldD, n);
      if enableIntGram && ExactGram(g0, b, nKnownRows, nKnownCols, e0) {
        GrowKeepsExact(g0, b, nKnownRows, nKnownCols, e0, g, allocDim);
      }
    }
  }
}
