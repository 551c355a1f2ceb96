/** The transform u and its inverse-transpose uInvT that MatGSO keeps beside
    the basis.  Every row operation b_i <- b_i + c b_j is applied to u as
    u_i <- u_i + c u_j and to uInvT as uInvT_j <- uInvT_j - c uInvT_i; these
    lemmas prove that this keeps b = u B0 and u uInvT^T = I. */
module Transform {
  import opened Vectors
  import opened Reindex

  /** C++ `long` on the 64-bit platforms fplll targets. */
  newtype Long = x: int | -0x8000_0000_0000_0000 <= x < 0x8000_0000_0000_0000

  const MinLong: Long := -0x8000_0000_0000_0000

  /** Rows of `us` and `ws` have at least `cols` entries. */
  predicate Wide(us: seq<seq<int>>, cols: nat)
  {
    forall k :: 0 <= k < |us| ==> cols <= |us[k]|
  }

  /** u uInvT^T = I over the first `cols` columns: row a of u and row e of
      uInvT have dot product 1 when a == e and 0 otherwise. */
  predicate IsInversePair(us: seq<seq<int>>, ws: seq<seq<int>>, cols: nat)
  {
    && |us| == |ws| && Wide(us, cols) && Wide(ws, cols)
    && (forall a, e :: 0 <= a < |us| && 0 <= e < |ws| ==>
          Dot(us[a], ws[e], cols) == if a == e then 1 else 0)
  }

  /** b = u B0 on the columns below `cols`: entry (k, col) of b is row k of u
      times column col of the original basis B0. */
  predicate IsProduct(bs: seq<seq<int>>, us: seq<seq<int>>, b0: seq<seq<int>>, cols: nat)
  {
    && |bs| == |us| && Wide(bs, cols) && Wide(b0, cols)
    && (forall k :: 0 <= k < |us| ==> |us[k]| == |b0|)
    && (forall k, col :: 0 <= k < |bs| && 0 <= col < cols ==>
          bs[k][col] == Dot(us[k], Column(b0, col), |b0|))
  }

  /** The pair of transform updates of one row operation with coefficient c. */
  function AddMulPair(us: seq<seq<int>>, ws: seq<seq<int>>, i: nat, j: nat, c: int, cols: nat): (r: (seq<seq<int>>, seq<seq<int>>))
    requires i < |us| && j < |us| && |us| == |ws| && Wide(us, cols) && Wide(ws, cols)
    ensures |r.0| == |us| && |r.1| == |ws| && Wide(r.0, cols) && Wide(r.1, cols)
    ensures forall k :: 0 <= k < |us| && k != i ==> r.0[k] == us[k]
    ensures forall k :: 0 <= k < |ws| && k != j ==> r.1[k] == ws[k]
  {
    (us[i := AddMulPrefix(us[i], us[j], c, cols)], ws[j := AddMulPrefix(ws[j], ws[i], -c, cols)])
  }

  lemma AddMulPairEntry(us: seq<seq<int>>, ws: seq<seq<int>>, i: nat, j: nat, c: int, cols: nat, a: nat, e: nat)
    requires IsInversePair(us, ws, cols) && i < |us| && j < |us| && i != j
    requires a < |us| && e < |us|
    ensures var r := AddMulPair(us, ws, i, j, c, cols);
      Dot(r.0[a], r.1[e], cols) == if a == e then 1 else 0
  {
    var r := AddMulPair(us, ws, i, j, c, cols);
    if a == i && e == j {
      DotAddMulLeft(us[i], us[j], r.1[j], c, cols, cols);
      DotAddMulRight(us[i], ws[j], ws[i], -c, cols);
      DotAddMulRight(us[j], ws[j], ws[i], -c, cols);
      assert Dot(us[i], ws[j], cols) == 0 && Dot(us[i], ws[i], cols) == 1;
      assert Dot(us[j], ws[j], cols) == 1 && Dot(us[j], ws[i], cols) == 0;
    } else if a == i {
      DotAddMulLeft(us[i], us[j], ws[e], c, cols, cols);
      assert Dot(us[j], ws[e], cols) == 0;
    } else if e == j {
      DotAddMulRight(us[a], ws[j], ws[i], -c, cols);
      assert Dot(us[a], ws[i], cols) == 0;
    }
  }

  /** Transform consistency: the +c on u_i and the -c on uInvT_j keep uInvT
      the inverse transpose of u. */
  lemma AddMulKeepsInverse(us: seq<seq<int>>, ws: seq<seq<int>>, i: nat, j: nat, c: int, cols: nat)
    requires IsInversePair(us, ws, cols) && i < |us| && j < |us| && i != j
    ensures var r := AddMulPair(us, ws, i, j, c, cols);
      IsInversePair(r.0, r.1, cols)
  {
    var r := AddMulPair(us, ws, i, j, c, cols);
    forall a, e | 0 <= a < |us| && 0 <= e < |ws|
      ensures Dot(r.0[a], r.1[e], cols) == if a == e then 1 else 0
    {
      AddMulPairEntry(us, ws, i, j, c, cols, a, e);
    }
  }

  /** The same operation on b (over the known columns `cols`) and on u keeps
      b = u B0 over the full width of the rows, provided b_j is zero beyond
      the known columns, which holds for every source row j < nSourceRows.
      Beyond `cols` b_i is not touched, while u_i B0 gains c b_j = 0. */
  lemma AddMulKeepsProduct(bs: seq<seq<int>>, us: seq<seq<int>>, b0: seq<seq<int>>, i: nat, j: nat, c: int,
                           cols: nat, width: nat)
    requires IsProduct(bs, us, b0, width) && i < |bs| && j < |bs| && cols <= width
    requires ZeroFrom(bs[j], cols)
    ensures IsProduct(bs[i := AddMulPrefix(bs[i], bs[j], c, cols)],
                      us[i := AddMulPrefix(us[i], us[j], c, |b0|)], b0, width)
  {
    var bs' := bs[i := AddMulPrefix(bs[i], bs[j], c, cols)];
    var us' := us[i := AddMulPrefix(us[i], us[j], c, |b0|)];
    forall col | 0 <= col < width
      ensures bs'[i][col] == Dot(us'[i], Column(b0, col), |b0|)
    {
      DotAddMulLeft(us[i], us[j], Column(b0, col), c, |b0|, |b0|);
      if cols <= col {
        assert bs[j][col] == 0;
      }
    }
  }

  /** Without the zero tail of b_j the full-width product breaks: with
      B0 = u = b = I of size 2, b_0 += b_1 on the first column only leaves
      b_0 = [1, 0] while u_0 B0 = [1, 1]. */
  lemma AddMulProductNeedsZeroTail()
    ensures var id := [[1, 0], [0, 1]];
      var bs' := id[0 := AddMulPrefix(id[0], id[1], 1, 1)];
      var us' := id[0 := AddMulPrefix(id[0], id[1], 1, 2)];
      && IsProduct(id, id, id, 2)
      && !ZeroFrom(id[1], 1)
      && IsProduct(bs', us', id, 1)
      && !IsProduct(bs', us', id, 2)
  {
    var id := [[1, 0], [0, 1]];
    var bs' := id[0 := AddMulPrefix(id[0], id[1], 1, 1)];
    var us' := id[0 := AddMulPrefix(id[0], id[1], 1, 2)];
    assert Column(id, 0) == [1, 0] && Column(id, 1) == [0, 1];
    assert Dot(id[0], Column(id, 0), 2) == 1 && Dot(id[0], Column(id, 1), 2) == 0;
    assert Dot(id[1], Column(id, 0), 2) == 0 && Dot(id[1], Column(id, 1), 2) == 1;
    assert IsProduct(id, id, id, 2);
    assert bs'[0] == [1, 0] && us'[0] == [1, 1];
    assert Dot(us'[0], Column(id, 0), 1) == 1 && Dot(us'[0], Column(id, 0), 2) == 1;
    assert Dot(us'[0], Column(id, 1), 1) == 0 && Dot(us'[0], Column(id, 1), 2) == 1;
  }

  /** Moving rows of u and uInvT by the same re-indexing keeps them inverse. */
  lemma PermuteKeepsInverse(us: seq<seq<int>>, ws: seq<seq<int>>, p: Reindex, cols: nat)
    requires IsInversePair(us, ws, cols) && Fits(p, |us|)
    ensures IsInversePair(Permute(us, p), Permute(ws, p), cols)
  {
    var us', ws' := Permute(us, p), Permute(ws, p);
    forall a, e | 0 <= a < |us| && 0 <= e < |ws|
      ensures Dot(us'[a], ws'[e], cols) == if a == e then 1 else 0
    {
      SourceInRange(p, |us|, a);
      SourceInRange(p, |us|, e);
      if Source(p, a) == Source(p, e) {
        SourceInjective(p, |us|, a, e);
      }
    }
  }

  /** Moving rows of b and u by the same re-indexing keeps b = u B0. */
  lemma PermuteKeepsProduct(bs: seq<seq<int>>, us: seq<seq<int>>, b0: seq<seq<int>>, p: Reindex, cols: nat)
    requires IsProduct(bs, us, b0, cols) && Fits(p, |bs|)
    ensures IsProduct(Permute(bs, p), Permute(us, p), b0, cols)
  {
    var bs', us' := Permute(bs, p), Permute(us, p);
    forall k | 0 <= k < |bs|
      ensures Source(p, k) < |bs|
    {
      SourceInRange(p, |bs|, k);
    }
  }

  // ---------------------------------------------------------------------
  // -x on a C++ long
  // ---------------------------------------------------------------------

  /** The value `-x` takes for a 64-bit long on a two's-complement machine:
      the negation of LONG_MIN wraps back to LONG_MIN. */
  function NegLong(x: Long): (r: Long)
    ensures (r as int + x as int) % 0x1_0000_0000_0000_0000 == 0
  {
    if x == MinLong then MinLong else -x
  }

  /** The congruence pins the value down: a long that adds up with x to a
      multiple of 2^64 is NegLong(x); it differs from the integer -x only
      at LONG_MIN, which is its own negation. */
  lemma NegLongUnique(x: Long, r: Long)
    requires (r as int + x as int) % 0x1_0000_0000_0000_0000 == 0
    ensures r == NegLong(x)
    ensures (r as int == -(x as int)) <==> x != MinLong
  {
    var s := r as int + x as int;
    assert s == 0 || s == -0x1_0000_0000_0000_0000;
  }

  /** row_addmul_si and row_addmul_si_2exp as written pass `-x` to the update
      of uInvT (fplll/gso.cpp:219, 248).  For x = LONG_MIN, starting from
      u = uInvT = I of size 2, row_addmul_si(0, 1, x) leaves
      <u_0, uInvT_1> = 2x instead of 0. */
  lemma NegLongBreaksInverse()
    ensures var x := MinLong;
      var id := [[1, 0], [0, 1]];
      var us' := id[0 := AddMulPrefix(id[0], id[1], x as int, 2)];
      var ws' := id[1 := AddMulPrefix(id[1], id[0], NegLong(x) as int, 2)];
      && IsInversePair(id, id, 2)
      && Dot(us'[0], ws'[1], 2) == 2 * (x as int)
      && !IsInversePair(us', ws', 2)
  {
    var x := MinLong as int;
    var id := [[1, 0], [0, 1]];
    var us' := id[0 := AddMulPrefix(id[0], id[1], x, 2)];
    var ws' := id[1 := AddMulPrefix(id[1], id[0], NegLong(MinLong) as int, 2)];
    assert us'[0] == [1, x];
    assert ws'[1] == [x, 1];
    assert Dot(us'[0], ws'[1], 1) == x;
    assert Dot(us'[0], ws'[1], 2) == 2 * x;
    assert IsInversePair(id, id, 2) by {
      assert Dot(id[0], id[0], 2) == 1 && Dot(id[0], id[1], 2) == 0;
      assert Dot(id[1], id[0], 2) == 0 && Dot(id[1], id[1], 2) == 1;
    }
  }
}
