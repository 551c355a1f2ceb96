/** Row re-indexings used by MatGSO: the transposition of two rows (rowSwap)
    and the rotation of a contiguous range of rows (moveRow, std::rotate,
    Matrix::rotateLeft / rotateRight).  A re-indexing is described by the
    position each new slot takes its content from. */
module Reindex {

  datatype Dir = Left | Right

  datatype Reindex =
    | Transpose(i: nat, j: nat)
      /** Right: the row at `last` moves to `first`, rows first..last-1 move up by one.
          Left: the row at `first` moves to `last`, rows first+1..last move down by one. */
    | Rotate(dir: Dir, first: nat, last: nat)

  /** The re-indexing only talks about positions below `size`. */
  predicate Fits(p: Reindex, size: nat)
  {
    match p
    case Transpose(i, j) => i < size && j < size
    case Rotate(_, first, last) => first <= last < size
  }

  /** The old position whose content lands at position k. */
  function Source(p: Reindex, k: nat): (src: nat)
  {
    match p
    case Transpose(i, j) => if k == i then j else if k == j then i else k
    case Rotate(Right, first, last) =>
      if k == first then last else if first < k <= last then k - 1 else k
    case Rotate(Left, first, last) =>
      if k == last then first else if first <= k < last then k + 1 else k
  }

  /** The re-indexing that undoes p. */
  function Inverse(p: Reindex): (q: Reindex)
  {
    match p
    case Transpose(i, j) => Transpose(i, j)
    case Rotate(Left, first, last) => Rotate(Right, first, last)
    case Rotate(Right, first, last) => Rotate(Left, first, last)
  }

  /** The sequence re-indexed by p: slot k receives s[Source(p, k)]. */
  function Permute<T>(s: seq<T>, p: Reindex): (r: seq<T>)
    requires Fits(p, |s|)
    ensures |r| == |s|
  {
    seq(|s|, k requires 0 <= k < |s| => s[Source(p, k)])
  }

  /** The row re-indexing of moveRow(oldR, newR): a right rotation of
      [newR, oldR] when the row moves up, a left rotation of [oldR, newR]
      when it moves down (the trivial rotation when oldR == newR). */
  function MoveIndex(oldR: nat, newR: nat): (p: Reindex)
  {
    if newR < oldR then Rotate(Right, newR, oldR) else Rotate(Left, oldR, newR)
  }

  /** A re-indexing maps the positions below `size` onto positions below `size`. */
  lemma SourceInRange(p: Reindex, size: nat, k: nat)
    requires Fits(p, size) && k < size
    ensures Source(p, k) < size
  {
  }

  /** Two slots never take their content from the same old position. */
  lemma SourceInjective(p: Reindex, size: nat, a: nat, e: nat)
    requires Fits(p, size)
    requires Source(p, a) == Source(p, e)
    ensures a == e
  {
  }

  /** Inverse(p) undoes p position by position. */
  lemma SourceInverse(p: Reindex, size: nat, k: nat)
    requires Fits(p, size) && k < size
    ensures Fits(Inverse(p), size)
    ensures Source(p, Source(Inverse(p), k)) == k
  {
  }

  /** Round trip: re-indexing by p and then by Inverse(p) gives back the sequence. */
  lemma PermuteInverse<T>(s: seq<T>, p: Reindex)
    requires Fits(p, |s|)
    ensures Fits(Inverse(p), |s|)
    ensures Permute(Permute(s, p), Inverse(p)) == s
  {
    var t := Permute(Permute(s, p), Inverse(p));
    forall k | 0 <= k < |s|
      ensures t[k] == s[k]
    {
      SourceInverse(Inverse(p), |s|, k);
      assert Inverse(Inverse(p)) == p;
    }
  }

  /** A rotation of a one-element range, and a transposition of a row with
      itself, leave the sequence as it is. */
  lemma PermuteTrivial<T>(s: seq<T>, p: Reindex)
    requires Fits(p, |s|)
    requires p.Rotate? ==> p.first == p.last
    requires p.Transpose? ==> p.i == p.j
    ensures Permute(s, p) == s
  {
  }

  /** Rotating right over [first, last] is std::rotate(first, last, last + 1):
      the element at `last` comes first, the rest of the range follows in order. */
  lemma RotateRightIsStdRotate<T>(s: seq<T>, first: nat, last: nat)
    requires first <= last < |s|
    ensures Permute(s, Rotate(Right, first, last)) == s[..first] + [s[last]] + s[first..last] + s[last + 1..]
  {
    var r := Permute(s, Rotate(Right, first, last));
    var t := s[..first] + [s[last]] + s[first..last] + s[last + 1..];
    assert |t| == |s|;
    forall k | 0 <= k < |s|
      ensures r[k] == t[k]
    {
      if k < first {
        assert t[k] == s[k];
      } else if k == first {
        assert t[k] == s[last];
      } else if k <= last {
        assert t[k] == s[first..last][k - first - 1];
      } else {
        assert t[k] == s[last + 1..][k - last - 1];
      }
    }
  }

  /** Rotating left over [first, last] is std::rotate(first, first + 1, last + 1):
      the rest of the range moves down and the element at `first` comes last. */
  lemma RotateLeftIsStdRotate<T>(s: seq<T>, first: nat, last: nat)
    requires first <= last < |s|
    ensures Permute(s, Rotate(Left, first, last)) == s[..first] + s[first + 1..last + 1] + [s[first]] + s[last + 1..]
  {
    var r := Permute(s, Rotate(Left, first, last));
    var t := s[..first] + s[first + 1..last + 1] + [s[first]] + s[last + 1..];
    assert |t| == |s|;
    forall k | 0 <= k < |s|
      ensures r[k] == t[k]
    {
      if k < first {
        assert t[k] == s[k];
      } else if k < last {
        assert t[k] == s[first + 1..last + 1][k - first];
      } else if k == last {
        assert t[k] == s[first];
      } else {
        assert t[k] == s[last + 1..][k - last - 1];
      }
    }
  }

  /** A left rotation over [first, last] and one over the shorter range
      [first, last'] agree on every slot below last'. */
  lemma LeftRotationsAgree(first: nat, last': nat, last: nat, k: nat)
    requires first <= last' <= last && k < last'
    ensures Source(Rotate(Left, first, last), k) == Source(Rotate(Left, first, last'), k)
  {
  }
}
