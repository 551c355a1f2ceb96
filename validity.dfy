/** The validity cursors of MatGSO: gsoValidCols[i] is the number of leading
    columns of row i of mu and r that are up to date.  Every operation that
    changes the basis lowers cursors; moveRow also re-indexes them.  The
    functions below give the cursor vector each operation produces, as a fold
    of invalidateGSORow calls in the order the source makes them. */
module Validity {
  import opened Reindex

  function Min(a: int, b: int): (r: int) { if a <= b then a else b }

  function Max(a: int, b: int): (r: int) { if a <= b then b else a }

  /** invalidateGSORow(k, bound): the cursor of row k drops to `bound`
      unless it is already lower; nothing else changes. */
  function Lower(v: seq<int>, k: nat, bound: int): (r: seq<int>)
    requires k < |v|
    ensures |r| == |v|
    ensures r[k] <= v[k] && r[k] <= bound && (r[k] == v[k] || r[k] == bound)
    ensures forall t :: 0 <= t < |v| && t != k ==> r[t] == v[t]
  {
    v[k := Min(v[k], bound)]
  }

  /** invalidateGSORow(k, bound) for k = lo, ..., hi - 1, in that order. */
  function LowerFrom(v: seq<int>, lo: nat, hi: nat, bound: int): (r: seq<int>)
    requires hi <= |v|
    ensures |r| == |v|
    decreases hi
  {
    if hi <= lo then v else Lower(LowerFrom(v, lo, hi - 1, bound), hi - 1, bound)
  }

  /** Entry by entry, the fold lowers exactly the rows lo..hi-1. */
  lemma {:induction false} LowerFromAt(v: seq<int>, lo: nat, hi: nat, bound: int, k: nat)
    requires hi <= |v| && k < |v|
    ensures LowerFrom(v, lo, hi, bound)[k] == if lo <= k < hi then Min(v[k], bound) else v[k]
    decreases hi
  {
    if lo < hi {
      LowerFromAt(v, lo, hi - 1, bound, k);
    }
  }

  /** The fold raises no cursor, caps the rows lo..hi-1 at `bound` and
      leaves the other rows alone. */
  lemma LowerFromBounds(v: seq<int>, lo: nat, hi: nat, bound: int)
    requires hi <= |v|
    ensures forall k :: 0 <= k < |v| ==> LowerFrom(v, lo, hi, bound)[k] <= v[k]
    ensures forall k :: lo <= k < hi ==> LowerFrom(v, lo, hi, bound)[k] <= bound
    ensures forall k :: 0 <= k < |v| && !(lo <= k < hi) ==> LowerFrom(v, lo, hi, bound)[k] == v[k]
  {
    forall k | 0 <= k < |v|
      ensures LowerFrom(v, lo, hi, bound)[k] == if lo <= k < hi then Min(v[k], bound) else v[k]
    {
      LowerFromAt(v, lo, hi, bound, k);
    }
  }

  /** The cursors after rowOpEnd(first, last) with m known rows
      (fplll/gso.cpp:64-75): no cursor goes up, the known rows from `first`
      on are capped at `first`, and the rows before `first` and the unknown
      rows keep theirs. */
  function RowOpEndCursors(v: seq<int>, first: nat, last: nat, m: nat): (r: seq<int>)
    requires first <= last <= m <= |v|
    ensures |r| == |v|
    ensures forall k :: 0 <= k < |v| ==> r[k] <= v[k]
    ensures forall k :: first <= k < m ==> r[k] <= first
    ensures forall k :: 0 <= k < |v| && (k < first || m <= k) ==> r[k] == v[k]
  {
    var w := LowerFrom(v, first, last, 0);
    LowerFromBounds(v, first, last, 0);
    LowerFromBounds(w, last, m, first);
    LowerFrom(w, last, m, first)
  }

  /** rowOpEnd zeroes the cursors of the rows it touched, caps the later known
      rows at `first`, raises no cursor and leaves every other row alone. */
  lemma RowOpEndEffect(v: seq<int>, first: nat, last: nat, m: nat)
    requires first <= last <= m <= |v|
    requires forall k :: 0 <= k < m ==> v[k] >= 0
    ensures var r := RowOpEndCursors(v, first, last, m);
      && (forall k :: first <= k < last ==> r[k] == 0)
      && (forall k :: last <= k < m ==> r[k] == Min(v[k], first) && r[k] <= first)
      && (forall k :: 0 <= k < |v| && (k < first || m <= k) ==> r[k] == v[k])
      && (forall k :: 0 <= k < |v| ==> 0 <= r[k] <= v[k] || (m <= k && r[k] == v[k]))
  {
    var w := LowerFrom(v, first, last, 0);
    var r := RowOpEndCursors(v, first, last, m);
    forall k | 0 <= k < |v|
      ensures first <= k < last ==> r[k] == 0
      ensures last <= k < m ==> r[k] == Min(v[k], first)
      ensures k < first || m <= k ==> r[k] == v[k]
    {
      LowerFromAt(v, first, last, 0, k);
      LowerFromAt(w, last, m, first, k);
    }
  }

  /** The cursors after moveRow(oldR, newR) with m known rows: the rows from
      min(oldR, newR) on are capped at min(oldR, newR), then the vector is
      rotated (fplll/gso.cpp:350-356, 375-380). */
  function MoveRowCursors(v: seq<int>, oldR: nat, newR: nat, m: nat): (r: seq<int>)
    requires oldR < |v| && newR < |v| && m <= |v|
    ensures |r| == |v|
    ensures oldR == newR ==> r == v
    ensures forall k :: 0 <= k < |v| && (k < Min(oldR, newR) || Max(oldR, newR) < k) ==> r[k] <= v[k]
    ensures forall k :: 0 <= k < |v| && (k < Min(oldR, newR) || (Max(oldR, newR) < k && m <= k)) ==> r[k] == v[k]
  {
    if oldR == newR then v
    else
      var lo := Min(oldR, newR);
      LowerFromBounds(v, lo, m, lo);
      Permute(LowerFrom(v, lo, m, lo), MoveIndex(oldR, newR))
  }

  /** The number of known rows after moveRow: it drops by one exactly when a
      known row moves to an unknown position (fplll/gso.cpp:401-406). */
  function MoveRowKnown(oldR: nat, newR: nat, m: nat): (r: nat)
    ensures r == m || (oldR < m <= newR && r == m - 1)
    ensures (oldR < m <= newR) <==> r == m - 1
  {
    if oldR < newR && m <= newR && oldR < m then m - 1 else m
  }

  /** After moveRow every row that is known afterwards and sits at or after
      min(oldR, newR) has cursor at most min(oldR, newR); the moved row's
      cursor lands at newR; rows before min(oldR, newR) and after
      max(oldR, newR) keep their place. */
  lemma MoveRowCursorsEffect(v: seq<int>, oldR: nat, newR: nat, m: nat)
    requires oldR < |v| && newR < |v| && m <= |v|
    requires newR < oldR ==> oldR < m
    ensures var r := MoveRowCursors(v, oldR, newR, m);
      var lo := Min(oldR, newR);
      && (oldR != newR ==> forall k :: lo <= k < MoveRowKnown(oldR, newR, m) ==> r[k] <= lo)
      && r[newR] == (if oldR != newR && oldR < m then Min(v[oldR], lo) else v[oldR])
      && (forall k :: 0 <= k < lo ==> r[k] == v[k])
      && (forall k :: Max(oldR, newR) < k < |v| ==>
            r[k] == if oldR != newR && k < m then Min(v[k], lo) else v[k])
  {
    var r := MoveRowCursors(v, oldR, newR, m);
    var lo := Min(oldR, newR);
    var p := MoveIndex(oldR, newR);
    if oldR != newR {
      var w := LowerFrom(v, lo, m, lo);
      forall k | 0 <= k < |v|
        ensures r[k] == w[Source(p, k)]
        ensures w[Source(p, k)] == if lo <= Source(p, k) < m then Min(v[Source(p, k)], lo) else v[Source(p, k)]
      {
        SourceInRange(p, |v|, k);
        LowerFromAt(v, lo, m, lo, Source(p, k));
      }
    }
  }

  /** Every known row's cursor is at most its index plus one (the bound
      invalidateGSORow demands of its argument). */
  predicate CursorsBounded(v: seq<int>, m: nat)
  {
    forall k :: 0 <= k < m && k < |v| ==> v[k] <= k + 1
  }

  /** rowOpEnd keeps the bound. */
  lemma RowOpEndKeepsBounded(v: seq<int>, first: nat, last: nat, m: nat)
    requires first <= last <= m <= |v|
    requires forall k :: 0 <= k < m ==> v[k] >= 0
    requires CursorsBounded(v, m)
    ensures CursorsBounded(RowOpEndCursors(v, first, last, m), m)
  {
    RowOpEndEffect(v, first, last, m);
  }

  /** moveRow keeps the bound, counted against the new number of known rows. */
  lemma MoveRowKeepsBounded(v: seq<int>, oldR: nat, newR: nat, m: nat)
    requires oldR < |v| && newR < |v| && m <= |v|
    requires newR < oldR ==> oldR < m
    requires CursorsBounded(v, m)
    ensures CursorsBounded(MoveRowCursors(v, oldR, newR, m), MoveRowKnown(oldR, newR, m))
  {
    var r := MoveRowCursors(v, oldR, newR, m);
    var m' := MoveRowKnown(oldR, newR, m);
    if oldR != newR {
      var lo := Min(oldR, newR);
      var p := MoveIndex(oldR, newR);
      var w := LowerFrom(v, lo, m, lo);
      forall k | 0 <= k < m'
        ensures r[k] <= k + 1
      {
        SourceInRange(p, |v|, k);
        LowerFromAt(v, lo, m, lo, Source(p, k));
        LowerFromAt(v, lo, m, lo, k);
      }
    }
  }

  /** moveRow keeps the cursors of the rows known afterwards non-negative:
      each of them comes from a row known before. */
  lemma MoveRowKeepsNonNegative(v: seq<int>, oldR: nat, newR: nat, m: nat)
    requires oldR < |v| && newR < |v| && m <= |v|
    requires newR < oldR ==> oldR < m
    requires forall k :: 0 <= k < m ==> v[k] >= 0
    ensures forall k :: 0 <= k < MoveRowKnown(oldR, newR, m) ==> MoveRowCursors(v, oldR, newR, m)[k] >= 0
  {
    if oldR != newR {
      var lo := Min(oldR, newR);
      var p := MoveIndex(oldR, newR);
      forall k | 0 <= k < MoveRowKnown(oldR, newR, m)
        ensures MoveRowCursors(v, oldR, newR, m)[k] >= 0
      {
        SourceInRange(p, |v|, k);
        LowerFromAt(v, lo, m, lo, Source(p, k));
      }
    }
  }
}
