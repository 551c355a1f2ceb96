/** The one exact piece of MatGSO's metrics: the number of blocks
    get_slide_potential sums over (fplll/gso.cpp:532-536), computed with C++
    `int` division, which truncates toward zero. */
module Metrics {

  /** C++ integer division: the quotient truncated toward zero. */
  function TruncDiv(a: int, b: int): (q: int)
    requires b != 0
    ensures a >= 0 && b > 0 ==> q * b <= a < q * b + b
    ensures a <= 0 && b > 0 ==> q * b - b < a <= q * b
  {
    if a >= 0 then (if b > 0 then a / b else -(a / -b))
    else (if b > 0 then -((-a) / b) else (-a) / (-b))
  }

  /** C++ `%`: the remainder that goes with TruncDiv; it has the sign of a. */
  function TruncMod(a: int, b: int): (r: int)
    requires b != 0
    ensures a == TruncDiv(a, b) * b + r
    ensures -(if b < 0 then -b else b) < r < (if b < 0 then -b else b)
    ensures a >= 0 ==> r >= 0
    ensures a <= 0 ==> r <= 0
  {
    a - TruncDiv(a, b) * b
  }

  /** p of get_slide_potential: (end - start) / bs, less one when bs divides
      end - start.  For a positive block size and a non-empty range it is one
      less than the number of blocks of size bs it takes to cover end - start
      rows: every summed block [i bs, (i + 1) bs), i < p, ends strictly before
      end - start, and only the last, possibly partial block is left out. */
  function SlideBlockCount(start: int, end: int, bs: int): (p: int)
    requires bs != 0
    ensures bs > 0 && start < end ==> p >= 0 && p * bs < end - start <= (p + 1) * bs
  {
    var len := end - start;
    var q := TruncDiv(len, bs);
    if TruncMod(len, bs) == 0 then
      assert bs > 0 && start < end ==> q > 0 by {
        if bs > 0 && start < end && q <= 0 {
          MulLe(q, 0, bs);
        }
      }
      q - 1
    else q
  }

  /** With Dafny's own division the count is ceil((end - start) / bs) - 1. */
  lemma SlideBlockCountIsCeiling(start: int, end: int, bs: int)
    requires bs > 0 && start <= end
    ensures SlideBlockCount(start, end, bs) == (end - start + bs - 1) / bs - 1
  {
    var len := end - start;
    if len == 0 {
      DivUnique(bs - 1, bs, 0);
    } else {
      var p := SlideBlockCount(start, end, bs);
      assert (p + 1) * bs == p * bs + bs;
      DivUnique(len + bs - 1, bs, p + 1);
    }
  }

  /** An empty or reversed range sums no block (the loop `i < p` does not run),
      and an empty one has count -1. */
  lemma SlideBlockCountEmpty(start: int, end: int, bs: int)
    requires bs > 0 && end <= start
    ensures SlideBlockCount(start, end, bs) <= 0
    ensures end == start ==> SlideBlockCount(start, end, bs) == -1
  {
    var len := end - start;
    var q := TruncDiv(len, bs);
    if q > 0 {
      MulLe(1, q, bs);
    }
  }

  lemma MulLe(a: int, b: int, c: int)
    requires a <= b && c > 0
    ensures a * c <= b * c
  {
  }

  lemma DivUnique(n: int, d: int, q: int)
    requires d > 0 && q * d <= n < q * d + d
    ensures n / d == q
  {
    var r := n / d;
    assert r * d <= n < r * d + d;
    if r < q {
      MulLe(r + 1, q, d);
    } else if r > q {
      MulLe(q + 1, r, d);
    }
  }
}
