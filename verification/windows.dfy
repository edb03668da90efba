/** The window assignment of `rank_variants` in src/rank_variants.cpp.

    A cursor walks the window ends once, front to back: each variant gets the
    first window at or after the cursor whose end is not below its position,
    and the cursor stays there for the next variant. Every Rcpp vector access
    is bounds-checked, so running off any vector ends the call with an error
    instead of a result. */
module Windows {
  import opened Values

  /** `w` is the first window from `from` on whose end reaches `p`. */
  predicate FirstFit(ends: seq<int>, from: nat, p: int, w: nat) {
    && from <= w < |ends|
    && p <= ends[w]
    && (forall k :: from <= k < w ==> ends[k] < p)
  }

  /** The declarative reading of the loop: the first variant's window is the
      first fit from window 0, and every later one is the first fit from the
      window of the variant before it. */
  predicate CursorLaw(pos: seq<int>, ends: seq<int>, wn: seq<nat>) {
    && 1 <= |wn| <= |pos|
    && FirstFit(ends, 0, pos[0], wn[0])
    && (forall i :: 1 <= i < |wn| ==> FirstFit(ends, wn[i - 1], pos[i], wn[i]))
  }

  /** No variant lies beyond the last window, and there is one position for
      each of the `n` scores, at least one. */
  predicate Assignable(pos: seq<int>, ends: seq<int>, n: nat) {
    && 1 <= n <= |pos|
    && 1 <= |ends|
    && (forall i :: 0 <= i < n ==> pos[i] <= ends[|ends| - 1])
  }

  predicate Ascending(xs: seq<int>) {
    forall a, b :: 0 <= a < b < |xs| ==> xs[a] <= xs[b]
  }

  /** The inner `while (pos(i) > ends(win)) win++`: `None` when it runs past
      the last window, which Rcpp reports as an out-of-bounds access. */
  method AdvanceCursor(ends: seq<int>, from: nat, p: int) returns (r: Option<nat>)
    ensures r.Some? ==> FirstFit(ends, from, p, r.value)
    ensures r.None? <==> forall k :: from <= k < |ends| ==> ends[k] < p
  {
    var win := from;
    while win < |ends| && p > ends[win]
      invariant from <= win
      invariant forall k :: from <= k < win && k < |ends| ==> ends[k] < p
      decreases |ends| - win
    {
      win := win + 1;
    }
    if win >= |ends| {
      return None;
    }
    return Some(win);
  }

  /** R's `data.frame` recycling: a column shorter than the frame is
      repeated from its start. */
  function Recycle(col: seq<nat>, n: nat): (r: seq<nat>)
    requires |col| >= 1
    ensures |r| == n
    ensures forall k :: 0 <= k < n ==> r[k] == col[k % |col|]
  {
    seq(n, k requires 0 <= k < n => col[k % |col|])
  }

  /** The cursor loop: the window number of every scored variant, or the
      out-of-bounds access that ends the call. */
  method NumberWindows(pos: seq<int>, ends: seq<int>, n: nat) returns (r: Result<seq<nat>>)
    ensures r.Success? ==> |r.value| == n && CursorLaw(pos, ends, r.value)
    ensures Assignable(pos, ends, n) ==> r.Success?
    ensures r.Success? && Ascending(ends) ==> Assignable(pos, ends, n)
  {
    if |pos| == 0 {
      return Failure(IndexOutOfBounds);
    }
    var first := AdvanceCursor(ends, 0, pos[0]);
    if first.None? {
      if |ends| > 0 {
        assert ends[|ends| - 1] < pos[0];
      }
      return Failure(IndexOutOfBounds);
    }
    var win := first.value;
    if n == 0 {
      return Failure(IndexOutOfBounds);
    }
    var wn: seq<nat> := [win];
    var i := 1;
    while i < n
      invariant 1 <= i <= n && i <= |pos| && |wn| == i
      invariant win == wn[i - 1] && win < |ends|
      invariant CursorLaw(pos, ends, wn)
      decreases n - i
    {
      if i >= |pos| {
        return Failure(IndexOutOfBounds);
      }
      if pos[i] < ends[win] {
        wn := wn + [win];
      } else {
        var next := AdvanceCursor(ends, win, pos[i]);
        if next.None? {
          assert ends[|ends| - 1] < pos[i];
          return Failure(IndexOutOfBounds);
        }
        win := next.value;
        wn := wn + [win];
      }
      i := i + 1;
    }
    if Ascending(ends) {
      forall k | 0 <= k < |wn|
        ensures pos[k] <= ends[|ends| - 1]
      {
        var from := if k == 0 then 0 else wn[k - 1];
        assert FirstFit(ends, from, pos[k], wn[k]);
        assert ends[wn[k]] <= ends[|ends| - 1];
      }
    }
    return Success(wn);
  }

  /** A recycled column starts with the column itself and repeats with its
      length as period. */
  lemma RecycleShape(col: seq<nat>, n: nat)
    requires 1 <= |col| <= n
    ensures Recycle(col, n)[..|col|] == col
    ensures forall k :: 0 <= k < n ==> Recycle(col, n)[k] == Recycle(col, n)[k % |col|]
  {
    var r := Recycle(col, n);
    var m := |col|;
    forall k | 0 <= k < m
      ensures r[k] == col[k]
    {
      assert k % m == k;
    }
    forall k | 0 <= k < n
      ensures r[k] == r[k % m]
    {
      var j := k % m;
      assert 0 <= j < m;
      assert r[j] == col[j];
    }
  }

  /** The `window_number` column of the frame `rank_variants` returns. The
      cursor numbers one variant per score; `DataFrame::create` then puts
      those numbers beside the `|pos|` variant rows, repeating them when
      their count divides the row count and stopping otherwise. `score`
      only sets how many variants are numbered; the ranking it was meant
      for is never computed. */
  method RankVariants(pos: seq<int>, ends: seq<int>, score: seq<real>) returns (r: Result<seq<nat>>)
    ensures r.Success? ==> 1 <= |score| <= |pos| && |pos| % |score| == 0
    ensures r.Success? ==> |r.value| == |pos| && CursorLaw(pos, ends, r.value[..|score|])
    ensures r.Success? ==> forall k :: 0 <= k < |pos| ==> r.value[k] == r.value[k % |score|]
    ensures Assignable(pos, ends, |score|) && |pos| % |score| == 0 ==> r.Success?
    ensures Assignable(pos, ends, |score|) && |pos| % |score| != 0 ==> r == Failure(DifferingRows)
    ensures r.Success? && Ascending(ends) ==> Assignable(pos, ends, |score|)
  {
    var numbered := NumberWindows(pos, ends, |score|);
    if numbered.Failure? {
      return numbered;
    }
    var wn := numbered.value;
    if |pos| % |wn| != 0 {
      return Failure(DifferingRows);
    }
    var column := Recycle(wn, |pos|);
    RecycleShape(wn, |pos|);
    return Success(column);
  }

  // ---------------------------------------------------------------------
  // Laws

  /** Window numbers never decrease along the variants. */
  lemma {:induction false} CursorMonotone(pos: seq<int>, ends: seq<int>, wn: seq<nat>, a: nat, b: nat)
    requires CursorLaw(pos, ends, wn)
    requires a <= b < |wn|
    ensures wn[a] <= wn[b]
    decreases b - a
  {
    if a < b {
      CursorMonotone(pos, ends, wn, a, b - 1);
      assert FirstFit(ends, wn[b - 1], pos[b], wn[b]);
    }
  }

  /** The law fixes the numbering: at most one sequence of each length
      obeys it. */
  lemma {:induction false} CursorLawUnique(pos: seq<int>, ends: seq<int>, a: seq<nat>, b: seq<nat>, n: nat)
    requires CursorLaw(pos, ends, a) && CursorLaw(pos, ends, b)
    requires n <= |a| == |b|
    ensures a[..n] == b[..n]
    decreases n
  {
    if n > 0 {
      CursorLawUnique(pos, ends, a, b, n - 1);
      var i := n - 1;
      var from := if i == 0 then 0 else a[i - 1];
      assert i > 0 ==> b[i - 1] == b[..n - 1][i - 1] == a[..n - 1][i - 1] == a[i - 1];
      assert FirstFit(ends, from, pos[i], a[i]) && FirstFit(ends, from, pos[i], b[i]);
      assert a[i] == b[i];
      assert a[..n] == a[..n - 1] + [a[i]] && b[..n] == b[..n - 1] + [b[i]];
    }
  }

  /** With positions in ascending order the cursor loses nothing: every
      variant lies in the first window, counted from window 0, whose end
      reaches its position. */
  lemma {:induction false} AscendingPositionsFirstFit(pos: seq<int>, ends: seq<int>, wn: seq<nat>, i: nat)
    requires CursorLaw(pos, ends, wn)
    requires Ascending(pos)
    requires i < |wn|
    ensures FirstFit(ends, 0, pos[i], wn[i])
    decreases i
  {
    if i > 0 {
      AscendingPositionsFirstFit(pos, ends, wn, i - 1);
      assert FirstFit(ends, wn[i - 1], pos[i], wn[i]);
      assert pos[i - 1] <= pos[i];
    }
  }

  /** With both vectors ascending, a variant's window number counts the
      windows that end before it. */
  lemma AscendingWindowCount(pos: seq<int>, ends: seq<int>, wn: seq<nat>, i: nat)
    requires CursorLaw(pos, ends, wn)
    requires Ascending(pos) && Ascending(ends)
    requires i < |wn|
    ensures forall k :: 0 <= k < |ends| ==> (k < wn[i] <==> ends[k] < pos[i])
  {
    AscendingPositionsFirstFit(pos, ends, wn, i);
  }

  /** Windows ending at 100, 200 and 300: variants at 10, 50, 150, 250 and
      280 fall in windows 0, 0, 1, 2 and 2, and no other numbering obeys
      the law. */
  lemma ThreeWindows(other: seq<nat>)
    requires CursorLaw([10, 50, 150, 250, 280], [100, 200, 300], other) && |other| == 5
    ensures other == [0, 0, 1, 2, 2]
    ensures Assignable([10, 50, 150, 250, 280], [100, 200, 300], 5)
  {
    var pos := [10, 50, 150, 250, 280];
    var ends := [100, 200, 300];
    var wn: seq<nat> := [0, 0, 1, 2, 2];
    assert FirstFit(ends, 0, pos[0], wn[0]);
    assert FirstFit(ends, 0, pos[1], wn[1]);
    assert FirstFit(ends, 0, pos[2], wn[2]);
    assert FirstFit(ends, 1, pos[3], wn[3]);
    assert FirstFit(ends, 2, pos[4], wn[4]);
    assert CursorLaw(pos, ends, wn);
    CursorLawUnique(pos, ends, wn, other, 5);
    assert wn[..5] == wn && other[..5] == other;
  }

  /** The cursor never moves back: after a variant at 250 a later variant at
      10 is still put in window 2, although window 0 is the first one whose
      end reaches 10. */
  lemma CursorNeverReturns(other: seq<nat>)
    requires CursorLaw([250, 10], [100, 200, 300], other) && |other| == 2
    ensures other == [2, 2]
    ensures FirstFit([100, 200, 300], 0, 10, 0)
  {
    var pos := [250, 10];
    var ends := [100, 200, 300];
    var wn: seq<nat> := [2, 2];
    assert FirstFit(ends, 0, pos[0], wn[0]);
    assert FirstFit(ends, 2, pos[1], wn[1]);
    assert CursorLaw(pos, ends, wn);
    CursorLawUnique(pos, ends, wn, other, 2);
    assert wn[..2] == wn && other[..2] == other;
  }
}
