/** The batch scheduler of the batched merges: `range(1, total + 1, batch_size)` gives the
    window starts, and window `[s, s + batch_size - 1]` selects the keys whose row number
    (1-based, in ascending key order) falls inside it. */
module Windows {

  /** Python's `range(start, stop, step)`; a zero step raises, so it is excluded. */
  function PyRange(start: int, stop: int, step: int): seq<int>
    requires step != 0
    decreases if step > 0 then stop - start else start - stop
  {
    if (step > 0 && start < stop) || (step < 0 && start > stop) then [start] + PyRange(start + step, stop, step)
    else []
  }

  /** Element i of the range is start + i * step, every element lies before `stop`, and the
      next one would not. */
  lemma {:induction false} PyRangeShape(start: int, stop: int, step: int)
    requires step != 0
    ensures var r := PyRange(start, stop, step);
            && (forall i :: 0 <= i < |r| ==> r[i] == start + i * step)
            && (step > 0 ==> forall i :: 0 <= i < |r| ==> r[i] < stop)
            && (step < 0 ==> forall i :: 0 <= i < |r| ==> r[i] > stop)
            && (step > 0 ==> start + |r| * step >= stop)
            && (step < 0 ==> start + |r| * step <= stop)
    decreases if step > 0 then stop - start else start - stop
  {
    if (step > 0 && start < stop) || (step < 0 && start > stop) {
      var rest := PyRange(start + step, stop, step);
      PyRangeShape(start + step, stop, step);
      ShiftedMultiples(start, step, |rest|);
      var r := [start] + rest;
      assert PyRange(start, stop, step) == r;
      assert forall i :: 0 < i < |r| ==> r[i] == rest[i - 1];
    }
  }

  /** Shifting a progression by one step: element i - 1 of the one from `start + step`
      is element i of the one from `start`. */
  lemma ShiftedMultiples(start: int, step: int, n: nat)
    ensures forall i :: 0 < i <= n + 1 ==> start + step + (i - 1) * step == start + i * step
  {
    forall i | 0 < i <= n + 1 ensures start + step + (i - 1) * step == start + i * step {
      assert (i - 1) * step == i * step - step;
    }
  }

  /** The window starts of a batched merge over `total` keys. */
  function BatchStarts(total: int, batchSize: int): seq<int>
    requires batchSize != 0
  {
    PyRange(1, total + 1, batchSize)
  }

  /** The last row number a window selects: `BETWEEN start AND start + size - 1`, clipped to
      the number of keys, as the progress report `min(batch_end, total)` shows. */
  function WindowEnd(start: int, total: int, batchSize: int): int {
    var e := start + batchSize - 1;
    if e < total then e else total
  }

  lemma MulMonotone(a: int, b: int, step: int)
    requires step > 0 && a < b
    ensures a * step < b * step
  {
    assert b * step - a * step == (b - a) * step;
  }

  lemma MulLe(a: int, c: int, step: int)
    requires step > 0 && a <= c
    ensures a * step <= c * step
  {
    assert c * step - a * step == (c - a) * step;
  }

  /** A negative batch size selects no window at all (and writes no file). */
  lemma {:induction false} NegativeBatchSizeHasNoWindows(total: int, batchSize: int)
    requires batchSize < 0 && total >= 0
    ensures BatchStarts(total, batchSize) == []
  {
  }

  /** The windows are `[1 + w * size, ..]` for w = 0, 1, ..: only the first window starts
      at row 1 (the only batch written with a header), and they never skip past `total`. */
  lemma {:induction false} BatchStartsShape(total: int, batchSize: int)
    requires batchSize > 0
    ensures var s := BatchStarts(total, batchSize);
            && (|s| == 0 <==> total < 1)
            && (forall w :: 0 <= w < |s| ==> 1 <= s[w] <= total && s[w] == 1 + w * batchSize)
            && (forall w :: 0 <= w < |s| ==> (s[w] == 1 <==> w == 0))
            && (|s| > 0 ==> WindowEnd(s[|s| - 1], total, batchSize) == total)
  {
    var s := BatchStarts(total, batchSize);
    PyRangeShape(1, total + 1, batchSize);
    forall w | 0 <= w < |s| ensures 1 <= s[w] && (s[w] == 1 <==> w == 0) {
      if w > 0 { MulMonotone(0, w, batchSize); }
    }
    if |s| > 0 {
      assert s[|s| - 1] + batchSize == 1 + |s| * batchSize by {
        assert (|s| - 1) * batchSize == |s| * batchSize - batchSize;
      }
    }
  }

  /** What a driver walking the windows in order needs: the first starts at row 1, no
      later one does, every start is a row number, and the last window ends at `total`. */
  lemma WindowWalk(total: int, batchSize: int)
    requires batchSize > 0
    ensures var s := BatchStarts(total, batchSize);
            && (|s| == 0 <==> total < 1)
            && (|s| > 0 ==> s[0] == 1 && WindowEnd(s[|s| - 1], total, batchSize) == total)
            && (forall w :: 0 < w < |s| ==> 1 < s[w] <= total)
  {
    BatchStartsShape(total, batchSize);
  }

  lemma DivBounds(x: int, b: int)
    requires x >= 0 && b > 0
    ensures (x / b) * b <= x < (x / b) * b + b
  {
    assert x == (x / b) * b + x % b;
  }

  /** At most one multiple-of-b block contains x. */
  lemma BlockUnique(x: int, b: int, v: int, w: int)
    requires b > 0
    requires v * b <= x < v * b + b && w * b <= x < w * b + b
    ensures v == w
  {
    if v < w {
      MulLe(v + 1, w, b);
      assert false;
    } else if w < v {
      MulLe(w + 1, v, b);
      assert false;
    }
  }

  /** Batch coverage: every row number 1..total lies in exactly one window, the one with
      index (rank - 1) / size, so each key is written exactly once. */
  lemma {:induction false} EachRankInExactlyOneWindow(total: int, batchSize: int, rank: int)
    requires batchSize > 0 && 1 <= rank <= total
    ensures var s := BatchStarts(total, batchSize);
            var w := (rank - 1) / batchSize;
            && 0 <= w < |s|
            && s[w] <= rank <= WindowEnd(s[w], total, batchSize)
            && forall v :: 0 <= v < |s| && s[v] <= rank <= WindowEnd(s[v], total, batchSize) ==> v == w
  {
    var s := BatchStarts(total, batchSize);
    BatchStartsShape(total, batchSize);
    var w := (rank - 1) / batchSize;
    DivBounds(rank - 1, batchSize);
    assert 0 <= w by {
      if w < 0 { MulMonotone(w, 0, batchSize); }
    }
    assert w < |s| by {
      if w >= |s| {
        assert 1 + |s| * batchSize >= total + 1;
        if w > |s| { MulMonotone(|s|, w, batchSize); }
      }
    }
    forall v | 0 <= v < |s| && s[v] <= rank <= WindowEnd(s[v], total, batchSize) ensures v == w {
      BlockUnique(rank - 1, batchSize, v, w);
    }
  }

  /** Consecutive windows are contiguous: each starts right after the previous one ends. */
  lemma {:induction false} WindowsContiguous(total: int, batchSize: int, w: nat)
    requires batchSize > 0 && w + 1 < |BatchStarts(total, batchSize)|
    ensures var s := BatchStarts(total, batchSize);
            s[w + 1] == WindowEnd(s[w], total, batchSize) + 1
  {
    var s := BatchStarts(total, batchSize);
    BatchStartsShape(total, batchSize);
    assert (w + 1) * batchSize == w * batchSize + batchSize;
  }
}
