/**
  The arithmetic shared by the word and character chunkers: windows start at
  `0, step, 2 * step, ...` and there is one for every start inside the input.
*/
module Windows {
  function Min(a: int, b: int): int {
    if a <= b then a else b
  }

  /** How many window starts `0, step, 2*step, ...` lie below `n`. */
  function WindowCount(n: nat, step: nat): nat
    requires step > 0
  {
    (n + step - 1) / step
  }

  /** The window starts `start`, `start + step`, ... that lie inside an input of length `n`. */
  function Starts(n: nat, step: nat, start: nat): seq<nat>
    requires step > 0
    decreases n - start
  {
    if start >= n then [] else [start] + Starts(n, step, start + step)
  }

  /** Start `k` is `start + k * step`, and it exists exactly when that position exists. */
  lemma {:induction false} StartsAt(n: nat, step: nat, start: nat, k: nat)
    requires step > 0
    ensures k < |Starts(n, step, start)| <==> start + k * step < n
    ensures k < |Starts(n, step, start)| ==> Starts(n, step, start)[k] == start + k * step
    decreases k
  {
    if start < n && k > 0 {
      StartsAt(n, step, start + step, k - 1);
      assert start + step + (k - 1) * step == start + k * step;
    } else if start >= n {
      assert start + k * step >= start;
    }
  }

  /** The window starts below `n` are exactly the first `WindowCount(n, step)` multiples of `step`. */
  lemma WindowCountExact(n: nat, step: nat, k: nat)
    requires step > 0
    ensures k < WindowCount(n, step) <==> k * step < n
  {
    var q, r := (n + step - 1) / step, (n + step - 1) % step;
    assert n + step - 1 == q * step + r && 0 <= r < step;
    if k < q {
      assert (k + 1) * step <= q * step;
    } else {
      assert q * step <= k * step;
    }
  }

  /**
    For a non-empty input, the last window starts inside it and, being at least
    `step` long, reaches its end.
  */
  lemma LastWindow(n: nat, step: nat, size: int)
    requires 0 < step <= size && n > 0
    ensures var last := WindowCount(n, step) - 1;
            0 <= last && last * step < n <= last * step + size
  {
    var count := WindowCount(n, step);
    WindowCountExact(n, step, 0);
    WindowCountExact(n, step, count - 1);
    WindowCountExact(n, step, count);
    MulSucc(count - 1, step);
  }

  /** Window `k + 1` starts `step` after window `k`. */
  lemma MulSucc(k: nat, step: nat)
    ensures (k + 1) * step == k * step + step
  {
  }
}
