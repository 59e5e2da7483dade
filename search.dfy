/**
 * The bisection that StickerConvert._convert runs over the quality ladder,
 * as a state machine over the sequence of sizes the encoder produced.
 * Step index 0 is the highest quality, index `steps` the lowest.  A size
 * within the budget moves the upper end down to the probe, a size over it
 * moves the lower end up; the largest in-budget size seen so far is kept.
 * A budget that is None or 0 is falsy, which stops the search after the
 * first probe.
 */
module Search {
  import opened Base

  datatype State = State(
    lower: int,
    current: int,
    upper: int,
    resultSize: nat,           // result_size: 0 until a result is kept
    resultStep: Option<int>,   // result_step
    done: bool)                // the loop has returned after the last probe

  /** int(rounding((lower + upper) / 2)) */
  function Mid(lower: int, upper: int): (m: int)
    ensures lower + upper - 1 <= 2 * m <= lower + upper + 1
  {
    RoundHalfUp((lower + upper) as real / 2.0)
  }

  /** For a non-negative sum the half-up midpoint is (l + u + 1) div 2. */
  lemma MidIsCeilHalf(lower: int, upper: int)
    requires lower + upper >= 0
    ensures Mid(lower, upper) == (lower + upper + 1) / 2
  {
    var s := lower + upper;
    var m := (s + 1) / 2;
    var x := s as real / 2.0;
    assert x - 0.5 < m as real <= x + 0.5 by {
      assert 2 * m == s || 2 * m == s + 1;
    }
  }

  lemma MidBetween(lower: int, upper: int)
    requires 0 <= lower <= upper
    ensures lower <= Mid(lower, upper) <= upper
  {
    MidIsCeilHalf(lower, upper);
  }

  /** The state before the first probe (lines 180-192). */
  function Start(steps: int, budget: Option<int>): (st: State)
    requires steps >= 0
    ensures st.lower == 0 && st.upper == steps && !st.done
    ensures st.resultSize == 0 && st.resultStep.None?
    ensures budget.None? ==> st.current == 0
    ensures budget.Some? ==> st.current == (steps + 1) / 2
  {
    MidIsCeilHalf(0, steps);
    State(0, if budget.None? then 0 else Mid(0, steps), steps, 0, None, false)
  }

  /** The keep rule of lines 229-234. */
  predicate Keeps(budget: Option<int>, resultSize: nat, size: nat)
  {
    !Truthy(budget) || (size <= budget.value && size >= resultSize)
  }

  /** The search goes on after this probe (line 236). */
  predicate Continues(st: State, budget: Option<int>)
  {
    st.upper - st.lower > 1 && Truthy(budget)
  }

  /** One probe at st.current that encoded to `size` bytes (lines 229-248). */
  function Observe(st: State, budget: Option<int>, size: nat): (next: State)
    ensures next.done <==> !Continues(st, budget)
    ensures next.resultStep == st.resultStep || next.resultStep == Some(st.current)
    ensures Continues(st, budget) ==>
              && next.current == Mid(next.lower, next.upper)
              && (size <= budget.value ==> next.lower == st.lower && next.upper == st.current)
              && (size > budget.value ==> next.lower == st.current && next.upper == st.upper)
  {
    var kept := if Keeps(budget, st.resultSize, size)
                then st.(resultSize := size, resultStep := Some(st.current))
                else st;
    if Continues(st, budget) then
      var lower := if size <= budget.value then st.lower else st.current;
      var upper := if size <= budget.value then st.current else st.upper;
      kept.(lower := lower, upper := upper, current := Mid(lower, upper), done := false)
    else
      kept.(done := true)
  }

  /** The state after probing the given sizes in order, starting from st. */
  function RunFrom(st: State, budget: Option<int>, sizes: seq<nat>): (r: State)
    ensures r.resultSize == st.resultSize || r.resultSize in sizes
    ensures r.resultStep == st.resultStep || r.resultStep.Some?
    decreases |sizes|
  {
    if |sizes| == 0 then st else RunFrom(Observe(st, budget, sizes[0]), budget, sizes[1..])
  }

  /** The state after probing the given sizes in order from the start. */
  function Run(steps: int, budget: Option<int>, sizes: seq<nat>): (r: State)
    requires steps >= 0
    ensures |sizes| == 0 ==> r == Start(steps, budget)
    ensures r.resultSize == 0 || r.resultSize in sizes
  {
    RunFrom(Start(steps, budget), budget, sizes)
  }

  /** Every probe but the first was made while the search was still going. */
  predicate ValidFrom(st: State, budget: Option<int>, sizes: seq<nat>)
    decreases |sizes|
  {
    |sizes| == 0 || (!st.done && ValidFrom(Observe(st, budget, sizes[0]), budget, sizes[1..]))
  }

  predicate Valid(steps: int, budget: Option<int>, sizes: seq<nat>)
    requires steps >= 0
  {
    ValidFrom(Start(steps, budget), budget, sizes)
  }

  /** at[i] is the step the search stood at when probe i was made. */
  predicate ProbedAt(steps: int, budget: Option<int>, sizes: seq<nat>, at: seq<int>)
    requires steps >= 0
  {
    |at| == |sizes| && forall i :: 0 <= i < |sizes| ==> at[i] == Run(steps, budget, sizes[..i]).current
  }

  /** A new probe is made at the current step of the search run over the probes before it. */
  lemma ProbedAtSnoc(steps: int, budget: Option<int>, sizes: seq<nat>, at: seq<int>, size: nat)
    requires steps >= 0 && ProbedAt(steps, budget, sizes, at)
    ensures ProbedAt(steps, budget, sizes + [size], at + [Run(steps, budget, sizes).current])
  {
    var longer := sizes + [size];
    assert longer[..|sizes|] == sizes;
    forall i | 0 <= i < |sizes| ensures longer[..i] == sizes[..i] {
    }
  }

  /** Appending one probe: the loop body seen from the end of the trace. */
  lemma {:induction false} RunFromSnoc(st: State, budget: Option<int>, sizes: seq<nat>, size: nat)
    ensures RunFrom(st, budget, sizes + [size]) == Observe(RunFrom(st, budget, sizes), budget, size)
    ensures ValidFrom(st, budget, sizes + [size])
            <==> ValidFrom(st, budget, sizes) && !RunFrom(st, budget, sizes).done
    decreases |sizes|
  {
    if |sizes| == 0 {
      assert sizes + [size] == [size];
      assert [size][1..] == [];
    } else {
      assert (sizes + [size])[0] == sizes[0];
      assert (sizes + [size])[1..] == sizes[1..] + [size];
      RunFromSnoc(Observe(st, budget, sizes[0]), budget, sizes[1..], size);
    }
  }

  // ---------------------------------------------------------------------
  // Bounds
  // ---------------------------------------------------------------------

  predicate Inv(st: State, steps: int)
  {
    0 <= st.lower <= st.current <= st.upper <= steps
  }

  lemma ObserveInv(st: State, steps: int, budget: Option<int>, size: nat)
    requires Inv(st, steps)
    ensures Inv(Observe(st, budget, size), steps)
  {
    if Continues(st, budget) {
      var next := Observe(st, budget, size);
      MidBetween(next.lower, next.upper);
    }
  }

  /** 0 <= lower <= current <= upper <= steps after any number of probes. */
  lemma {:induction false} RunFromInv(st: State, steps: int, budget: Option<int>, sizes: seq<nat>)
    requires Inv(st, steps)
    ensures Inv(RunFrom(st, budget, sizes), steps)
    decreases |sizes|
  {
    if |sizes| > 0 {
      ObserveInv(st, steps, budget, sizes[0]);
      RunFromInv(Observe(st, budget, sizes[0]), steps, budget, sizes[1..]);
    }
  }

  lemma RunInv(steps: int, budget: Option<int>, sizes: seq<nat>)
    requires steps >= 0
    ensures Inv(Run(steps, budget, sizes), steps)
  {
    RunFromInv(Start(steps, budget), steps, budget, sizes);
  }

  /**
   * Each narrowing halves the interval: the new gap is at most ceil(gap / 2),
   * so it strictly shrinks while it exceeds 1.
   */
  lemma ObserveShrinks(st: State, steps: int, budget: Option<int>, size: nat)
    requires Inv(st, steps) && st.current == Mid(st.lower, st.upper)
    requires Continues(st, budget)
    ensures var next := Observe(st, budget, size);
            && !next.done
            && next.upper - next.lower <= (st.upper - st.lower + 1) / 2
            && next.upper - next.lower < st.upper - st.lower
            && next.current == Mid(next.lower, next.upper)
  {
    MidIsCeilHalf(st.lower, st.upper);
  }

  /**
   * One more probe, made at the current step of a search that has not
   * returned: the probe sequence stays valid, the probe is recorded at that
   * step, the keep rule of lines 229-234 decides the result, and the loop
   * either returns or goes on at the midpoint of a strictly smaller bracket.
   */
  lemma Advance(steps: int, budget: Option<int>, sizes: seq<nat>, at: seq<int>, size: nat,
                lower: int, current: int, upper: int, rSize: nat, rStep: Option<int>)
    requires steps >= 0 && Valid(steps, budget, sizes) && ProbedAt(steps, budget, sizes, at)
    requires Run(steps, budget, sizes) == State(lower, current, upper, rSize, rStep, false)
    requires 0 <= lower <= current <= upper <= steps
    requires Truthy(budget) ==> current == Mid(lower, upper)
    ensures Valid(steps, budget, sizes + [size])
    ensures ProbedAt(steps, budget, sizes + [size], at + [current])
    ensures var next := Run(steps, budget, sizes + [size]);
            && (Keeps(budget, rSize, size) ==> next.resultSize == size && next.resultStep == Some(current))
            && (!Keeps(budget, rSize, size) ==> next.resultSize == rSize && next.resultStep == rStep)
            && (next.done <==> !(upper - lower > 1 && Truthy(budget)))
            && (!next.done ==>
                  && next.lower == (if size <= budget.value then lower else current)
                  && next.upper == (if size <= budget.value then current else upper)
                  && next.current == Mid(next.lower, next.upper)
                  && 0 <= next.lower <= next.current <= next.upper <= steps
                  && next.upper - next.lower < upper - lower)
  {
    var st := Run(steps, budget, sizes);
    RunFromSnoc(Start(steps, budget), budget, sizes, size);
    ProbedAtSnoc(steps, budget, sizes, at, size);
    if Continues(st, budget) {
      ObserveShrinks(st, steps, budget, size);
      var next := Observe(st, budget, size);
      MidBetween(next.lower, next.upper);
    }
  }

  /** Apart from the no-budget start at 0, every probe sits at the midpoint. */
  predicate AtMid(st: State, budget: Option<int>)
  {
    Truthy(budget) ==> st.current == Mid(st.lower, st.upper)
  }

  lemma {:induction false} RunFromAtMid(st: State, steps: int, budget: Option<int>, sizes: seq<nat>)
    requires Inv(st, steps) && AtMid(st, budget)
    ensures AtMid(RunFrom(st, budget, sizes), budget)
    decreases |sizes|
  {
    if |sizes| > 0 {
      var next := Observe(st, budget, sizes[0]);
      ObserveInv(st, steps, budget, sizes[0]);
      RunFromAtMid(next, steps, budget, sizes[1..]);
    }
  }

  // ---------------------------------------------------------------------
  // The kept result
  // ---------------------------------------------------------------------

  predicate WithinBudget(st: State, budget: Option<int>)
  {
    Truthy(budget) && st.resultStep.Some? ==> st.resultSize <= budget.value
  }

  /** A kept result never exceeds a (truthy) budget, and its size never decreases. */
  lemma ObserveKeeps(st: State, budget: Option<int>, size: nat)
    requires WithinBudget(st, budget)
    ensures WithinBudget(Observe(st, budget, size), budget)
    ensures Truthy(budget) ==> Observe(st, budget, size).resultSize >= st.resultSize
  {
  }

  lemma {:induction false} RunFromWithinBudget(st: State, budget: Option<int>, sizes: seq<nat>)
    requires WithinBudget(st, budget)
    ensures WithinBudget(RunFrom(st, budget, sizes), budget)
    ensures Truthy(budget) ==> RunFrom(st, budget, sizes).resultSize >= st.resultSize
    decreases |sizes|
  {
    if |sizes| > 0 {
      ObserveKeeps(st, budget, sizes[0]);
      RunFromWithinBudget(Observe(st, budget, sizes[0]), budget, sizes[1..]);
    }
  }

  /**
   * With a truthy budget, result_size <= size_max once a result is kept,
   * and result_size is monotone along the probes.
   */
  lemma ResultWithinBudget(steps: int, budget: Option<int>, sizes: seq<nat>, i: nat, j: nat)
    requires steps >= 0 && i <= j <= |sizes|
    ensures WithinBudget(Run(steps, budget, sizes), budget)
    ensures Truthy(budget) ==> Run(steps, budget, sizes[..i]).resultSize <= Run(steps, budget, sizes[..j]).resultSize
  {
    var st := Start(steps, budget);
    RunFromWithinBudget(st, budget, sizes);
    RunFromWithinBudget(st, budget, sizes[..i]);
    RunFromSplit(st, budget, sizes[..i], sizes[i..j]);
    assert sizes[..i] + sizes[i..j] == sizes[..j];
    RunFromWithinBudget(RunFrom(st, budget, sizes[..i]), budget, sizes[i..j]);
  }

  lemma {:induction false} RunFromSplit(st: State, budget: Option<int>, a: seq<nat>, b: seq<nat>)
    ensures RunFrom(st, budget, a + b) == RunFrom(RunFrom(st, budget, a), budget, b)
    decreases |a|
  {
    if |a| > 0 {
      assert (a + b)[0] == a[0];
      assert (a + b)[1..] == a[1..] + b;
      RunFromSplit(Observe(st, budget, a[0]), budget, a[1..], b);
      assert RunFrom(st, budget, a + b) == RunFrom(Observe(st, budget, a[0]), budget, a[1..] + b);
      assert RunFrom(st, budget, a) == RunFrom(Observe(st, budget, a[0]), budget, a[1..]);
    } else {
      assert a + b == b;
    }
  }

  /** result_step is the step of an earlier probe whose size is result_size. */
  lemma {:induction false} ResultStepProduced(steps: int, budget: Option<int>, sizes: seq<nat>)
    requires steps >= 0
    ensures var st := Run(steps, budget, sizes);
            st.resultStep.Some? ==>
              exists i :: 0 <= i < |sizes| && Run(steps, budget, sizes[..i]).current == st.resultStep.value
                                       && sizes[i] == st.resultSize
    decreases |sizes|
  {
    var st := Run(steps, budget, sizes);
    if |sizes| > 0 && st.resultStep.Some? {
      var n := |sizes| - 1;
      var init := sizes[..n];
      assert init + [sizes[n]] == sizes;
      RunFromSnoc(Start(steps, budget), budget, init, sizes[n]);
      var prev := Run(steps, budget, init);
      if Keeps(budget, prev.resultSize, sizes[n]) {
        assert sizes[..n] == init;
        assert Run(steps, budget, sizes[..n]).current == st.resultStep.value;
      } else {
        ResultStepProduced(steps, budget, init);
        var i :| 0 <= i < |init| && Run(steps, budget, init[..i]).current == prev.resultStep.value
                                 && init[i] == prev.resultSize;
        assert init[..i] == sizes[..i];
      }
    }
  }

  // ---------------------------------------------------------------------
  // How many probes
  // ---------------------------------------------------------------------

  /** The number of halvings (gap := ceil(gap / 2)) that bring a gap down to 1. */
  function Log2Ceil(g: int): nat
    decreases g
  {
    if g <= 1 then 0 else 1 + Log2Ceil((g + 1) / 2)
  }

  lemma {:induction false} Log2CeilMonotone(a: int, b: int)
    requires a <= b
    ensures Log2Ceil(a) <= Log2Ceil(b)
    decreases b
  {
    if a > 1 {
      Log2CeilMonotone((a + 1) / 2, (b + 1) / 2);
    }
  }

  /** Without a truthy budget the first probe ends the search. */
  lemma NoBudgetOneProbe(steps: int, budget: Option<int>, sizes: seq<nat>)
    requires steps >= 0 && !Truthy(budget)
    requires Valid(steps, budget, sizes) && |sizes| >= 1
    ensures |sizes| == 1
    ensures budget.None? ==> Start(steps, budget).current == 0
    ensures Run(steps, budget, sizes).done
    ensures Run(steps, budget, sizes).resultSize == sizes[0]
    ensures Run(steps, budget, sizes).resultStep == Some(Start(steps, budget).current)
  {
    var st := Start(steps, budget);
    var next := Observe(st, budget, sizes[0]);
    assert ValidFrom(next, budget, sizes[1..]);
    assert next.done;
    assert |sizes[1..]| == 0;
    assert RunFrom(st, budget, sizes) == RunFrom(next, budget, sizes[1..]) == next;
  }

  lemma {:induction false} ProbesFromBound(st: State, steps: int, budget: Option<int>, sizes: seq<nat>)
    requires Inv(st, steps) && st.current == Mid(st.lower, st.upper) && Truthy(budget)
    requires ValidFrom(st, budget, sizes)
    ensures |sizes| <= 1 + Log2Ceil(st.upper - st.lower)
    decreases |sizes|
  {
    if |sizes| > 0 {
      var next := Observe(st, budget, sizes[0]);
      if Continues(st, budget) {
        ObserveShrinks(st, steps, budget, sizes[0]);
        ObserveInv(st, steps, budget, sizes[0]);
        ProbesFromBound(next, steps, budget, sizes[1..]);
        Log2CeilMonotone(next.upper - next.lower, (st.upper - st.lower + 1) / 2);
      } else {
        assert next.done;
        assert |sizes[1..]| == 0;
      }
    }
  }

  /** With a truthy budget the loop encodes at most 1 + ceil(log2(steps)) times. */
  lemma ProbeBound(steps: int, budget: Option<int>, sizes: seq<nat>)
    requires steps >= 0 && Truthy(budget) && Valid(steps, budget, sizes)
    ensures |sizes| <= 1 + Log2Ceil(steps)
  {
    MidIsCeilHalf(0, steps);
    ProbesFromBound(Start(steps, budget), steps, budget, sizes);
  }

  /**
   * The bound is reached: with steps = 3 the search probes steps 2, 1 and 2
   * again, three encodes where ceil(log2(steps + 1)) would be 2.
   */
  lemma ThreeProbesForThreeSteps(last: nat)
    ensures Valid(3, Some(5), [1, 10, last])
    ensures Run(3, Some(5), [1, 10, last]).done
    ensures Log2Ceil(3) == 2
  {
    MidIsCeilHalf(0, 3);
    MidIsCeilHalf(0, 2);
    MidIsCeilHalf(1, 2);
    var s0 := Start(3, Some(5));
    assert s0.current == 2;
    var s1 := Observe(s0, Some(5), 1);
    assert s1 == State(0, 1, 2, 1, Some(2), false);
    var s2 := Observe(s1, Some(5), 10);
    assert s2 == State(1, 2, 2, 1, Some(2), false);
    var s3 := Observe(s2, Some(5), last);
    assert s3.done;
    var t := [1, 10, last];
    assert t[0] == 1 && t[1..] == [10, last];
    assert [10, last][0] == 10 && [10, last][1..] == [last];
    assert [last][0] == last && [last][1..] == [];
    assert RunFrom(s3, Some(5), []) == s3;
    assert RunFrom(s2, Some(5), [last]) == s3;
    assert RunFrom(s1, Some(5), [10, last]) == s3;
    assert RunFrom(s0, Some(5), t) == s3;
    assert ValidFrom(s3, Some(5), []);
    assert ValidFrom(s2, Some(5), [last]);
    assert ValidFrom(s1, Some(5), [10, last]);
    assert ValidFrom(s0, Some(5), t);
  }

  // ---------------------------------------------------------------------
  // Outcome
  // ---------------------------------------------------------------------

  /**
   * The loop reports success iff it holds a non-empty result (`elif
   * self.result` at line 245: empty bytes are falsy); result_size equals the
   * length of the kept bytes, so that is result_size > 0.
   */
  predicate Succeeds(st: State)
  {
    st.resultSize > 0
  }

  /** A successful search under a truthy budget returns a result within the budget. */
  lemma SuccessWithinBudget(steps: int, budget: Option<int>, sizes: seq<nat>)
    requires steps >= 0 && Truthy(budget)
    ensures Succeeds(Run(steps, budget, sizes)) ==>
              Run(steps, budget, sizes).resultStep.Some?
              && 0 < Run(steps, budget, sizes).resultSize <= budget.value
  {
    RunFromWithinBudget(Start(steps, budget), budget, sizes);
    RunFromStepSet(Start(steps, budget), budget, sizes);
  }

  lemma {:induction false} RunFromStepSet(st: State, budget: Option<int>, sizes: seq<nat>)
    requires st.resultSize > 0 ==> st.resultStep.Some?
    ensures RunFrom(st, budget, sizes).resultSize > 0 ==> RunFrom(st, budget, sizes).resultStep.Some?
    decreases |sizes|
  {
    if |sizes| > 0 {
      RunFromStepSet(Observe(st, budget, sizes[0]), budget, sizes[1..]);
    }
  }

  /** If every probe is over the budget, nothing is kept and the search fails. */
  lemma {:induction false} AllOverBudgetFails(st: State, budget: Option<int>, sizes: seq<nat>)
    requires Truthy(budget) && st.resultSize == 0 && st.resultStep.None?
    requires forall i :: 0 <= i < |sizes| ==> sizes[i] > budget.value
    ensures !Succeeds(RunFrom(st, budget, sizes)) && RunFrom(st, budget, sizes).resultStep.None?
    decreases |sizes|
  {
    if |sizes| > 0 {
      AllOverBudgetFails(Observe(st, budget, sizes[0]), budget, sizes[1..]);
    }
  }
}
