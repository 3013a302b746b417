/** The three `UpdateMethod` specialisations of backup.hpp.  Each moves the
    expected return of one action toward a target reward vector.  The C++
    functors update the record through a reference; here each is a function
    from the old record to the new one, which the backup writes back. */
module Averages {
  import opened ArrayOperations
  import opened Common

  /** The tag and the parameters of an update method: the window bound of
      `RunningAverage` (default 10) and the step of `ExponentialAverage`
      (default 0.1). */
  datatype UpdateMethod =
    | SampleAverage
    | RunningAverage(maxWindowSize: nat)
    | ExponentialAverage(step: real)

  /** A running average with window bound 0 divides by zero on its first
      update; every other configuration is usable. */
  predicate Configured(u: UpdateMethod) {
    u.RunningAverage? ==> u.maxWindowSize >= 1
  }

  /** What an update may be applied to: a target of the record's width, a
      record visited at least once (the sample average divides by the
      count) and a window whose entries have that width too. */
  predicate Updatable<A>(u: UpdateMethod, info: ActionInfo<A>, target: Reward) {
    && Configured(u)
    && |target| == |info.expectedReturn|
    && info.visits >= 1
    && forall j :: 0 <= j < |info.window| ==> |info.window[j]| == |target|
  }

  /** `SampleAverage`: step `1 / visits` toward the target. */
  function SampleUpdate<A>(info: ActionInfo<A>, target: Reward): (r: ActionInfo<A>)
    requires |target| == |info.expectedReturn| && info.visits >= 1
    ensures r.action == info.action && r.visits == info.visits && r.window == info.window
    ensures |r.expectedReturn| == |target|
  {
    var step := 1.0 / (info.visits as real);
    info.(expectedReturn := Plus(info.expectedReturn, Scale(step, Minus(target, info.expectedReturn))))
  }

  /** The sample-average step is the incremental form of the mean: the new
      return times the count is the old return times the previous count
      plus the target. */
  lemma SampleUpdateComponent<A>(info: ActionInfo<A>, target: Reward, k: nat)
    requires |target| == |info.expectedReturn| && info.visits >= 1 && k < |target|
    ensures SampleUpdate(info, target).expectedReturn[k] * (info.visits as real)
            == info.expectedReturn[k] * ((info.visits - 1) as real) + target[k]
  {
    StepTimesCount(info.expectedReturn[k], target[k], info.visits as real);
  }

  /** `RunningAverage`: push the target; while the window holds at most
      `w` entries step `1 / size` toward the target, otherwise shift the
      return by (target - oldest) / w and pop the oldest.  The window always
      ends with the target and keeps the most recent targets only. */
  function RunningUpdate<A>(w: nat, info: ActionInfo<A>, target: Reward): (r: ActionInfo<A>)
    requires w >= 1 && |target| == |info.expectedReturn|
    requires forall j :: 0 <= j < |info.window| ==> |info.window[j]| == |target|
    ensures r.action == info.action && r.visits == info.visits
    ensures |r.expectedReturn| == |target|
    ensures |info.window| < w ==> r.window == info.window + [target]
    ensures |info.window| >= w ==> r.window == (info.window + [target])[1..]
    ensures forall j :: 0 <= j < |r.window| ==> |r.window[j]| == |target|
  {
    var window := info.window + [target];
    if |window| <= w then
      var step := 1.0 / (|window| as real);
      info.(expectedReturn := Plus(info.expectedReturn, Scale(step, Minus(target, info.expectedReturn))),
            window := window)
    else
      var step := 1.0 / (w as real);
      info.(expectedReturn := Plus(info.expectedReturn, Scale(step, Minus(target, window[0]))),
            window := window[1..])
  }

  /** Component `k` of a running-average update, times the new window
      size: while the window grows, the old mean of m entries plus the
      target; once it is full, the old sum with the oldest entry replaced
      by the target. */
  lemma RunningUpdateComponent<A>(w: nat, info: ActionInfo<A>, target: Reward, k: nat)
    requires w >= 1 && |target| == |info.expectedReturn| && k < |target|
    requires forall j :: 0 <= j < |info.window| ==> |info.window[j]| == |target|
    ensures var r := RunningUpdate(w, info, target);
      && (|info.window| < w ==>
            r.expectedReturn[k] * ((|info.window| + 1) as real)
            == info.expectedReturn[k] * (|info.window| as real) + target[k])
      && (|info.window| >= w ==>
            r.expectedReturn[k] * (w as real)
            == info.expectedReturn[k] * (w as real) + target[k] - info.window[0][k])
  {
    var r := RunningUpdate(w, info, target);
    var e, t := info.expectedReturn[k], target[k];
    if |info.window| < w {
      var n := (|info.window| + 1) as real;
      assert r.expectedReturn[k] == e + (1.0 / n) * (t - e);
      StepTimesCount(e, t, n);
    } else {
      var n := w as real;
      var f := info.window[0][k];
      assert (info.window + [target])[0] == info.window[0];
      assert r.expectedReturn[k] == e + (1.0 / n) * (t - f);
      assert (1.0 / n) * n == 1.0;
      assert (e + (1.0 / n) * (t - f)) * n == e * n + ((1.0 / n) * n) * (t - f);
    }
  }

  /** One step of `1 / n` from `e` toward `t`, scaled back by `n`. */
  lemma StepTimesCount(e: real, t: real, n: real)
    requires n > 0.0
    ensures (e + (1.0 / n) * (t - e)) * n == e * (n - 1.0) + t
  {
    assert (1.0 / n) * n == 1.0;
    assert (e + (1.0 / n) * (t - e)) * n == e * n + ((1.0 / n) * n) * (t - e);
  }

  /** `ExponentialAverage`: a fixed step toward the target, i.e. the convex
      combination (1 - step) * old + step * target. */
  function ExponentialUpdate<A>(step: real, info: ActionInfo<A>, target: Reward): (r: ActionInfo<A>)
    requires |target| == |info.expectedReturn|
    ensures r.action == info.action && r.visits == info.visits && r.window == info.window
    ensures |r.expectedReturn| == |target|
  {
    info.(expectedReturn := Plus(info.expectedReturn, Scale(step, Minus(target, info.expectedReturn))))
  }

  /** The exponential step is the convex combination
      (1 - step) * old + step * target. */
  lemma ExponentialUpdateComponent<A>(step: real, info: ActionInfo<A>, target: Reward, k: nat)
    requires |target| == |info.expectedReturn| && k < |target|
    ensures ExponentialUpdate(step, info, target).expectedReturn[k]
            == (1.0 - step) * info.expectedReturn[k] + step * target[k]
  {
  }

  /** The `operator()` of the configured update method. */
  function Update<A>(u: UpdateMethod, info: ActionInfo<A>, target: Reward): (r: ActionInfo<A>)
    requires Updatable(u, info, target)
    ensures r.action == info.action && r.visits == info.visits
    ensures InfoWellFormed(info, |target|) ==> InfoWellFormed(r, |target|)
  {
    match u
    case SampleAverage => SampleUpdate(info, target)
    case RunningAverage(w) => RunningUpdate(w, info, target)
    case ExponentialAverage(step) => ExponentialUpdate(step, info, target)
  }

  /** With step 1 the exponential average jumps to the target. */
  lemma FullStepReachesTarget<A>(info: ActionInfo<A>, target: Reward)
    requires |target| == |info.expectedReturn|
    ensures ExponentialUpdate(1.0, info, target).expectedReturn == target
  {
    var r := ExponentialUpdate(1.0, info, target).expectedReturn;
    forall k | 0 <= k < |target| ensures r[k] == target[k] {
      ExponentialUpdateComponent(1.0, info, target, k);
    }
  }

  /** On the first visit the sample average jumps to the target. */
  lemma FirstSampleIsTarget<A>(info: ActionInfo<A>, target: Reward)
    requires |target| == |info.expectedReturn| && info.visits == 1
    ensures SampleUpdate(info, target).expectedReturn == target
  {
    var r := SampleUpdate(info, target).expectedReturn;
    forall k | 0 <= k < |target| ensures r[k] == target[k] {
      SampleUpdateComponent(info, target, k);
    }
  }

  /** Component `k` summed over a sequence of reward vectors. */
  function SumAt(ts: seq<Reward>, k: nat): real
    requires forall j :: 0 <= j < |ts| ==> k < |ts[j]|
  {
    if ts == [] then 0.0 else SumAt(ts[..|ts| - 1], k) + ts[|ts| - 1][k]
  }

  /** The sum also peels off the oldest entry. */
  lemma {:induction false} SumAtFront(ts: seq<Reward>, k: nat)
    requires ts != [] && forall j :: 0 <= j < |ts| ==> k < |ts[j]|
    ensures SumAt(ts, k) == ts[0][k] + SumAt(ts[1..], k)
  {
    if |ts| > 1 {
      SumAtFront(ts[..|ts| - 1], k);
      assert ts[..|ts| - 1][1..] == ts[1..][..|ts[1..]| - 1];
    } else {
      assert ts[..|ts| - 1] == [] && ts[1..] == [];
    }
  }

  /** A record visited once more and then updated by the sample average,
      once per target of `targets`, in order. */
  function SampleRun<A>(info: ActionInfo<A>, targets: seq<Reward>): (r: ActionInfo<A>)
    requires info.visits >= 0
    requires forall j :: 0 <= j < |targets| ==> |targets[j]| == |info.expectedReturn|
    ensures r.visits == info.visits + |targets|
    ensures |r.expectedReturn| == |info.expectedReturn|
  {
    if targets == [] then info
    else
      var prev := SampleRun(info, targets[..|targets| - 1]);
      SampleUpdate(prev.(visits := prev.visits + 1), targets[|targets| - 1])
  }

  /** Starting from zero visits, the sample average is the mean of every
      target it has been fed: each component times the count is the sum. */
  lemma {:induction false} SampleRunIsMean<A>(info: ActionInfo<A>, targets: seq<Reward>)
    requires info.visits == 0
    requires forall j :: 0 <= j < |targets| ==> |targets[j]| == |info.expectedReturn|
    ensures forall k :: 0 <= k < |info.expectedReturn| ==>
              SampleRun(info, targets).expectedReturn[k] * (|targets| as real)
              == SumAt(targets, k)
  {
    if targets != [] {
      var init := targets[..|targets| - 1];
      SampleRunIsMean(info, init);
      var prev := SampleRun(info, init);
      forall k | 0 <= k < |info.expectedReturn|
        ensures SampleRun(info, targets).expectedReturn[k] * (|targets| as real) == SumAt(targets, k)
      {
        assert prev.expectedReturn[k] * (|init| as real) == SumAt(init, k);
        SampleUpdateComponent(prev.(visits := prev.visits + 1), targets[|targets| - 1], k);
      }
    }
  }

  /** The running-average invariant: every component of the expected
      return times the window size is the window's sum, and the window is
      within its bound. */
  predicate WindowMean<A>(w: nat, info: ActionInfo<A>) {
    && |info.window| <= w
    && (forall j :: 0 <= j < |info.window| ==> |info.window[j]| == |info.expectedReturn|)
    && forall k :: 0 <= k < |info.expectedReturn| ==> ComponentMean(info, k)
  }

  /** Component `k` of the expected return times the window size is the
      window's sum at `k`. */
  predicate ComponentMean<A>(info: ActionInfo<A>, k: nat)
    requires k < |info.expectedReturn|
    requires forall j :: 0 <= j < |info.window| ==> |info.window[j]| == |info.expectedReturn|
  {
    info.expectedReturn[k] * (|info.window| as real) == SumAt(info.window, k)
  }

  /** A fresh record (zero return, empty window) satisfies the invariant. */
  lemma FreshWindowMean<A>(w: nat, action: A, players: nat)
    ensures WindowMean(w, FreshInfo(action, players))
  {
  }

  /** Every running-average update keeps the expected return equal to the
      mean of the window and the window within `w` entries. */
  lemma RunningUpdateKeepsWindowMean<A>(w: nat, info: ActionInfo<A>, target: Reward)
    requires w >= 1 && |target| == |info.expectedReturn|
    requires WindowMean(w, info)
    ensures WindowMean(w, RunningUpdate(w, info, target))
  {
    var r := RunningUpdate(w, info, target);
    forall k | 0 <= k < |target|
      ensures ComponentMean(r, k)
    {
      ComponentMeanAfterUpdate(w, info, target, k);
    }
  }

  /** `ComponentMean` for one component, from the invariant before the
      update. */
  lemma ComponentMeanAfterUpdate<A>(w: nat, info: ActionInfo<A>, target: Reward, k: nat)
    requires w >= 1 && |target| == |info.expectedReturn| && k < |target|
    requires WindowMean(w, info)
    ensures ComponentMean(RunningUpdate(w, info, target), k)
  {
    assert ComponentMean(info, k);
    RunningUpdateKeepsComponentMean(w, info, target, k);
  }

  /** The window-mean invariant for one component. */
  lemma RunningUpdateKeepsComponentMean<A>(w: nat, info: ActionInfo<A>, target: Reward, k: nat)
    requires 1 <= w && |info.window| <= w && |target| == |info.expectedReturn| && k < |target|
    requires forall j :: 0 <= j < |info.window| ==> |info.window[j]| == |target|
    requires info.expectedReturn[k] * (|info.window| as real) == SumAt(info.window, k)
    ensures var r := RunningUpdate(w, info, target);
      r.expectedReturn[k] * (|r.window| as real) == SumAt(r.window, k)
  {
    RunningUpdateComponent(w, info, target, k);
    if |info.window| < w {
      GrowingWindowSum(w, info, target, k);
    } else {
      SlidingWindowSum(w, info, target, k);
    }
  }

  lemma GrowingWindowSum<A>(w: nat, info: ActionInfo<A>, target: Reward, k: nat)
    requires |info.window| < w && |target| == |info.expectedReturn| && k < |target|
    requires forall j :: 0 <= j < |info.window| ==> |info.window[j]| == |target|
    requires info.expectedReturn[k] * (|info.window| as real) == SumAt(info.window, k)
    requires RunningUpdate(w, info, target).expectedReturn[k] * ((|info.window| + 1) as real)
             == info.expectedReturn[k] * (|info.window| as real) + target[k]
    ensures var r := RunningUpdate(w, info, target);
      r.expectedReturn[k] * (|r.window| as real) == SumAt(r.window, k)
  {
    var window := info.window + [target];
    assert window[..|window| - 1] == info.window;
    assert SumAt(window, k) == SumAt(info.window, k) + target[k];
  }

  lemma SlidingWindowSum<A>(w: nat, info: ActionInfo<A>, target: Reward, k: nat)
    requires 1 <= w <= |info.window| && |target| == |info.expectedReturn| && k < |target|
    requires forall j :: 0 <= j < |info.window| ==> |info.window[j]| == |target|
    requires |info.window| <= w
    requires info.expectedReturn[k] * (|info.window| as real) == SumAt(info.window, k)
    requires RunningUpdate(w, info, target).expectedReturn[k] * (w as real)
             == info.expectedReturn[k] * (w as real) + target[k] - info.window[0][k]
    ensures var r := RunningUpdate(w, info, target);
      r.expectedReturn[k] * (|r.window| as real) == SumAt(r.window, k)
  {
    var window := info.window + [target];
    assert window[..|window| - 1] == info.window;
    assert SumAt(window, k) == SumAt(info.window, k) + target[k];
    SumAtFront(window, k);
    assert window[0] == info.window[0];
  }
}
