/** Post-processing of a solver allocation (process_model_result in
    entropic/liquidity.py): near-zero allocations are folded into the largest
    one, in place, and every surviving allocation is pushed hop by hop
    through the constant-product curve of each pool on its path. */
module PostProcess {
  import opened Outcomes
  import opened Builtins
  import Exchange

  /** A pool on a path, as the post-processing reads it: its total liquidity
      (in units of the asset it pays out) and its exchange rate. */
  datatype Pool = Pool(liquidity: real, rate: real)

  /** Per-path outputs, keyed by path index, and their total. */
  type Outputs = (map<nat, real>, real)

  // ---------------------------------------------------------------------
  // Cleanup: allocations below the threshold move onto the maximal entry

  /** Iteration `i` of the cleanup loop on the current allocation `s`, where
      `mi` is the index of the maximum and `thr` the threshold. The loop reads
      the entry as it is now; when `i == mi` the entry is first doubled and
      then zeroed, exactly as the two assignments do. */
  function CleanStep(s: seq<real>, mi: nat, thr: real, i: nat): (c: seq<real>)
    requires mi < |s| && i < |s|
    ensures |c| == |s|
  {
    if s[i] < thr then s[mi := s[mi] + s[i]][i := 0.0] else s
  }

  /** The allocation after the first `k` iterations of the cleanup loop. */
  function CleanPrefix(s: seq<real>, mi: nat, thr: real, k: nat): (c: seq<real>)
    requires mi < |s| && k <= |s|
    ensures |c| == |s|
    decreases k
  {
    if k == 0 then s else CleanStep(CleanPrefix(s, mi, thr, k - 1), mi, thr, k - 1)
  }

  /** Index of the first maximal allocation, as `actual_var.index(max(actual_var))`. */
  function MaxIndex(s: seq<real>): (mi: nat)
    requires |s| > 0
    ensures mi < |s| && s[mi] == Max(s)
    ensures forall j :: 0 <= j < mi ==> s[j] < s[mi]
  {
    assert forall j :: 0 <= j < |s| ==> s[j] in s;
    IndexOf(s, Max(s))
  }

  /** The cleanup threshold: 1% of the maximum, computed once before the loop. */
  function Threshold(s: seq<real>): real
    requires |s| > 0
  {
    Max(s) * 0.01
  }

  /** The allocation after the whole cleanup loop. */
  function Cleaned(s: seq<real>): (c: seq<real>)
    requires |s| > 0
    ensures |c| == |s|
  {
    CleanPrefix(s, MaxIndex(s), Threshold(s), |s|)
  }

  /** Every entry other than the maximal one is visited once and never touched
      otherwise: after iteration `j` it is zero if it was below the threshold
      and unchanged if not. This holds for any reals. */
  lemma {:induction false} CleanPrefixOther(s: seq<real>, mi: nat, thr: real, k: nat, j: nat)
    requires mi < |s| && k <= |s| && j < |s| && j != mi
    ensures CleanPrefix(s, mi, thr, k)[j] == if j < k && s[j] < thr then 0.0 else s[j]
  {
    if k > 0 {
      CleanPrefixOther(s, mi, thr, k - 1, j);
    }
  }

  /** Sum of the entries before position `k`, other than `mi`, that lie
      below the threshold: what the cleanup moves onto the maximum. */
  function SumBelow(s: seq<real>, mi: nat, thr: real, k: nat): real
    requires k <= |s|
  {
    if k == 0 then 0.0
    else SumBelow(s, mi, thr, k - 1) + (if k - 1 != mi && s[k - 1] < thr then s[k - 1] else 0.0)
  }

  /** Moved amounts are non-negative when the allocation is. */
  lemma {:induction false} SumBelowNonNegative(s: seq<real>, mi: nat, thr: real, k: nat)
    requires k <= |s|
    requires forall x :: x in s ==> x >= 0.0
    ensures SumBelow(s, mi, thr, k) >= 0.0
  {
    if k > 0 {
      SumBelowNonNegative(s, mi, thr, k - 1);
      assert s[k - 1] in s;
    }
  }

  /** For a non-negative allocation whose maximum sits at `mi` and with the
      threshold at or below that maximum, the maximal entry is never zeroed:
      it ends up holding itself plus everything moved onto it. */
  lemma {:induction false} CleanPrefixMax(s: seq<real>, mi: nat, thr: real, k: nat)
    requires mi < |s| && k <= |s|
    requires forall x :: x in s ==> x >= 0.0
    requires thr <= s[mi]
    ensures CleanPrefix(s, mi, thr, k)[mi] == s[mi] + SumBelow(s, mi, thr, k)
  {
    if k > 0 {
      CleanPrefixMax(s, mi, thr, k - 1);
      var cur := CleanPrefix(s, mi, thr, k - 1);
      var i := k - 1;
      SumBelowNonNegative(s, mi, thr, k - 1);
      if i != mi {
        CleanPrefixOther(s, mi, thr, k - 1, i);
        assert cur[i] == s[i];
      } else {
        assert cur[mi] >= thr;
      }
    }
  }

  /** Cleanup moves value and never creates or destroys it, provided every
      allocation is non-negative. */
  lemma {:induction false} CleanPrefixSum(s: seq<real>, mi: nat, thr: real, k: nat)
    requires mi < |s| && k <= |s|
    requires forall x :: x in s ==> x >= 0.0
    requires thr <= s[mi]
    ensures Sum(CleanPrefix(s, mi, thr, k)) == Sum(s)
  {
    if k > 0 {
      CleanPrefixSum(s, mi, thr, k - 1);
      var cur := CleanPrefix(s, mi, thr, k - 1);
      var i := k - 1;
      if i == mi {
        CleanPrefixMax(s, mi, thr, k - 1);
        SumBelowNonNegative(s, mi, thr, k - 1);
        assert cur[i] >= thr;
      } else if cur[i] < thr {
        var moved := cur[mi := cur[mi] + cur[i]];
        SumUpdate(cur, mi, cur[mi] + cur[i]);
        SumUpdate(moved, i, 0.0);
      }
    }
  }

  /** The maximum of a non-negative allocation is at least its 1% threshold. */
  lemma ThresholdBelowMax(s: seq<real>)
    requires |s| > 0
    requires forall x :: x in s ==> x >= 0.0
    ensures 0.0 <= Threshold(s) <= s[MaxIndex(s)]
  {
    assert s[0] in s;
  }

  /** The cleanup of a non-negative allocation preserves its total. */
  lemma CleanupPreservesSum(s: seq<real>)
    requires |s| > 0
    requires forall x :: x in s ==> x >= 0.0
    ensures Sum(Cleaned(s)) == Sum(s)
  {
    ThresholdBelowMax(s);
    CleanPrefixSum(s, MaxIndex(s), Threshold(s), |s|);
  }

  /** The outcome of the cleanup of a non-negative allocation: an entry other
      than the first maximal one is zeroed when it is below 1% of the original
      maximum and kept otherwise; the first maximal entry gains exactly what
      was zeroed. So every entry is 0 or at least the threshold. */
  lemma CleanupOutcome(s: seq<real>)
    requires |s| > 0
    requires forall x :: x in s ==> x >= 0.0
    ensures forall j :: 0 <= j < |s| && j != MaxIndex(s) ==>
              Cleaned(s)[j] == if s[j] < Threshold(s) then 0.0 else s[j]
    ensures Cleaned(s)[MaxIndex(s)] == Max(s) + SumBelow(s, MaxIndex(s), Threshold(s), |s|)
    ensures Cleaned(s)[MaxIndex(s)] >= Max(s)
    ensures forall j :: 0 <= j < |s| ==> Cleaned(s)[j] == 0.0 || Cleaned(s)[j] >= Threshold(s)
  {
    var mi, thr := MaxIndex(s), Threshold(s);
    ThresholdBelowMax(s);
    forall j | 0 <= j < |s| && j != mi
      ensures Cleaned(s)[j] == if s[j] < thr then 0.0 else s[j]
    {
      CleanPrefixOther(s, mi, thr, |s|, j);
    }
    CleanPrefixMax(s, mi, thr, |s|);
    SumBelowNonNegative(s, mi, thr, |s|);
  }

  /** Every intermediate state of the cleanup of a non-negative allocation is
      non-negative. */
  lemma CleanPrefixNonNegative(s: seq<real>, k: nat)
    requires |s| > 0 && k <= |s|
    requires forall x :: x in s ==> x >= 0.0
    ensures forall x :: x in CleanPrefix(s, MaxIndex(s), Threshold(s), k) ==> x >= 0.0
  {
    var mi, thr := MaxIndex(s), Threshold(s);
    var c := CleanPrefix(s, mi, thr, k);
    ThresholdBelowMax(s);
    forall j | 0 <= j < |s|
      ensures c[j] >= 0.0
    {
      if j == mi {
        CleanPrefixMax(s, mi, thr, k);
        SumBelowNonNegative(s, mi, thr, k);
      } else {
        CleanPrefixOther(s, mi, thr, k, j);
        assert s[j] in s;
      }
    }
  }

  /** A negative allocation can break the sum: with `[-10, 5]` the negative
      entry drags the maximum below its threshold, which then doubles it and
      zeroes it, and the total of -5 becomes 0. */
  lemma CleanupNegativeLosesSum()
    ensures Cleaned([-10.0, 5.0]) == [0.0, 0.0]
    ensures Sum([-10.0, 5.0]) == -5.0
  {
    var s := [-10.0, 5.0];
    assert Max(s[1..]) == 5.0;
    assert Max(s) == 5.0;
    assert MaxIndex(s) == 1;
    assert Threshold(s) == 0.05;
    // iteration 0 moves -10 onto the maximum, iteration 1 finds the maximum at -5
    assert CleanPrefix(s, 1, 0.05, 1) == [0.0, -5.0];
    assert CleanPrefix(s, 1, 0.05, 2) == [0.0, -5.0][1 := -10.0][1 := 0.0];
  }

  /** Without non-negativity an entry can also end strictly between 0 and
      the threshold: with `[1, -0.995]` the negative entry is moved onto the
      maximum, which keeps 0.005, below the threshold of 0.01. */
  lemma CleanupNegativeBelowThreshold()
    ensures Cleaned([1.0, -0.995]) == [0.005, 0.0]
    ensures 0.0 < Cleaned([1.0, -0.995])[0] < Threshold([1.0, -0.995])
  {
    var s := [1.0, -0.995];
    assert Max(s[1..]) == -0.995;
    assert Max(s) == 1.0;
    assert MaxIndex(s) == 0;
    assert Threshold(s) == 0.01;
    // iteration 0 is the maximum itself, iteration 1 moves -0.995 onto it
    assert CleanPrefix(s, 0, 0.01, 1) == s;
    assert CleanPrefix(s, 0, 0.01, 2) == s[0 := 0.005][1 := 0.0];
  }

  // ---------------------------------------------------------------------
  // Output estimate: each allocation routed through its path

  /** One hop: the pool is split into `0.5 * liquidity / rate` of the asset
      paid in and `0.5 * liquidity` of the asset paid out, and `amt` is
      exchanged on the constant-product curve. Division by zero fails. */
  function Hop(amt: real, p: Pool): (r: Result<real>)
    ensures r.Ok? <==> p.rate != 0.0 && 0.5 * p.liquidity / p.rate + amt != 0.0
  {
    if p.rate == 0.0 then Err(ZeroDivisionError)
    else
      var a := (0.5 * p.liquidity) / p.rate;
      var b := 0.5 * p.liquidity;
      if a + amt == 0.0 then Err(ZeroDivisionError)
      else Ok(Exchange.ExchangeFunction(amt, a, b))
  }

  /** A hop that succeeds yields the exchange curve's value, written out as
      the output loop computes it. */
  lemma HopValue(amt: real, p: Pool, a: real, b: real, k: real)
    requires p.rate != 0.0 && a == (0.5 * p.liquidity) / p.rate && b == 0.5 * p.liquidity
    requires k == a * b && a + amt != 0.0
    ensures Hop(amt, p) == Ok(b - (k / (a + amt)))
  {
    Exchange.ExchangeWrittenOut(amt, a, b, k);
  }

  /** The amount that leaves the last pool of `path` when `amt` enters the
      first one, hop by hop in path order. */
  function Route(amt: real, path: seq<Pool>): Result<real>
    decreases |path|
  {
    if path == [] then Ok(amt)
    else
      match Route(amt, path[..|path| - 1])
      case Err(e) => Err(e)
      case Ok(v) => Hop(v, path[|path| - 1])
  }

  /** A pool the post-processing can always pass through. */
  predicate Healthy(p: Pool)
  {
    p.liquidity > 0.0 && p.rate > 0.0
  }

  /** Through healthy pools a non-negative amount always routes; the result is
      non-negative, zero exactly for a zero input, and below what the last
      pool holds of its output asset. */
  lemma {:induction false} RouteSucceeds(amt: real, path: seq<Pool>)
    requires amt >= 0.0
    requires forall p :: p in path ==> Healthy(p)
    ensures Route(amt, path).Ok?
    ensures Route(amt, path).value >= 0.0
    ensures Route(amt, path).value == 0.0 <==> amt == 0.0
    ensures path != [] ==> Route(amt, path).value < 0.5 * path[|path| - 1].liquidity
  {
    if path != [] {
      var init := path[..|path| - 1];
      var last := path[|path| - 1];
      assert forall p :: p in init ==> p in path;
      RouteSucceeds(amt, init);
      var v := Route(amt, init).value;
      assert last in path;
      var a := (0.5 * last.liquidity) / last.rate;
      assert a > 0.0;
      Exchange.ExchangeBounds(v, a, 0.5 * last.liquidity);
    }
  }

  /** Through healthy pools, more in gives strictly more out. */
  lemma {:induction false} RouteStrictlyIncreasing(amt1: real, amt2: real, path: seq<Pool>)
    requires 0.0 <= amt1 < amt2
    requires forall p :: p in path ==> Healthy(p)
    ensures Route(amt1, path).Ok? && Route(amt2, path).Ok?
    ensures Route(amt1, path).value < Route(amt2, path).value
  {
    RouteSucceeds(amt1, path);
    RouteSucceeds(amt2, path);
    if path != [] {
      var init := path[..|path| - 1];
      var last := path[|path| - 1];
      assert forall p :: p in init ==> p in path;
      RouteStrictlyIncreasing(amt1, amt2, init);
      RouteSucceeds(amt1, init);
      assert last in path;
      var a := (0.5 * last.liquidity) / last.rate;
      assert a > 0.0;
      Exchange.ExchangeStrictlyIncreasing(Route(amt1, init).value, Route(amt2, init).value, a, 0.5 * last.liquidity);
    }
  }

  /** Routing through one more pool of the path is one more hop. */
  lemma RouteExtend(amt: real, path: seq<Pool>, j: nat, v: real)
    requires j < |path| && Route(amt, path[..j]) == Ok(v)
    ensures Route(amt, path[..j + 1]) == Hop(v, path[j])
  {
    assert path[..j + 1][..j] == path[..j];
  }

  /** A failure on a prefix of the path is a failure of the whole route. */
  lemma {:induction false} RoutePrefixFails(amt: real, path: seq<Pool>, j: nat)
    requires j <= |path|
    requires Route(amt, path[..j]).Err?
    ensures Route(amt, path) == Route(amt, path[..j])
    decreases |path| - j
  {
    if j < |path| {
      assert path[..j + 1][..j] == path[..j];
      RoutePrefixFails(amt, path, j + 1);
    } else {
      assert path[..j] == path;
    }
  }

  /** The output block over the first `i` paths: every path whose allocation
      is non-zero gets the routed amount; reading past the allocation list
      fails, as does a division by zero on the way. */
  function EstimateUpTo(paths: seq<seq<Pool>>, s: seq<real>, i: nat): Result<map<nat, real>>
    requires i <= |paths|
  {
    if i == 0 then Ok(map[])
    else
      match EstimateUpTo(paths, s, i - 1)
      case Err(e) => Err(e)
      case Ok(m) =>
        if i - 1 >= |s| then Err(IndexError)
        else if s[i - 1] != 0.0 then
          match Route(s[i - 1], paths[i - 1])
          case Err(e) => Err(e)
          case Ok(v) => Ok(m[i - 1 := v])
        else Ok(m)
  }

  /** The output block over the first `i` paths succeeds exactly when the
      allocation list is long enough and every non-zero allocation routes;
      it then maps exactly the paths with a non-zero allocation, each to its
      routed amount. */
  lemma {:induction false} EstimateUpToMeaning(paths: seq<seq<Pool>>, s: seq<real>, i: nat)
    requires i <= |paths|
    ensures var r := EstimateUpTo(paths, s, i);
      && (r.Ok? <==> i <= |s| && forall j :: 0 <= j < i && s[j] != 0.0 ==> Route(s[j], paths[j]).Ok?)
      && (r.Ok? ==> r.value.Keys == set j: nat | j < i && s[j] != 0.0)
      && (r.Ok? ==> forall j :: j in r.value ==> Route(s[j], paths[j]) == Ok(r.value[j]))
  {
    if i > 0 {
      EstimateUpToMeaning(paths, s, i - 1);
    }
  }

  /** The output block over all paths. */
  function Estimate(paths: seq<seq<Pool>>, s: seq<real>): Result<map<nat, real>>
  {
    EstimateUpTo(paths, s, |paths|)
  }

  /** Once the output block has failed on some path, it fails. */
  lemma {:induction false} EstimateStaysFailed(paths: seq<seq<Pool>>, s: seq<real>, i: nat, n: nat)
    requires i <= n <= |paths|
    requires EstimateUpTo(paths, s, i).Err?
    ensures EstimateUpTo(paths, s, n) == EstimateUpTo(paths, s, i)
    decreases n - i
  {
    if i < n {
      EstimateStaysFailed(paths, s, i + 1, n);
    }
  }

  /** `sum(asset_amount.values())` for a dict keyed by path indices below `n`. */
  function SumValues(m: map<nat, real>, n: nat): real
  {
    if n == 0 then 0.0
    else SumValues(m, n - 1) + (if n - 1 in m then m[n - 1] else 0.0)
  }

  // ---------------------------------------------------------------------
  // The loop as written: the output block runs inside every cleanup iteration

  /** Outcome of the first `k` (>= 1) iterations of the cleanup loop, each of
      which ends with the output block, and how many iterations ran: the
      first failing block ends the call. */
  function RunUpTo(paths: seq<seq<Pool>>, s: seq<real>, k: nat): (r: (Result<map<nat, real>>, nat))
    requires 1 <= k <= |s|
    ensures 1 <= r.1 <= k
  {
    var state := CleanPrefix(s, MaxIndex(s), Threshold(s), k);
    if k == 1 then (Estimate(paths, state), 1)
    else
      var prev := RunUpTo(paths, s, k - 1);
      if prev.0.Err? then prev else (Estimate(paths, state), k)
  }

  /** What process_model_result returns and leaves in `actual_var`, for paths
      `paths` and allocation `s`, with the output block where the source
      puts it. */
  function ProcessedAsWritten(paths: seq<seq<Pool>>, s: seq<real>): (r: (Result<Outputs>, seq<real>))
  {
    if |s| == 0 then (Err(ValueError), s)
    else
      var run := RunUpTo(paths, s, |s|);
      var state := CleanPrefix(s, MaxIndex(s), Threshold(s), run.1);
      match run.0
      case Err(e) => (Err(e), state)
      case Ok(m) => (Ok((m, SumValues(m, |paths|))), state)
  }

  /** After a successful iteration the next one runs its output block on the
      next cleanup state. */
  lemma RunNext(paths: seq<seq<Pool>>, s: seq<real>, i: nat)
    requires 0 <= i < |s|
    requires i >= 1 ==> RunUpTo(paths, s, i).0.Ok?
    ensures RunUpTo(paths, s, i + 1) == (Estimate(paths, CleanPrefix(s, MaxIndex(s), Threshold(s), i + 1)), i + 1)
  {
  }

  /** Once an iteration has failed, later iterations do not run. */
  lemma {:induction false} RunStaysFailed(paths: seq<seq<Pool>>, s: seq<real>, i: nat, n: nat)
    requires 1 <= i <= n <= |s|
    requires RunUpTo(paths, s, i).0.Err?
    ensures RunUpTo(paths, s, n) == RunUpTo(paths, s, i)
    decreases n - i
  {
    if i < n {
      RunStaysFailed(paths, s, i + 1, n);
    }
  }

  /** A successful run has gone through all iterations, so its result is the
      output block on the fully cleaned allocation. */
  lemma {:induction false} RunOkRanAll(paths: seq<seq<Pool>>, s: seq<real>, k: nat)
    requires 1 <= k <= |s|
    requires RunUpTo(paths, s, k).0.Ok?
    ensures RunUpTo(paths, s, k) == (Estimate(paths, CleanPrefix(s, MaxIndex(s), Threshold(s), k)), k)
  {
  }

  /** When process_model_result succeeds, `actual_var` holds the cleaned
      allocation, the dict has exactly the paths whose cleaned allocation is
      non-zero, each value is that allocation routed through the path, and
      the second result is their total. */
  lemma ProcessedOutcome(paths: seq<seq<Pool>>, s: seq<real>)
    requires ProcessedAsWritten(paths, s).0.Ok?
    ensures |s| > 0 && |paths| <= |s|
    ensures ProcessedAsWritten(paths, s).1 == Cleaned(s)
    ensures ProcessedAsWritten(paths, s).0.value.0.Keys == set j: nat | j < |paths| && Cleaned(s)[j] != 0.0
    ensures forall j :: j in ProcessedAsWritten(paths, s).0.value.0 ==>
              Route(Cleaned(s)[j], paths[j]) == Ok(ProcessedAsWritten(paths, s).0.value.0[j])
    ensures ProcessedAsWritten(paths, s).0.value.1 == SumValues(ProcessedAsWritten(paths, s).0.value.0, |paths|)
  {
    RunOkRanAll(paths, s, |s|);
    EstimateUpToMeaning(paths, Cleaned(s), |paths|);
  }

  /** Well-formed input always succeeds: a non-empty, non-negative
      allocation with at least as many entries as paths, over healthy pools. */
  lemma ProcessSucceeds(paths: seq<seq<Pool>>, s: seq<real>)
    requires |s| > 0 && |paths| <= |s|
    requires forall x :: x in s ==> x >= 0.0
    requires forall path, p :: path in paths && p in path ==> Healthy(p)
    ensures ProcessedAsWritten(paths, s).0.Ok?
  {
    forall k | 1 <= k <= |s|
      ensures Estimate(paths, CleanPrefix(s, MaxIndex(s), Threshold(s), k)).Ok?
    {
      var c := CleanPrefix(s, MaxIndex(s), Threshold(s), k);
      CleanPrefixNonNegative(s, k);
      EstimateUpToMeaning(paths, c, |paths|);
      forall j | 0 <= j < |paths| && c[j] != 0.0
        ensures Route(c[j], paths[j]).Ok?
      {
        assert c[j] in c;
        assert paths[j] in paths;
        RouteSucceeds(c[j], paths[j]);
      }
    }
    RunAllOk(paths, s, |s|);
  }

  /** If every iteration's output block succeeds, the run succeeds. */
  lemma {:induction false} RunAllOk(paths: seq<seq<Pool>>, s: seq<real>, k: nat)
    requires 1 <= k <= |s|
    requires forall i :: 1 <= i <= |s| ==> Estimate(paths, CleanPrefix(s, MaxIndex(s), Threshold(s), i)).Ok?
    ensures RunUpTo(paths, s, k).0.Ok?
  {
    if k > 1 {
      RunAllOk(paths, s, k - 1);
    }
  }

  // ---------------------------------------------------------------------
  // The output block run once, after the cleanup loop

  /** process_model_result with the output block after the cleanup loop
      instead of inside it: the allocation is cleaned completely, then
      routed once. */
  function ProcessedOnce(paths: seq<seq<Pool>>, s: seq<real>): (Result<Outputs>, seq<real>)
  {
    if |s| == 0 then (Err(ValueError), s)
    else
      var c := Cleaned(s);
      match Estimate(paths, c)
      case Err(e) => (Err(e), c)
      case Ok(m) => (Ok((m, SumValues(m, |paths|))), c)
  }

  /** The single output block succeeds exactly when there is an allocation
      for every path and each non-zero cleaned allocation routes through its
      path; it then reports exactly those routed amounts and their total. */
  lemma ProcessedOnceMeaning(paths: seq<seq<Pool>>, s: seq<real>)
    requires |s| > 0
    ensures ProcessedOnce(paths, s).1 == Cleaned(s)
    ensures ProcessedOnce(paths, s).0.Ok? <==>
      |paths| <= |s| && forall j :: 0 <= j < |paths| && Cleaned(s)[j] != 0.0 ==> Route(Cleaned(s)[j], paths[j]).Ok?
    ensures ProcessedOnce(paths, s).0.Ok? ==>
      var m := ProcessedOnce(paths, s).0.value.0;
      && m.Keys == (set j: nat | j < |paths| && Cleaned(s)[j] != 0.0)
      && (forall j :: j in m ==> Route(Cleaned(s)[j], paths[j]) == Ok(m[j]))
      && ProcessedOnce(paths, s).0.value.1 == SumValues(m, |paths|)
  {
    EstimateUpToMeaning(paths, Cleaned(s), |paths|);
  }

  /** A non-negative allocation with one entry per path succeeds as soon as
      the pools on the paths that keep a non-zero allocation are healthy;
      pools on paths whose allocation the cleanup zeroes are never read. */
  lemma ProcessedOnceSucceeds(paths: seq<seq<Pool>>, s: seq<real>)
    requires |s| > 0 && |paths| <= |s|
    requires forall x :: x in s ==> x >= 0.0
    requires forall j, p :: 0 <= j < |paths| && Cleaned(s)[j] != 0.0 && p in paths[j] ==> Healthy(p)
    ensures ProcessedOnce(paths, s).0.Ok?
  {
    var c := Cleaned(s);
    CleanPrefixNonNegative(s, |s|);
    ProcessedOnceMeaning(paths, s);
    forall j | 0 <= j < |paths| && c[j] != 0.0
      ensures Route(c[j], paths[j]).Ok?
    {
      assert c[j] in c;
      RouteSucceeds(c[j], paths[j]);
    }
  }

  /** Whenever the code as written succeeds, it returns and leaves what the
      single output block would. */
  lemma AsWrittenAgreesWhenOk(paths: seq<seq<Pool>>, s: seq<real>)
    requires ProcessedAsWritten(paths, s).0.Ok?
    ensures ProcessedOnce(paths, s) == ProcessedAsWritten(paths, s)
  {
    RunOkRanAll(paths, s, |s|);
  }

  /** The output block inside the loop also routes allocations that a later
      iteration zeroes: with paths `[[Pool(2, 1)], [Pool(2, 0)]]` and
      allocation `[100, 0.001]`, the first iteration routes 0.001 through a
      pool of rate 0 and raises ZeroDivisionError, while the cleaned
      allocation `[100.001, 0]` never touches that pool. */
  lemma OutputBlockInsideLoopFails()
    ensures var paths, s := [[Pool(2.0, 1.0)], [Pool(2.0, 0.0)]], [100.0, 0.001];
      && ProcessedAsWritten(paths, s).0 == Err(ZeroDivisionError)
      && ProcessedOnce(paths, s).0.Ok?
  {
    var paths, s := [[Pool(2.0, 1.0)], [Pool(2.0, 0.0)]], [100.0, 0.001];
    assert Max(s[1..]) == 0.001;
    assert Max(s) == 100.0;
    assert MaxIndex(s) == 0;
    assert Threshold(s) == 1.0;
    assert CleanPrefix(s, 0, 1.0, 1) == s;
    assert Route(100.0, paths[0]).Ok? by {
      assert paths[0][..0] == [];
    }
    assert Route(0.001, paths[1]) == Err(ZeroDivisionError) by {
      assert paths[1][..0] == [];
    }
    assert EstimateUpTo(paths, s, 1).Ok?;
    assert Estimate(paths, s) == Err(ZeroDivisionError);
    assert RunUpTo(paths, s, 1) == (Err(ZeroDivisionError), 1);
    var c := [100.001, 0.0];
    assert Cleaned(s) == c;
    assert Route(100.001, paths[0]).Ok? by {
      assert paths[0][..0] == [];
    }
    assert EstimateUpTo(paths, c, 1).Ok?;
    assert Estimate(paths, c).Ok?;
  }

  // ---------------------------------------------------------------------
  // The imperative code

  /** The nested output loops over the current allocation. */
  method EstimateOutputs(paths: seq<seq<Pool>>, actualVar: array<real>) returns (r: Result<map<nat, real>>)
    ensures r == Estimate(paths, actualVar[..])
  {
    var assetAmount: map<nat, real> := map[];
    var i := 0;
    while i < |paths|
      invariant i <= |paths|
      invariant EstimateUpTo(paths, actualVar[..], i) == Ok(assetAmount)
    {
      if i >= actualVar.Length {
        EstimateStaysFailed(paths, actualVar[..], i + 1, |paths|);
        return Err(IndexError);
      }
      if actualVar[i] != 0.0 {
        var path := paths[i];
        ghost var amt := actualVar[i];
        var amount := actualVar[i];
        var j := 0;
        while j < |path|
          invariant j <= |path|
          invariant Route(amt, path[..j]) == Ok(amount)
        {
          var edge := path[j];
          RouteExtend(amt, path, j, amount);
          if edge.rate == 0.0 {
            RoutePrefixFails(amt, path, j + 1);
            EstimateStaysFailed(paths, actualVar[..], i + 1, |paths|);
            return Err(ZeroDivisionError);
          }
          var assetA := (0.5 * edge.liquidity) / edge.rate;
          var assetB := 0.5 * edge.liquidity;
          if assetA + amount == 0.0 {
            RoutePrefixFails(amt, path, j + 1);
            EstimateStaysFailed(paths, actualVar[..], i + 1, |paths|);
            return Err(ZeroDivisionError);
          }
          var k := assetA * assetB;
          HopValue(amount, edge, assetA, assetB, k);
          amount := assetB - (k / (assetA + amount));
          j := j + 1;
        }
        assert path[..j] == path;
        assetAmount := assetAmount[i := amount];
      }
      i := i + 1;
    }
    return Ok(assetAmount);
  }

  /** process_model_result: cleans `actualVar` in place and returns the
      per-path outputs and their total, with the output block inside the
      cleanup loop as the source has it. */
  method ProcessModelResult(paths: seq<seq<Pool>>, actualVar: array<real>) returns (r: Result<Outputs>)
    modifies actualVar
    ensures (r, actualVar[..]) == ProcessedAsWritten(paths, old(actualVar[..]))
  {
    ghost var s := actualVar[..];
    if actualVar.Length == 0 {
      return Err(ValueError);
    }
    var maxValue := Max(actualVar[..]);
    var maxIndex := IndexOf(actualVar[..], maxValue);
    var threshold := maxValue * 0.01;
    assert maxIndex == MaxIndex(s) && threshold == Threshold(s);
    var assetAmount: map<nat, real> := map[];
    var i := 0;
    while i < actualVar.Length
      invariant 0 <= i <= actualVar.Length
      invariant actualVar[..] == CleanPrefix(s, maxIndex, threshold, i)
      invariant i >= 1 ==> RunUpTo(paths, s, i) == (Ok(assetAmount), i)
    {
      ghost var before := actualVar[..];
      if actualVar[i] < threshold {
        actualVar[maxIndex] := actualVar[maxIndex] + actualVar[i];
        assert actualVar[..] == before[maxIndex := before[maxIndex] + before[i]];
        actualVar[i] := 0.0;
      }
      assert actualVar[..] == CleanStep(before, maxIndex, threshold, i);
      ghost var state := actualVar[..];
      assert state == CleanPrefix(s, maxIndex, threshold, i + 1);
      var estimate := EstimateOutputs(paths, actualVar);
      assert RunUpTo(paths, s, i + 1) == (estimate, i + 1) by {
        RunNext(paths, s, i);
      }
      if estimate.Err? {
        RunStaysFailed(paths, s, i + 1, |s|);
        return Err(estimate.error);
      }
      assetAmount := estimate.value;
      i := i + 1;
    }
    assert RunUpTo(paths, s, |s|) == (Ok(assetAmount), |s|);
    return Ok((assetAmount, SumValues(assetAmount, |paths|)));
  }
}
