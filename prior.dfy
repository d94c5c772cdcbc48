/** Folding the per-edge linear fits of each candidate path into one line
    (prior_to_model in entropic/liquidity.py). Hop `j` of a path is
    approximated by `y = slope[j] * x + intercept[j]`; the path gets one
    slope `m`, one intercept `c` and one tolerated slippage `s`. */
module PriorModel {
  import opened Outcomes
  import opened Builtins

  /** The per-path record `{"m": ..., "c": ..., "s": ...}`. */
  datatype Line = Line(m: real, c: real, s: real)

  /** How many intercepts the closed-form rule reads for a path with `n`
      edges: one, two, or three however long the path is. */
  function InterceptsRead(n: nat): nat
  {
    if n <= 3 then n else 3
  }

  /** The record built for path `i` from the three per-path dicts (modelled
      as lists indexed by path). A missing path index is a KeyError, a short
      list an IndexError, `max` of an empty list a ValueError; the checks
      come in the order Python evaluates the dict literal. */
  function PathLine(slopes: seq<seq<real>>, intercepts: seq<seq<real>>, slippages: seq<seq<real>>, i: nat)
    : (r: Result<Line>)
    requires i < |slopes|
    ensures r.Ok? <==>
              && |slopes[i]| >= 1
              && i < |intercepts| && |intercepts[i]| >= InterceptsRead(|slopes[i]|)
              && i < |slippages| && |slippages[i]| >= 1
  {
    var sl := slopes[i];
    if |sl| == 1 then
      if i >= |intercepts| then Err(KeyError)
      else if |intercepts[i]| < 1 then Err(IndexError)
      else if i >= |slippages| then Err(KeyError)
      else if |slippages[i]| < 1 then Err(IndexError)
      else Ok(Line(Product(sl), intercepts[i][0], slippages[i][0]))
    else if |sl| == 2 then
      if i >= |intercepts| then Err(KeyError)
      else if |intercepts[i]| < 2 then Err(IndexError)
      else if i >= |slippages| then Err(KeyError)
      else if |slippages[i]| == 0 then Err(ValueError)
      else Ok(Line(Product(sl), sl[1] * intercepts[i][0] + intercepts[i][1], Max(slippages[i])))
    else
      if |sl| < 3 then Err(IndexError)
      else if i >= |intercepts| then Err(KeyError)
      else if |intercepts[i]| < 3 then Err(IndexError)
      else if i >= |slippages| then Err(KeyError)
      else if |slippages[i]| == 0 then Err(ValueError)
      else
        var ic := intercepts[i];
        Ok(Line(Product(sl), sl[1] * sl[2] * ic[0] + sl[2] * ic[1] + ic[2], Max(slippages[i])))
  }

  /** The records of the first `n` paths, or the first failure. */
  function PriorLines(slopes: seq<seq<real>>, intercepts: seq<seq<real>>, slippages: seq<seq<real>>, n: nat)
    : (r: Result<seq<Line>>)
    requires n <= |slopes|
    ensures r.Ok? <==> forall i :: 0 <= i < n ==> PathLine(slopes, intercepts, slippages, i).Ok?
    ensures r.Ok? ==> |r.value| == n
    ensures r.Ok? ==> forall i :: 0 <= i < n ==> PathLine(slopes, intercepts, slippages, i) == Ok(r.value[i])
  {
    if n == 0 then Ok([])
    else
      match PriorLines(slopes, intercepts, slippages, n - 1)
      case Err(e) => Err(e)
      case Ok(lines) =>
        match PathLine(slopes, intercepts, slippages, n - 1)
        case Err(e) => Err(e)
        case Ok(line) => Ok(lines + [line])
  }

  /** prior_to_model: one record per path, appended in path order. */
  method PriorToModel(slopes: seq<seq<real>>, intercepts: seq<seq<real>>, slippages: seq<seq<real>>)
    returns (r: Result<seq<Line>>)
    ensures r == PriorLines(slopes, intercepts, slippages, |slopes|)
  {
    var linesList: seq<Line> := [];
    var i := 0;
    while i < |slopes|
      invariant i <= |slopes|
      invariant PriorLines(slopes, intercepts, slippages, i) == Ok(linesList)
    {
      var line := PathLine(slopes, intercepts, slippages, i);
      if line.Err? {
        PriorLinesStayFailed(slopes, intercepts, slippages, i + 1, |slopes|);
        return Err(line.error);
      }
      linesList := linesList + [line.value];
      i := i + 1;
    }
    return Ok(linesList);
  }

  /** A failure on one path is the failure of the whole call. */
  lemma {:induction false} PriorLinesStayFailed(slopes: seq<seq<real>>, intercepts: seq<seq<real>>,
                                                slippages: seq<seq<real>>, i: nat, n: nat)
    requires i <= n <= |slopes|
    requires PriorLines(slopes, intercepts, slippages, i).Err?
    ensures PriorLines(slopes, intercepts, slippages, n) == PriorLines(slopes, intercepts, slippages, i)
    decreases n - i
  {
    if i < n {
      PriorLinesStayFailed(slopes, intercepts, slippages, i + 1, n);
    }
  }

  // ---------------------------------------------------------------------
  // Reference: composing the hops' lines exactly

  /** The line obtained by feeding the first `n` hops' lines into each other:
      hop `j` maps `x` to `slopes[j] * x + intercepts[j]`. Its slope is
      `.0` and its intercept `.1`. */
  function Compose(slopes: seq<real>, intercepts: seq<real>, n: nat): (real, real)
    requires n <= |slopes| && n <= |intercepts|
  {
    if n == 0 then (1.0, 0.0)
    else
      var inner := Compose(slopes, intercepts, n - 1);
      (slopes[n - 1] * inner.0, slopes[n - 1] * inner.1 + intercepts[n - 1])
  }

  /** Pushing `x` through the first `n` hops' lines one after another. */
  function ApplyHops(slopes: seq<real>, intercepts: seq<real>, n: nat, x: real): real
    requires n <= |slopes| && n <= |intercepts|
  {
    if n == 0 then x else slopes[n - 1] * ApplyHops(slopes, intercepts, n - 1, x) + intercepts[n - 1]
  }

  /** The composed line is what the hops do, for every input. */
  lemma {:induction false} ComposeIsApplyHops(slopes: seq<real>, intercepts: seq<real>, n: nat, x: real)
    requires n <= |slopes| && n <= |intercepts|
    ensures Compose(slopes, intercepts, n).0 * x + Compose(slopes, intercepts, n).1
            == ApplyHops(slopes, intercepts, n, x)
  {
    if n > 0 {
      ComposeIsApplyHops(slopes, intercepts, n - 1, x);
      var inner := Compose(slopes, intercepts, n - 1);
      var s := slopes[n - 1];
      assert s * inner.0 * x + (s * inner.1 + intercepts[n - 1])
             == s * (inner.0 * x + inner.1) + intercepts[n - 1];
    }
  }

  /** The composed slope of the first `n` hops is the product of their slopes. */
  lemma {:induction false} ComposeSlopeIsProduct(slopes: seq<real>, intercepts: seq<real>, n: nat)
    requires n <= |slopes| && n <= |intercepts|
    ensures Compose(slopes, intercepts, n).0 == Product(slopes[..n])
  {
    if n > 0 {
      ComposeSlopeIsProduct(slopes, intercepts, n - 1);
      ProductSnoc(slopes[..n - 1], slopes[n - 1]);
      assert slopes[..n] == slopes[..n - 1] + [slopes[n - 1]];
    }
  }

  /** Appending a factor multiplies the product by it. */
  lemma {:induction false} ProductSnoc(s: seq<real>, a: real)
    ensures Product(s + [a]) == a * Product(s)
  {
    if s != [] {
      assert (s + [a])[1..] == s[1..] + [a];
      ProductSnoc(s[1..], a);
    }
  }

  /** What a path's record means. Its slope `m` is the product of all the
      path's slopes. Its intercept `c` is the intercept of the exact
      composition of the first one, two or three hops' lines: for a path of
      four or more edges the later intercepts are ignored. Its slippage is
      the single one of a one-edge path and the largest one otherwise. */
  lemma PathLineMeaning(slopes: seq<seq<real>>, intercepts: seq<seq<real>>, slippages: seq<seq<real>>, i: nat)
    requires i < |slopes| && PathLine(slopes, intercepts, slippages, i).Ok?
    ensures PathLine(slopes, intercepts, slippages, i).value.m == Product(slopes[i])
    ensures PathLine(slopes, intercepts, slippages, i).value.c
            == Compose(slopes[i], intercepts[i], InterceptsRead(|slopes[i]|)).1
    ensures |slopes[i]| == 1 ==> PathLine(slopes, intercepts, slippages, i).value.s == slippages[i][0]
    ensures PathLine(slopes, intercepts, slippages, i).value.s in slippages[i]
    ensures |slopes[i]| >= 2 ==>
              forall x :: x in slippages[i] ==> x <= PathLine(slopes, intercepts, slippages, i).value.s
  {
    var sl, ic := slopes[i], intercepts[i];
    var line := PathLine(slopes, intercepts, slippages, i).value;
    assert slippages[i][0] in slippages[i];
    assert Compose(sl, ic, 0) == (1.0, 0.0);
    assert Compose(sl, ic, 1).1 == ic[0];
    if |sl| >= 2 {
      assert Compose(sl, ic, 2).1 == sl[1] * ic[0] + ic[1];
    }
    if |sl| >= 3 {
      assert Compose(sl, ic, 3).1 == sl[2] * (sl[1] * ic[0] + ic[1]) + ic[2];
      assert sl[2] * (sl[1] * ic[0] + ic[1]) + ic[2] == sl[1] * sl[2] * ic[0] + sl[2] * ic[1] + ic[2];
    }
  }

  /** For a path of one to three edges the record is exact: `m * x + c` is
      the path's output for every input `x` when each hop follows its line.
      The product of all slopes equals the composed slope. */
  lemma ShortPathLineExact(slopes: seq<seq<real>>, intercepts: seq<seq<real>>, slippages: seq<seq<real>>,
                           i: nat, x: real)
    requires i < |slopes| && PathLine(slopes, intercepts, slippages, i).Ok?
    requires |slopes[i]| <= 3
    ensures PathLine(slopes, intercepts, slippages, i).value.m * x + PathLine(slopes, intercepts, slippages, i).value.c
            == ApplyHops(slopes[i], intercepts[i], |slopes[i]|, x)
  {
    var sl, ic := slopes[i], intercepts[i];
    PathLineMeaning(slopes, intercepts, slippages, i);
    ComposeSlopeIsProduct(sl, ic, |sl|);
    assert sl[..|sl|] == sl;
    ComposeIsApplyHops(sl, ic, |sl|, x);
  }

  /** Beyond three edges the record is not the composition: with slopes
      1, 1, 1, 2 and intercepts 0, 0, 0, 1 the hops give `2 * x + 1` but the
      record says `2 * x + 0`. */
  lemma LongPathLineNotExact()
    ensures PathLine([[1.0, 1.0, 1.0, 2.0]], [[0.0, 0.0, 0.0, 1.0]], [[0.5]], 0) == Ok(Line(2.0, 0.0, 0.5))
    ensures ApplyHops([1.0, 1.0, 1.0, 2.0], [0.0, 0.0, 0.0, 1.0], 4, 0.0) == 1.0
  {
    var sl := [1.0, 1.0, 1.0, 2.0];
    assert Product(sl[3..]) == 2.0;
    assert Product(sl[2..]) == 2.0;
    assert Product(sl[1..]) == 2.0;
    assert Product(sl) == 2.0;
    assert Max([0.5]) == 0.5;
  }
}
