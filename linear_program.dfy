/** The linear program of linear_model_old in entropic/liquidity.py, up to
    the solver call: the variable vector interleaves (output, input) per
    path, so path `i` owns columns `2 * i` (its output) and `2 * i + 1`
    (its input). The equality and inequality matrices, the two indicator
    vectors and the extraction of the inputs from a solution are modelled;
    the solve itself is not. */
module LinearProgram {
  import opened Builtins
  import opened PriorModel

  // ---------------------------------------------------------------------
  // Vectors

  /** Inner product of two vectors of the same length (numpy's `@`). */
  function Dot(u: seq<real>, v: seq<real>): real
    requires |u| == |v|
  {
    if u == [] then 0.0 else u[0] * v[0] + Dot(u[1..], v[1..])
  }

  /** A vector that is zero everywhere contributes nothing. */
  lemma {:induction false} DotZero(u: seq<real>, v: seq<real>)
    requires |u| == |v|
    requires forall k :: 0 <= k < |u| ==> u[k] == 0.0
    ensures Dot(u, v) == 0.0
  {
    if u != [] {
      DotZero(u[1..], v[1..]);
    }
  }

  /** A vector zero everywhere except at `q`. */
  lemma {:induction false} DotSingle(u: seq<real>, v: seq<real>, q: nat)
    requires |u| == |v| && q < |u|
    requires forall k :: 0 <= k < |u| && k != q ==> u[k] == 0.0
    ensures Dot(u, v) == u[q] * v[q]
  {
    if q == 0 {
      DotZero(u[1..], v[1..]);
    } else {
      DotSingle(u[1..], v[1..], q - 1);
    }
  }

  /** A vector zero everywhere except at `p` and `q`. */
  lemma {:induction false} DotPair(u: seq<real>, v: seq<real>, p: nat, q: nat)
    requires |u| == |v| && p < q < |u|
    requires forall k :: 0 <= k < |u| && k != p && k != q ==> u[k] == 0.0
    ensures Dot(u, v) == u[p] * v[p] + u[q] * v[q]
  {
    if p == 0 {
      DotSingle(u[1..], v[1..], q - 1);
    } else {
      DotPair(u[1..], v[1..], p - 1, q - 1);
    }
  }

  /** An integer vector as reals, for taking products with the variables. */
  function Reals(a: seq<int>): (r: seq<real>)
    ensures |r| == |a| && forall k :: 0 <= k < |a| ==> r[k] == a[k] as real
  {
    seq(|a|, k requires 0 <= k < |a| => a[k] as real)
  }

  /** `output_var`: 1 at the even (output) columns, 0 at the odd ones. */
  function OutputIndicator(len: nat): (r: seq<int>)
    ensures |r| == len
  {
    seq(len, k => if k % 2 == 0 then 1 else 0)
  }

  /** `input_var`: 1 at the odd (input) columns, 0 at the even ones. */
  function InputIndicator(len: nat): (r: seq<int>)
    ensures |r| == len
  {
    seq(len, k => if k % 2 == 1 then 1 else 0)
  }

  /** Each column is an output or an input, never both: `output_var` marks
      the even columns and `input_var` the odd ones. */
  lemma IndicatorsMeaning(len: nat, k: nat)
    requires k < len
    ensures OutputIndicator(len)[k] == 1 <==> k % 2 == 0
    ensures InputIndicator(len)[k] == 1 <==> k % 2 == 1
    ensures OutputIndicator(len)[k] + InputIndicator(len)[k] == 1
  {
  }

  /** `x.flatten("F")[1::2]`: the odd-indexed entries, i.e. the input
      variable of every path, in path order. */
  function ExtractInputs(x: seq<real>): (r: seq<real>)
    ensures |r| == |x| / 2
    ensures forall i :: 0 <= i < |r| ==> r[i] == x[2 * i + 1]
  {
    if |x| < 2 then [] else [x[1]] + ExtractInputs(x[2..])
  }

  /** The even-indexed entries: the output variable of every path. */
  function ExtractOutputs(x: seq<real>): (r: seq<real>)
    ensures |r| == (|x| + 1) / 2
    ensures forall i :: 0 <= i < |r| ==> r[i] == x[2 * i]
    decreases |x|
  {
    if |x| == 0 then [] else if |x| == 1 then [x[0]] else [x[0]] + ExtractOutputs(x[2..])
  }

  /** The objective `output_var.T @ x` is the total output over all paths. */
  lemma {:induction false} ObjectiveIsTotalOutput(x: seq<real>)
    requires |x| % 2 == 0
    ensures Dot(Reals(OutputIndicator(|x|)), x) == Sum(ExtractOutputs(x))
    decreases |x|
  {
    if |x| > 0 {
      var rest := x[2..];
      assert Reals(OutputIndicator(|x|))[2..] == Reals(OutputIndicator(|rest|));
      ObjectiveIsTotalOutput(rest);
      assert Reals(OutputIndicator(|x|))[1..][1..] == Reals(OutputIndicator(|x|))[2..];
      assert x[1..][1..] == rest;
    }
  }

  /** The constraint `input_var.T @ x == amt` says the extracted inputs add
      up to the amount. */
  lemma {:induction false} InputConstraintIsTotalInput(x: seq<real>)
    requires |x| % 2 == 0
    ensures Dot(Reals(InputIndicator(|x|)), x) == Sum(ExtractInputs(x))
    decreases |x|
  {
    if |x| > 0 {
      var rest := x[2..];
      assert Reals(InputIndicator(|x|))[2..] == Reals(InputIndicator(|rest|));
      InputConstraintIsTotalInput(rest);
      assert Reals(InputIndicator(|x|))[1..][1..] == Reals(InputIndicator(|x|))[2..];
      assert x[1..][1..] == rest;
    }
  }

  // ---------------------------------------------------------------------
  // The matrices as the source builds them

  /** Entry (i, col) of `equ_matrix`: 1 under path i's output, `+m_i` under
      its input (the source stores the slope with a plus sign). */
  function EqualityEntry(lines: seq<Line>, i: nat, col: nat): real
    requires i < |lines|
  {
    if col == 2 * i then 1.0 else if col == 2 * i + 1 then lines[i].m else 0.0
  }

  /** Entry (i, col) of `inequ_matrix`: 1 under path i's output, `-s_i`
      under its input. */
  function InequalityEntry(lines: seq<Line>, i: nat, col: nat): real
    requires i < |lines|
  {
    if col == 2 * i then 1.0 else if col == 2 * i + 1 then -lines[i].s else 0.0
  }

  /** Row i of the equality matrix. */
  function EqualityRow(lines: seq<Line>, i: nat): (row: seq<real>)
    requires i < |lines|
    ensures |row| == 2 * |lines|
  {
    seq(2 * |lines|, col requires 0 <= col => EqualityEntry(lines, i, col))
  }

  /** Row i of the inequality matrix. */
  function InequalityRow(lines: seq<Line>, i: nat): (row: seq<real>)
    requires i < |lines|
    ensures |row| == 2 * |lines|
  {
    seq(2 * |lines|, col requires 0 <= col => InequalityEntry(lines, i, col))
  }

  /** `y_inter`: the intercepts, the right-hand side of the equalities. */
  function Intercepts(lines: seq<Line>): (r: seq<real>)
    ensures |r| == |lines| && forall i :: 0 <= i < |lines| ==> r[i] == lines[i].c
  {
    seq(|lines|, i requires 0 <= i < |lines| => lines[i].c)
  }

  /** Row i of the equality matrix times `x`: path i's output plus `m_i`
      times its input. */
  lemma EqualityRowMeaning(lines: seq<Line>, i: nat, x: seq<real>)
    requires i < |lines| && |x| == 2 * |lines|
    ensures Dot(EqualityRow(lines, i), x) == x[2 * i] + lines[i].m * x[2 * i + 1]
  {
    DotPair(EqualityRow(lines, i), x, 2 * i, 2 * i + 1);
  }

  /** Row i of the inequality matrix times `x`: path i's output minus `s_i`
      times its input. */
  lemma InequalityRowMeaning(lines: seq<Line>, i: nat, x: seq<real>)
    requires i < |lines| && |x| == 2 * |lines|
    ensures Dot(InequalityRow(lines, i), x) == x[2 * i] - lines[i].s * x[2 * i + 1]
  {
    DotPair(InequalityRow(lines, i), x, 2 * i, 2 * i + 1);
  }

  /** The constraints handed to the solver, read off the built matrices. */
  predicate Feasible(lines: seq<Line>, amt: real, x: seq<real>)
  {
    && |x| == 2 * |lines|
    && (forall i :: 0 <= i < |lines| ==> Dot(EqualityRow(lines, i), x) == Intercepts(lines)[i])
    && (forall i :: 0 <= i < |lines| ==> Dot(InequalityRow(lines, i), x) >= 0.0)
    && Dot(Reals(InputIndicator(|x|)), x) == amt
    && (forall k :: 0 <= k < |x| ==> x[k] >= 0.0)
  }

  /** What the program as built asks of a solution, path by path: output
      plus `m` times input equals the intercept, the output is at least `s`
      times the input, the inputs add up to the amount, nothing is negative. */
  lemma FeasibleMeaning(lines: seq<Line>, amt: real, x: seq<real>)
    requires |x| == 2 * |lines|
    ensures Feasible(lines, amt, x) <==>
              && (forall i :: 0 <= i < |lines| ==> x[2 * i] + lines[i].m * x[2 * i + 1] == lines[i].c)
              && (forall i :: 0 <= i < |lines| ==> x[2 * i] >= lines[i].s * x[2 * i + 1])
              && Sum(ExtractInputs(x)) == amt
              && (forall k :: 0 <= k < |x| ==> x[k] >= 0.0)
  {
    forall i | 0 <= i < |lines|
      ensures Dot(EqualityRow(lines, i), x) == x[2 * i] + lines[i].m * x[2 * i + 1]
      ensures Dot(InequalityRow(lines, i), x) == x[2 * i] - lines[i].s * x[2 * i + 1]
    {
      EqualityRowMeaning(lines, i, x);
      InequalityRowMeaning(lines, i, x);
    }
    InputConstraintIsTotalInput(x);
  }

  /** The construction loop of linear_model_old: zero matrices of shape
      (n, 2n), then row i gets its two entries at columns j and j + 1 with
      the column counter j stepping by 2. Also returns `y_inter` and the two
      indicator vectors. */
  method BuildConstraints(lines: seq<Line>)
    returns (equMatrix: array2<real>, inequMatrix: array2<real>, yInter: seq<real>,
             outputVar: seq<int>, inputVar: seq<int>)
    ensures fresh(equMatrix) && fresh(inequMatrix)
    ensures equMatrix.Length0 == |lines| && equMatrix.Length1 == 2 * |lines|
    ensures inequMatrix.Length0 == |lines| && inequMatrix.Length1 == 2 * |lines|
    ensures forall i, col :: 0 <= i < |lines| && 0 <= col < 2 * |lines| ==>
              equMatrix[i, col] == EqualityRow(lines, i)[col] && inequMatrix[i, col] == InequalityRow(lines, i)[col]
    ensures yInter == Intercepts(lines)
    ensures outputVar == OutputIndicator(2 * |lines|) && inputVar == InputIndicator(2 * |lines|)
  {
    var n := |lines|;
    equMatrix := new real[n, 2 * n]((_, _) => 0.0);
    inequMatrix := new real[n, 2 * n]((_, _) => 0.0);
    yInter := seq(n, i requires 0 <= i < n => lines[i].c);
    outputVar := seq(2 * n, k => if k % 2 == 0 then 1 else 0);
    inputVar := seq(2 * n, k => if k % 2 == 1 then 1 else 0);
    var j := 0;
    var i := 0;
    while i < n
      invariant 0 <= i <= n && j == 2 * i
      invariant forall r, col :: 0 <= r < i && 0 <= col < 2 * n ==>
                  equMatrix[r, col] == EqualityEntry(lines, r, col) && inequMatrix[r, col] == InequalityEntry(lines, r, col)
      invariant forall r, col :: i <= r < n && 0 <= col < 2 * n ==>
                  equMatrix[r, col] == 0.0 && inequMatrix[r, col] == 0.0
    {
      equMatrix[i, j] := 1.0;
      equMatrix[i, j + 1] := lines[i].m;
      inequMatrix[i, j] := 1.0;
      inequMatrix[i, j + 1] := -lines[i].s;
      j := j + 2;
      i := i + 1;
    }
  }

  // ---------------------------------------------------------------------
  // The equality row as documented

  /** Entry (i, col) of the equality matrix as the docstring states the
      constraint, `output_i - m_i * input_i == c_i`: `-m_i` under the input. */
  function IntendedEqualityEntry(lines: seq<Line>, i: nat, col: nat): real
    requires i < |lines|
  {
    if col == 2 * i then 1.0 else if col == 2 * i + 1 then -lines[i].m else 0.0
  }

  /** Row i of the documented equality matrix. */
  function IntendedEqualityRow(lines: seq<Line>, i: nat): (row: seq<real>)
    requires i < |lines|
    ensures |row| == 2 * |lines|
  {
    seq(2 * |lines|, col requires 0 <= col => IntendedEqualityEntry(lines, i, col))
  }

  /** With the documented sign a solution of row i puts path i's output on
      its fitted line: output == m * input + c. */
  lemma IntendedEqualityMeaning(lines: seq<Line>, i: nat, x: seq<real>)
    requires i < |lines| && |x| == 2 * |lines|
    ensures Dot(IntendedEqualityRow(lines, i), x) == lines[i].c <==>
              x[2 * i] == lines[i].m * x[2 * i + 1] + lines[i].c
  {
    DotPair(IntendedEqualityRow(lines, i), x, 2 * i, 2 * i + 1);
  }

  /** The built sign rejects the point the fit describes: for the line
      `y = 2 * x` and an amount of 1, the solution with input 1 and output 2
      satisfies the documented row but not the built one. */
  lemma BuiltEqualityRejectsFittedPoint()
    ensures Dot(IntendedEqualityRow([Line(2.0, 0.0, 0.0)], 0), [2.0, 1.0]) == 0.0
    ensures !Feasible([Line(2.0, 0.0, 0.0)], 1.0, [2.0, 1.0])
  {
    var lines := [Line(2.0, 0.0, 0.0)];
    EqualityRowMeaning(lines, 0, [2.0, 1.0]);
    IntendedEqualityMeaning(lines, 0, [2.0, 1.0]);
  }
}
