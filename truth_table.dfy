/** `generateTruthTable` (index.js:33-51): one row per assignment of the
    variables, 2^n of them, row i giving the k-th variable bit (n-1-k) of i,
    followed by one value per subexpression. */
module TruthTable {
  import opened OrderedSets

  /** A row object: its keys are the variable names and the subexpression
      texts, its values booleans. */
  type Row = map<string, bool>

  /** `evaluateExpression(expression, row)`. The source rewrites the text and
      runs it with `new Function`; here it is a parameter. It receives the row
      as filled so far: the variables and the subexpressions before it. */
  type Evaluator = (string, Row) -> bool

  /** `Math.pow(2, n)`, exact for the small n that occur. */
  function Pow2(n: nat): (r: nat)
    ensures r >= 1
  {
    if n == 0 then 1 else 2 * Pow2(n - 1)
  }

  /** A longer variable list never gives fewer rows. */
  lemma {:induction false} Pow2Monotone(m: nat, n: nat)
    requires m <= n
    ensures Pow2(m) <= Pow2(n)
    decreases n
  {
    if m < n {
      Pow2Monotone(m, n - 1);
    }
  }

  /** `i >> p` for a non-negative i: p halvings, rounding down. */
  function ShiftRight(i: nat, p: nat): nat {
    if p == 0 then i else ShiftRight(i / 2, p - 1)
  }

  /** `Boolean((i >> p) & 1)`: bit p of i. */
  predicate Bit(i: nat, p: nat) {
    ShiftRight(i, p) % 2 == 1
  }

  /** The row object after the variables loop of row i has run over the first
      k variables: variable `vars[index]` gets bit (n - index - 1) of i. */
  function AssignVariables(vars: seq<char>, i: nat, k: nat): Row
    requires k <= |vars|
  {
    if k == 0 then map[]
    else AssignVariables(vars, i, k - 1)[[vars[k - 1]] := Bit(i, |vars| - k)]
  }

  /** The row object after the expressions loop has evaluated `exprs`, one
      after another, each against the row as it stands at that moment. */
  function FillColumns(row: Row, exprs: seq<string>, eval: Evaluator): Row
    decreases |exprs|
  {
    if exprs == [] then row
    else FillColumns(row[exprs[0] := eval(exprs[0], row)], exprs[1..], eval)
  }

  /** Row i of the table. */
  function TableRow(vars: seq<char>, exprs: seq<string>, eval: Evaluator, i: nat): Row {
    FillColumns(AssignVariables(vars, i, |vars|), exprs, eval)
  }

  /** index.js:33-51: rows for i = 0 .. 2^n - 1, pushed in that order; each
      row is filled variable by variable, then expression by expression. */
  method GenerateTruthTable(variables: seq<char>, expressions: seq<string>, eval: Evaluator)
    returns (table: seq<Row>)
    ensures |table| == Pow2(|variables|)
    ensures forall i :: 0 <= i < |table| ==> table[i] == TableRow(variables, expressions, eval, i)
  {
    var numRows := Pow2(|variables|);
    table := [];
    for i := 0 to numRows
      invariant |table| == i
      invariant forall r :: 0 <= r < i ==> table[r] == TableRow(variables, expressions, eval, r)
    {
      var row: Row := map[];
      for index := 0 to |variables|
        invariant row == AssignVariables(variables, i, index)
      {
        row := row[[variables[index]] := Bit(i, |variables| - index - 1)];
      }
      for j := 0 to |expressions|
        invariant FillColumns(row, expressions[j..], eval) == TableRow(variables, expressions, eval, i)
      {
        assert expressions[j..][1..] == expressions[j + 1..];
        row := row[expressions[j] := eval(expressions[j], row)];
      }
      assert expressions[|expressions|..] == [];
      table := table + [row];
    }
  }

  /** The values of the variables in row i, first variable first. */
  function AssignmentBits(n: nat, i: nat): seq<bool> {
    seq(n, k requires 0 <= k < n => Bit(i, n - 1 - k))
  }

  /** A list of booleans read as a binary number, most significant first. */
  function FromBits(bs: seq<bool>): nat {
    if bs == [] then 0 else 2 * FromBits(bs[..|bs| - 1]) + (if bs[|bs| - 1] then 1 else 0)
  }

  /** After the variables loop has run over the first k variables, every key
      of the row is the name of one of them. */
  lemma {:induction false} AssignVariablesKeys(vars: seq<char>, i: nat, k: nat)
    requires k <= |vars|
    ensures forall key :: key in AssignVariables(vars, i, k) ==> |key| == 1 && key[0] in vars[..k]
  {
    if k > 0 {
      AssignVariablesKeys(vars, i, k - 1);
      assert vars[..k] == vars[..k - 1] + [vars[k - 1]];
    }
  }

  /** After the variables loop has run over the first k variables, each of
      them is a key of the row, and variable l holds bit (n-1-l) of i. */
  lemma {:induction false} AssignVariablesSpec(vars: seq<char>, i: nat, k: nat)
    requires Distinct(vars) && k <= |vars|
    ensures forall l :: 0 <= l < k ==>
              [vars[l]] in AssignVariables(vars, i, k) &&
              AssignVariables(vars, i, k)[[vars[l]]] == AssignmentBits(|vars|, i)[l]
  {
    if k > 0 {
      AssignVariablesSpec(vars, i, k - 1);
      var row := AssignVariables(vars, i, k);
      assert row == AssignVariables(vars, i, k - 1)[[vars[k - 1]] := AssignmentBits(|vars|, i)[k - 1]];
      forall l | 0 <= l < k - 1
        ensures [vars[l]] in row && row[[vars[l]]] == AssignmentBits(|vars|, i)[l]
      {
        assert [vars[l]] != [vars[k - 1]] by {
          assert vars[l] != vars[k - 1];
        }
      }
    }
  }

  /** Reading row i's variable values as a binary number, the first variable
      the most significant bit, gives back i: rows run in counting order and
      no two rows have the same assignment. */
  lemma {:induction false} AssignmentBitsValue(n: nat, i: nat)
    requires i < Pow2(n)
    ensures FromBits(AssignmentBits(n, i)) == i
  {
    if n > 0 {
      AssignmentBitsValue(n - 1, i / 2);
      var bs := AssignmentBits(n, i);
      assert bs[..n - 1] == AssignmentBits(n - 1, i / 2) by {
        forall k | 0 <= k < n - 1 ensures bs[k] == Bit(i / 2, n - 2 - k) {
          assert bs[k] == Bit(i, n - 1 - k);
          assert ShiftRight(i, n - 1 - k) == ShiftRight(i / 2, n - 2 - k);
        }
      }
      assert bs[n - 1] == Bit(i, 0) && ShiftRight(i, 0) == i;
    }
  }

  /** Different rows of the table have different variable assignments. */
  lemma AssignmentsDistinct(n: nat, i: nat, j: nat)
    requires i < Pow2(n) && j < Pow2(n) && i != j
    ensures AssignmentBits(n, i) != AssignmentBits(n, j)
  {
    AssignmentBitsValue(n, i);
    AssignmentBitsValue(n, j);
  }

  lemma {:induction false} ShiftZero(p: nat)
    ensures ShiftRight(0, p) == 0
  {
    if p > 0 {
      ShiftZero(p - 1);
    }
  }

  lemma {:induction false} ShiftAllOnes(n: nat, p: nat)
    requires p <= n
    ensures ShiftRight(Pow2(n) - 1, p) == Pow2(n - p) - 1
  {
    if p > 0 {
      assert (Pow2(n) - 1) / 2 == Pow2(n - 1) - 1;
      ShiftAllOnes(n - 1, p - 1);
    }
  }

  /** Row 0 makes every variable false. */
  lemma FirstRowAllFalse(n: nat)
    ensures AssignmentBits(n, 0) == seq(n, _ => false)
  {
    forall k | 0 <= k < n ensures !AssignmentBits(n, 0)[k] {
      assert AssignmentBits(n, 0)[k] == Bit(0, n - 1 - k);
      ShiftZero(n - 1 - k);
    }
  }

  /** Row 2^n - 1 makes every variable true. */
  lemma LastRowAllTrue(n: nat)
    ensures AssignmentBits(n, Pow2(n) - 1) == seq(n, _ => true)
  {
    var last: nat := Pow2(n) - 1;
    forall k | 0 <= k < n ensures AssignmentBits(n, last)[k] {
      var p: nat := n - 1 - k;
      assert AssignmentBits(n, last)[k] == Bit(last, p);
      ShiftAllOnes(n, p);
      AllOnesOdd(n - p);
    }
  }

  lemma AllOnesOdd(m: nat)
    requires m >= 1
    ensures (Pow2(m) - 1) % 2 == 1
  {
    OddAfterDouble(Pow2(m) - 1, Pow2(m - 1));
  }

  lemma OddAfterDouble(x: int, h: int)
    requires x == 2 * h - 1
    ensures x % 2 == 1
  {
  }

  /** The expressions loop adds one key per expression and leaves every
      other key as it was. */
  lemma {:induction false} FillColumnsKeeps(row: Row, exprs: seq<string>, eval: Evaluator)
    ensures FillColumns(row, exprs, eval).Keys == row.Keys + set e | e in exprs
    ensures forall key :: key in row && key !in exprs ==> FillColumns(row, exprs, eval)[key] == row[key]
    decreases |exprs|
  {
    if exprs != [] {
      FillColumnsKeeps(row[exprs[0] := eval(exprs[0], row)], exprs[1..], eval);
      assert exprs == [exprs[0]] + exprs[1..];
    }
  }

  /** With no repeated expression, the column of expression j holds its value
      against the row as it stood when j was reached: the variables and the
      columns of expressions 0 .. j-1. */
  lemma {:induction false} FillColumnsValue(row: Row, exprs: seq<string>, eval: Evaluator, j: nat)
    requires Distinct(exprs) && j < |exprs|
    ensures exprs[j] in FillColumns(row, exprs, eval)
    ensures FillColumns(row, exprs, eval)[exprs[j]] == eval(exprs[j], FillColumns(row, exprs[..j], eval))
    decreases j
  {
    var row' := row[exprs[0] := eval(exprs[0], row)];
    FillColumnsKeeps(row, exprs, eval);
    if j == 0 {
      FillColumnsKeeps(row', exprs[1..], eval);
      assert exprs[0] !in exprs[1..] by {
        forall k | 0 <= k < |exprs[1..]| ensures exprs[1..][k] != exprs[0] {
          assert exprs[1..][k] == exprs[k + 1];
        }
      }
    } else {
      FillColumnsValue(row', exprs[1..], eval, j - 1);
      assert exprs[..j][1..] == exprs[1..][..j - 1];
      assert exprs[1..][j - 1] == exprs[j];
    }
  }

  /** In row i, a variable that is not also the text of an expression holds
      bit (n-1-k) of i. */
  lemma RowVariable(vars: seq<char>, exprs: seq<string>, eval: Evaluator, i: nat, k: nat)
    requires Distinct(vars) && k < |vars| && [vars[k]] !in exprs
    ensures [vars[k]] in TableRow(vars, exprs, eval, i)
    ensures TableRow(vars, exprs, eval, i)[[vars[k]]] == Bit(i, |vars| - 1 - k)
  {
    AssignVariablesSpec(vars, i, |vars|);
    assert vars[..|vars|] == vars;
    FillColumnsKeeps(AssignVariables(vars, i, |vars|), exprs, eval);
  }

  /** Row 0 of the table makes false every variable whose name is not also
      the text of an expression. */
  lemma TableFirstRowAllFalse(vars: seq<char>, exprs: seq<string>, eval: Evaluator)
    requires Distinct(vars)
    ensures forall k :: 0 <= k < |vars| && [vars[k]] !in exprs ==>
              [vars[k]] in TableRow(vars, exprs, eval, 0) && !TableRow(vars, exprs, eval, 0)[[vars[k]]]
  {
    FirstRowAllFalse(|vars|);
    forall k | 0 <= k < |vars| && [vars[k]] !in exprs
      ensures [vars[k]] in TableRow(vars, exprs, eval, 0) && !TableRow(vars, exprs, eval, 0)[[vars[k]]]
    {
      RowVariable(vars, exprs, eval, 0, k);
      assert AssignmentBits(|vars|, 0)[k] == Bit(0, |vars| - 1 - k);
    }
  }

  /** Row 2^n - 1 of the table makes true every variable whose name is not
      also the text of an expression. */
  lemma TableLastRowAllTrue(vars: seq<char>, exprs: seq<string>, eval: Evaluator)
    requires Distinct(vars)
    ensures forall k :: 0 <= k < |vars| && [vars[k]] !in exprs ==>
              [vars[k]] in TableRow(vars, exprs, eval, Pow2(|vars|) - 1) &&
              TableRow(vars, exprs, eval, Pow2(|vars|) - 1)[[vars[k]]]
  {
    var last: nat := Pow2(|vars|) - 1;
    LastRowAllTrue(|vars|);
    forall k | 0 <= k < |vars| && [vars[k]] !in exprs
      ensures [vars[k]] in TableRow(vars, exprs, eval, last) && TableRow(vars, exprs, eval, last)[[vars[k]]]
    {
      RowVariable(vars, exprs, eval, last, k);
      assert AssignmentBits(|vars|, last)[k] == Bit(last, |vars| - 1 - k);
    }
  }

  /** No variable name is also the text of an expression. */
  predicate NoVariableColumn(vars: seq<char>, exprs: seq<string>) {
    forall k :: 0 <= k < |vars| ==> [vars[k]] !in exprs
  }

  /** When no variable name is also an expression's text, two different rows
      of the table differ. */
  lemma TableRowsDistinct(vars: seq<char>, exprs: seq<string>, eval: Evaluator, i: nat, j: nat)
    requires Distinct(vars) && NoVariableColumn(vars, exprs)
    requires i < Pow2(|vars|) && j < Pow2(|vars|) && i != j
    ensures TableRow(vars, exprs, eval, i) != TableRow(vars, exprs, eval, j)
  {
    var n := |vars|;
    var bi, bj := AssignmentBits(n, i), AssignmentBits(n, j);
    AssignmentsDistinct(n, i, j);
    assert |bi| == |bj| == n;
    var k :| 0 <= k < n && bi[k] != bj[k];
    assert bi[k] == Bit(i, n - 1 - k) && bj[k] == Bit(j, n - 1 - k);
    RowVariable(vars, exprs, eval, i, k);
    RowVariable(vars, exprs, eval, j, k);
    var key := [vars[k]];
    assert TableRow(vars, exprs, eval, i)[key] != TableRow(vars, exprs, eval, j)[key];
  }
}
