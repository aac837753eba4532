/** The "generate" button handler (index.js:6-22): an empty input is refused;
    otherwise the subexpressions, the variables and the table are computed one
    after the other and handed to the display. */
module TruthTableTool {
  import opened OrderedSets
  import opened Parens
  import opened Extraction
  import opened Variables
  import opened TruthTable

  /** What a click leads to: the alert for an empty input, or the table that
      is displayed together with its variable and expression headers. */
  datatype Outcome =
    | EmptyInput
    | Shown(variables: seq<char>, expressions: seq<string>, table: seq<Row>)

  /** A character of a slice is a character of the whole string. */
  lemma SliceChar(s: string, a: nat, b: nat, c: char)
    requires a <= b <= |s| && c in s[a..b]
    ensures c in s
  {
    var k :| 0 <= k < |s[a..b]| && s[a..b][k] == c;
    assert s[a + k] == c;
  }

  /** Every subexpression is a piece of the input, and the input is one of
      them, so a letter occurs in some subexpression exactly when it occurs in
      the input. */
  lemma SubexpressionLetters(s: string, c: char)
    ensures OccursIn(c, Subexpressions(s)) <==> c in s
  {
    SubexpressionMembers(s, s);
    if OccursIn(c, Subexpressions(s)) {
      var e :| e in Subexpressions(s) && c in e;
      SubexpressionMembers(s, e);
      if IsParenGroup(s, e) {
        var a: nat, b: nat :| Matches(s, a, b) && e == s[a..b + 1];
        SliceChar(s, a, b + 1, c);
      } else if IsNegatedLiteral(s, e) {
        var j: nat :| NegationAt(s, j) && e == s[j..j + 2];
        SliceChar(s, j, j + 2, c);
      }
    }
  }

  /** index.js:6-22, on the trimmed input. A non-empty input yields its
      distinct subexpressions with the input itself among them, as variables
      exactly the letters p, q, r, s, t, z that occur in the input, in
      alphabetical order, and a table of 2^n rows, at most 64. */
  method OnGenerate(rawInput: string, eval: Evaluator) returns (outcome: Outcome)
    ensures outcome.EmptyInput? <==> rawInput == ""
    ensures outcome.Shown? ==>
              outcome.expressions == Subexpressions(rawInput) &&
              Distinct(outcome.expressions) && rawInput in outcome.expressions
    ensures outcome.Shown? ==>
              outcome.variables == VariablesOf(outcome.expressions) &&
              StrictlyAscending(outcome.variables) &&
              forall c :: c in outcome.variables <==> c in Letters && c in rawInput
    ensures outcome.Shown? ==>
              |outcome.table| == Pow2(|outcome.variables|) <= 64 &&
              forall i :: 0 <= i < |outcome.table| ==>
                outcome.table[i] == TableRow(outcome.variables, outcome.expressions, eval, i)
  {
    if rawInput == "" {
      return EmptyInput;
    }
    var expressions := ExtractSubexpressions(rawInput);
    var variables := GetVariables(expressions);
    var table := GenerateTruthTable(variables, expressions, eval);
    forall c ensures c in variables <==> c in Letters && c in rawInput {
      SubexpressionLetters(rawInput, c);
    }
    Pow2Monotone(|variables|, 6);
    assert Pow2(6) == 64;
    outcome := Shown(variables, expressions, table);
  }
}
