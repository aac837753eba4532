# Truth-table generator: the table-building core

This project models the expression engine behind the web page's "generate
table" button in `index.js`. The engine has three steps:

- **`extractSubexpressions`** works out the table's columns. It pairs parentheses with an index stack and records the
  text of each matched group, in the order its `)` is read. It then collects
  every negated literal `/[¬~][pqrst]/g`, left to right. Last it adds the
  whole expression. Everything goes through one insertion-ordered `Set`, so a
  repeated text keeps its first place.
- **`getVariables`** collects every letter of `/[pqrstz]/g` found in any
  column into a `Set`, and returns the letters sorted.
- **`generateTruthTable`** builds 2^n rows for i = 0 .. 2^n - 1. In row i,
  variable k holds bit (n-1-k) of i. Then every column's expression is
  evaluated against the row as it stands at that moment.

Modules:

- `OrderedSets` (`ordered_sets.dfy`): JavaScript's insertion-ordered `Set`, as a
  sequence without repeats. `Dedup` is the result of adding values one by one.
- `Parens` (`parens.dfy`): parenthesis matching without a stack. It uses the running
  balance of `(` over `)`, and proves that the scan's stack holds exactly the
  `(` still open, innermost on top. So a `)` closes exactly the `(` the balance
  pairs it with. A `)` with an empty stack closes nothing, and an unclosed `(`
  closes nothing either.
- `Extraction` (`subexpressions.dfy`): the two scanning loops as methods.
  `ScanParentheses` is proved to leave the set holding `Dedup(ParenTexts(s))`.
  `ScanNegations` is proved to continue that set to
  `Dedup(before + NegationsFrom(s, 0))`. `ExtractSubexpressions`, which runs
  both and then adds the whole expression, is proved equal to the reference
  list `Subexpressions(s)`. The lemmas say what that list holds and in which
  order.
- `Variables` (`variables.dfy`): the collection loops and the sort. The result is
  proved equal to the letters of `pqrstz` that occur, in alphabetical order.
- `TruthTable` (`truth_table.dfy`): the row loop. Each row is proved equal to
  `TableRow`. The lemmas cover:
  - row i's assignment, read as a binary number with the first variable as the most
    significant bit, is i, so rows count upwards and no two rows repeat an assignment;
  - row 0 is all false and the last row is all true;
  - each column holds the evaluator's value on the row as filled up to that column.
- `TruthTableTool` (`app.dfy`): the button handler. An empty input is refused.
  Any other input gets the three steps in sequence.

`evaluateExpression` is a parameter of the table: a function from an
expression text and the row built so far to a boolean. It is not modelled.

What the code does, where a reader might expect otherwise:

- The code has no tokenizer, parser or syntax tree. Subexpressions are found
  by scanning the string, so a group is recorded whether or not its contents
  are well formed.
- The code does not lowercase the input. The letters are matched exactly as they are typed.
- The code does not add one column per variable: after the negations it adds
  only the whole expression. This is so even though the comment at
  index.js:95 says it adds the variables too.
- Negated literals are `[¬~][pqrst]`, so `¬z` never becomes a column of its
  own. `z` still counts as a variable.
- An input without any variable letter is not an error. It gives a table of
  one row (2^0).

## Model

| member | source | states |
|---|---|---|
| `OrderedSets.Add` | index.js:83 | `set.add(x)`: nothing changes when x is present, otherwise x goes last; its properties are stated by `AddKeeps` |
| `OrderedSets.Dedup` | index.js:99 | the spread `[...set]` of a fresh set after `add` on each value in turn; its properties are stated by `DedupContents` and `DedupKeepsFirstOccurrenceOrder` |
| `OrderedSets.AddAll` | index.js:91-92 | `add` on each value in turn, starting from a set already filled; related to `Dedup` by `AddAllDedup` |
| `OrderedSets.AddKeeps` | index.js:83 | `set.add` keeps the existing elements in place, appends at most the new value, and never creates a repeat |
| `OrderedSets.DedupContents` | index.js:72-99 | reading a `Set` back gives no repeats and exactly the values added |
| `OrderedSets.DedupKeepsFirstOccurrenceOrder` | index.js:96-99 | `[...set]` lists values in the order of their first `add`; later duplicates are dropped |
| `OrderedSets.AddAllDedup` | index.js:89-93 | adding more values to a set filled from `xs` is the same as filling it from the concatenation |
| `Parens.ScanOpen` | index.js:77-78 | pushing the index of a `(` keeps the stack equal to the sorted indices of the still-open `(` |
| `Parens.ScanOther` | index.js:76-86 | a character that is neither `(` nor `)` leaves the stack as it is and adds no pair |
| `Parens.ScanClose` | index.js:79-84 | on `)` with a non-empty stack, the popped top is the `(` this `)` closes, and the rest of the stack is exactly the `(` still open |
| `Parens.ScanCloseUnmatched` | index.js:79-80 | a `)` read with an empty stack closes nothing, and the stack stays empty |
| `Parens.NestedOpen` | index.js:81 | if the balance is two or more above an open `(`, a later `(` is also open, so only the innermost can be closed |
| `Parens.MatchedSpans` | index.js:76-86 | every recorded pair is a `(` and the `)` that closes it, with the `)` inside the scanned prefix |
| `Parens.MatchedSpansOrdered` | index.js:76-86 | the recorded pairs run in strictly increasing order of their `)` |
| `Parens.MatchedSpansComplete` | index.js:76-86 | every matched pair is recorded, so an unmatched `)` and an unclosed `(` contribute nothing |
| `Parens.MatchedSpansStep` | index.js:81-83 | reading the `)` that closes a `(` appends exactly that pair |
| `Parens.SpanTextsAt` | index.js:82 | the k-th recorded text is `expression.substring(start, i + 1)` for the k-th pair |
| `Extraction.NextNegation` | index.js:89-91 | one `exec` from `lastIndex` finds the first index at or after it where `[¬~][pqrst]` matches, or reports none |
| `Extraction.NegationsAfterMatch` | index.js:91-92 | after a match at j, the remaining matches are that text followed by the matches from j + 2 |
| `Extraction.NegationsAfterLastMatch` | index.js:91 | when `exec` returns null, no match is left to collect |
| `Extraction.NegationsFrom` | index.js:89-93 | the reference list of the matches of `/[¬~][pqrst]/g` from an index on, left to right; characterised by `NegationEntries` |
| `Extraction.NegationEntries` | index.js:89-93 | the negation texts are exactly the two-character texts at the indices where the pattern matches |
| `Extraction.NegationShape` | index.js:89 | every negation entry is a negation sign `¬` or `~` followed by one of p, q, r, s, t |
| `Extraction.ParenEntries` | index.js:76-85 | a text is a parenthesised entry iff it runs from some `(` to the `)` that closes it |
| `Extraction.Subexpressions` | index.js:71-100 | the reference result: the matched groups, then the negations, then the whole input, through one insertion-ordered set; characterised by `SubexpressionMembers` and the ordering lemmas |
| `Extraction.SubexpressionMembers` | index.js:71-100 | a text is returned iff it is the whole input, a matched group or a negated literal of the input |
| `Extraction.ParenEntriesFirst` | index.js:76-96 | every parenthesised group comes before every entry that is not one |
| `Extraction.ParenEntriesInClosingOrder` | index.js:76-85 | parenthesised groups appear in increasing order of their closing `)` |
| `Extraction.NegationEntriesInOrder` | index.js:89-93 | negation entries that are not also groups appear in their order of occurrence |
| `Extraction.WholeExpressionLast` | index.js:96-99 | unless it is already a group or a negation, the whole input is the last entry |
| `Extraction.ScanParentheses` | index.js:76-86 | the stack loop leaves the set holding the matched groups, deduplicated, in closing order |
| `Extraction.ScanNegations` | index.js:89-93 | the `exec` loop adds every negation match, left to right, to the set |
| `Extraction.ExtractSubexpressions` | index.js:71-100 | returns `Subexpressions(expression)`, with no repeats and with the input among them |
| `Variables.OccurringLettersSpec` | index.js:25-29 | filtering an ascending alphabet by occurrence keeps it strictly ascending, and keeps exactly the letters that occur |
| `Variables.VariablesOfSpec` | index.js:24-31 | the variables are strictly ascending, are exactly the letters of `pqrstz` that occur in some expression, and number at most six |
| `Variables.Insert` | index.js:30 | inserting into an ascending list keeps it ascending and adds exactly one copy of the value |
| `Variables.Sort` | index.js:30 | `sort()` on one-letter strings returns an ascending rearrangement of its input |
| `Variables.SortedUnique` | index.js:30 | two ascending lists with the same contents are equal, so the sorted result is determined |
| `Variables.DistinctMultiplicity` | index.js:26-30 | the elements of a `Set` each occur exactly once |
| `Variables.GetVariables` | index.js:24-31 | returns the letters of `pqrstz` occurring in some expression, strictly ascending, at most six, with membership both ways |
| `TruthTable.Pow2` | index.js:34 | `Math.pow(2, n)` is at least 1 |
| `TruthTable.Pow2Monotone` | index.js:34 | more variables never give fewer rows, which bounds the table at 2^6 = 64 rows |
| `TruthTable.ShiftRight` | index.js:40 | `i >> p` for non-negative i, as p halvings rounding down |
| `TruthTable.Bit` | index.js:40 | `Boolean((i >> p) & 1)`, bit p of i |
| `TruthTable.AssignVariables` | index.js:39-41 | the row after the variables loop has run over the first k variables; stated by `AssignVariablesKeys` and `AssignVariablesSpec` |
| `TruthTable.FillColumns` | index.js:43-45 | the row after the expressions loop, each expression evaluated on the row as it then stands; stated by `FillColumnsKeeps` and `FillColumnsValue` |
| `TruthTable.TableRow` | index.js:38-45 | one row: the variables loop, then the expressions loop |
| `TruthTable.GenerateTruthTable` | index.js:33-51 | returns 2^n rows, row i being `TableRow(variables, expressions, eval, i)`, pushed in index order |
| `TruthTable.AssignVariablesKeys` | index.js:39-41 | after the variables loop every key of the row is the name of a variable |
| `TruthTable.AssignVariablesSpec` | index.js:39-41 | after the variables loop every variable is a key of the row, and variable k holds bit (n-1-k) of i |
| `TruthTable.AssignmentBitsValue` | index.js:37-41 | row i's variable values, read as a binary number with the first variable most significant, equal i |
| `TruthTable.AssignmentsDistinct` | index.js:37-41 | two different rows never have the same assignment |
| `TruthTable.ShiftAllOnes` | index.js:40 | shifting 2^n - 1 right by p gives 2^(n-p) - 1 |
| `TruthTable.FirstRowAllFalse` | index.js:40 | row 0 makes every variable false |
| `TruthTable.LastRowAllTrue` | index.js:40 | row 2^n - 1 makes every variable true |
| `TruthTable.FillColumnsKeeps` | index.js:43-45 | the expressions loop adds one key per expression and leaves every other key unchanged |
| `TruthTable.FillColumnsValue` | index.js:43-45 | with no repeated expression, column j holds `eval` of expression j on the row holding the variables and columns 0 .. j-1 |
| `TruthTable.RowVariable` | index.js:39-45 | a variable whose name is not also a column's text keeps bit (n-1-k) of the row index |
| `TruthTable.TableFirstRowAllFalse` | index.js:37-45 | in row 0 of the table, every variable whose name is not also an expression's text is a key holding false |
| `TruthTable.TableLastRowAllTrue` | index.js:37-45 | in row 2^n - 1 of the table, every variable whose name is not also an expression's text is a key holding true |
| `TruthTable.TableRowsDistinct` | index.js:37-47 | when no variable name is also an expression's text, two different rows of the table differ |
| `TruthTableTool.SubexpressionLetters` | index.js:14-15 | a letter occurs in some subexpression iff it occurs in the input |
| `TruthTableTool.OnGenerate` | index.js:6-22 | refuses exactly the empty input; otherwise returns the distinct subexpressions (the input among them), the letters of `pqrstz` in the input in alphabetical order, and 2^n ≤ 64 rows, row i being `TableRow` |

## Left out

- `evaluateExpression` (index.js:53-68) is not modelled. It rewrites the text and runs it with `new Function`. Here it is the parameter `eval` of `GenerateTruthTable`, and it receives the row built so far.
- The `catch` branch of the handler (index.js:18-21) is not modelled. Only `evaluateExpression` can throw, and `eval` here is total.
- `displayTruthTable` (index.js:105 onwards), the DOM lookups, `alert` and `console.error` are presentation, and are left out.
- `OnGenerate` takes the input already trimmed. `String.prototype.trim` (index.js:7) and its set of whitespace characters are not modelled.
- `GenerateTruthTable` models `i >> p` as p halvings. This is exact only while i < 2^31, and JavaScript's 32-bit shift is not modelled. At most six variables occur, so i < 64.
- `TruthTable.Pow2` is exact integer arithmetic. `Math.pow`'s floating-point result is not modelled; it is exact for these sizes.
- A row is a map from key to value. The enumeration order of a JavaScript object's keys, which `evaluateExpression` relies on, is not modelled. Neither are special keys such as `__proto__`.
- Strings are sequences of Dafny characters, which are Unicode scalar values, whereas `expression.length` and `expression[i]` count UTF-16 code units. A character outside the Basic Multilingual Plane is one character here and two code units in the source. The indices therefore differ on such input. The extracted texts do not, because every character the scan cuts at (`(`, `)`, `¬`, `~`) is a single code unit.
