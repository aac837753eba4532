/** `extractSubexpressions` (index.js:71-100): the columns of the truth table.
    One pass pairs parentheses with an index stack and records each matched
    group, a second pass collects every negated literal `[¬~][pqrst]`, and the
    whole expression comes last; all of them go through one insertion-ordered
    `Set`, so repeats are dropped and each text keeps its first place. */
module Extraction {
  import opened OrderedSets
  import opened Parens

  datatype Option<T> = None | Some(value: T)

  /** The regular expression `/[¬~][pqrst]/` matches at index j: a negation
      sign followed by one of the letters p, q, r, s, t (not z). */
  predicate NegationAt(s: string, j: nat) {
    j + 1 < |s| && (s[j] == '¬' || s[j] == '~') && s[j + 1] in "pqrst"
  }

  /** The matches of `/[¬~][pqrst]/g` in s[from..], left to right. Every one is
      two characters long, a negation sign and then a variable other than z,
      and they are exactly the texts at the indices where the pattern matches. */
  function NegationsFrom(s: string, from: nat): (r: seq<string>)
    decreases |s| - from
  {
    if from >= |s| then []
    else (if NegationAt(s, from) then [s[from..from + 2]] else []) + NegationsFrom(s, from + 1)
  }

  /** The texts `/[¬~][pqrst]/g` finds in s[from..] are exactly those at the
      indices where the pattern matches. */
  lemma {:induction false} NegationEntries(s: string, from: nat)
    ensures forall x :: x in NegationsFrom(s, from) <==>
              exists j: nat :: from <= j && NegationAt(s, j) && x == s[j..j + 2]
    decreases |s| - from
  {
    if from < |s| {
      NegationEntries(s, from + 1);
      var head := if NegationAt(s, from) then [s[from..from + 2]] else [];
      assert NegationsFrom(s, from) == head + NegationsFrom(s, from + 1);
      forall x ensures x in NegationsFrom(s, from) ==>
                       exists j: nat :: from <= j && NegationAt(s, j) && x == s[j..j + 2]
      {
        if x in head {
          assert NegationAt(s, from) && x == s[from..from + 2];
        }
      }
      forall x | exists j: nat :: from <= j && NegationAt(s, j) && x == s[j..j + 2]
        ensures x in NegationsFrom(s, from)
      {
        var j: nat :| from <= j && NegationAt(s, j) && x == s[j..j + 2];
        if j == from {
          assert x in head;
        } else {
          assert x in NegationsFrom(s, from + 1);
        }
      }
    }
  }

  /** Every negation entry is two characters long: `¬` or `~`, then one of
      the variables p, q, r, s, t (never z). */
  lemma NegationShape(s: string, x: string)
    requires x in NegationsFrom(s, 0)
    ensures |x| == 2 && x[0] in "¬~" && x[1] in "pqrst"
  {
    NegationEntries(s, 0);
    var j: nat :| NegationAt(s, j) && x == s[j..j + 2];
    assert x[0] == s[j] && x[1] == s[j + 1];
  }

  /** One call of `negationRegex.exec(s)` while `lastIndex == from`: the index
      of the first match at or after `from`, or None when there is none. */
  function NextNegation(s: string, from: nat): (r: Option<nat>)
    ensures r.Some? ==> from <= r.value && NegationAt(s, r.value)
    ensures r.Some? ==> forall j: nat :: from <= j < r.value ==> !NegationAt(s, j)
    ensures r.None? ==> forall j: nat :: from <= j ==> !NegationAt(s, j)
    decreases |s| - from
  {
    if from >= |s| then None
    else if NegationAt(s, from) then Some(from)
    else NextNegation(s, from + 1)
  }

  /** After a match at j the search resumes at j + 2 and misses nothing: the
      character at j + 1 is a letter, so no match starts there. */
  lemma {:induction false} NegationsAfterMatch(s: string, from: nat, j: nat)
    requires NextNegation(s, from) == Some(j)
    ensures NegationsFrom(s, from) == [s[j..j + 2]] + NegationsFrom(s, j + 2)
    decreases j - from
  {
    assert NegationAt(s, j);
    if from < j {
      assert !NegationAt(s, from) && NextNegation(s, from + 1) == Some(j);
      assert NegationsFrom(s, from) == NegationsFrom(s, from + 1);
      NegationsAfterMatch(s, from + 1, j);
    } else {
      assert NegationsFrom(s, j) == [s[j..j + 2]] + NegationsFrom(s, j + 1);
      assert s[j + 1] in "pqrst";
      assert !NegationAt(s, j + 1);
      assert NegationsFrom(s, j + 1) == [] + NegationsFrom(s, j + 2);
    }
  }

  /** When `exec` finds nothing, nothing is left to collect. */
  lemma {:induction false} NegationsAfterLastMatch(s: string, from: nat)
    requires NextNegation(s, from) == None
    ensures NegationsFrom(s, from) == []
    decreases |s| - from
  {
    if from < |s| {
      NegationsAfterLastMatch(s, from + 1);
    }
  }

  /** The parenthesised groups in order of their closing ')'. */
  ghost function ParenTexts(s: string): seq<string> {
    SpanTexts(s, MatchedSpans(s, |s|))
  }

  /** What `extractSubexpressions(s)` returns. */
  ghost function Subexpressions(s: string): seq<string> {
    Dedup(ParenTexts(s) + NegationsFrom(s, 0) + [s])
  }

  /** x is the text from some '(' to the ')' that closes it. */
  ghost predicate IsParenGroup(s: string, x: string) {
    exists a: nat, b: nat :: Matches(s, a, b) && x == s[a..b + 1]
  }

  /** x is a negated literal `[¬~][pqrst]` occurring in s. */
  ghost predicate IsNegatedLiteral(s: string, x: string) {
    exists j: nat :: NegationAt(s, j) && x == s[j..j + 2]
  }

  /** Each parenthesised entry is a matched group. */
  lemma ParenEntrySound(s: string, k: nat)
    requires k < |ParenTexts(s)|
    ensures IsParenGroup(s, ParenTexts(s)[k])
  {
    var spans := MatchedSpans(s, |s|);
    SpanTextsAt(s, spans, k);
    assert Matches(s, spans[k].open, spans[k].close);
  }

  /** Each matched group is a parenthesised entry. */
  lemma ParenEntryComplete(s: string, a: nat, b: nat)
    requires Matches(s, a, b)
    ensures s[a..b + 1] in ParenTexts(s)
  {
    MatchedSpansComplete(s, |s|);
    SpanTextsMember(s, MatchedSpans(s, |s|), Span(a, b));
  }

  /** The parenthesised entries are exactly the matched groups: an unmatched
      ')' and a '(' that is never closed contribute none. */
  lemma ParenEntries(s: string, x: string)
    ensures x in ParenTexts(s) <==> IsParenGroup(s, x)
  {
    if x in ParenTexts(s) {
      var k :| 0 <= k < |ParenTexts(s)| && ParenTexts(s)[k] == x;
      ParenEntrySound(s, k);
    }
    if IsParenGroup(s, x) {
      var a: nat, b: nat :| Matches(s, a, b) && x == s[a..b + 1];
      ParenEntryComplete(s, a, b);
    }
  }

  /** An entry of the result is the whole expression, a matched parenthesised
      group or a negated literal, and every one of those is an entry. */
  lemma SubexpressionMembers(s: string, x: string)
    ensures x in Subexpressions(s) <==> x == s || IsParenGroup(s, x) || IsNegatedLiteral(s, x)
  {
    DedupContents(ParenTexts(s) + NegationsFrom(s, 0) + [s]);
    ParenEntries(s, x);
    NegationEntries(s, 0);
  }

  /** Every parenthesised entry comes before every entry that is not one. */
  lemma ParenEntriesFirst(s: string, i: nat, j: nat)
    requires i < |Subexpressions(s)| && j < |Subexpressions(s)|
    requires Subexpressions(s)[i] in ParenTexts(s) && Subexpressions(s)[j] !in ParenTexts(s)
    ensures i < j
  {
    var all := ParenTexts(s) + NegationsFrom(s, 0) + [s];
    var r := Subexpressions(s);
    assert all == ParenTexts(s) + (NegationsFrom(s, 0) + [s]);
    if j < i {
      DedupKeepsFirstOccurrenceOrder(all, j, i);
      IndexOfAppend(ParenTexts(s), NegationsFrom(s, 0) + [s], r[i]);
      IndexOfAppend(ParenTexts(s), NegationsFrom(s, 0) + [s], r[j]);
    }
  }

  /** Parenthesised entries appear in the order in which their groups close
      (for a text closed twice, its first closing counts). */
  lemma ParenEntriesInClosingOrder(s: string, i: nat, j: nat)
    requires i < j < |Subexpressions(s)|
    requires Subexpressions(s)[i] in ParenTexts(s) && Subexpressions(s)[j] in ParenTexts(s)
    ensures IndexOf(ParenTexts(s), Subexpressions(s)[i]) < IndexOf(ParenTexts(s), Subexpressions(s)[j])
    ensures MatchedSpans(s, |s|)[IndexOf(ParenTexts(s), Subexpressions(s)[i])].close <
            MatchedSpans(s, |s|)[IndexOf(ParenTexts(s), Subexpressions(s)[j])].close
  {
    var all := ParenTexts(s) + NegationsFrom(s, 0) + [s];
    var r := Subexpressions(s);
    assert all == ParenTexts(s) + (NegationsFrom(s, 0) + [s]);
    DedupKeepsFirstOccurrenceOrder(all, i, j);
    IndexOfAppend(ParenTexts(s), NegationsFrom(s, 0) + [s], r[i]);
    IndexOfAppend(ParenTexts(s), NegationsFrom(s, 0) + [s], r[j]);
    MatchedSpansOrdered(s, |s|);
  }

  /** Negated literals that are not also parenthesised entries appear in the
      order of their first occurrence in the expression. */
  lemma NegationEntriesInOrder(s: string, i: nat, j: nat)
    requires i < j < |Subexpressions(s)|
    requires Subexpressions(s)[i] !in ParenTexts(s) && Subexpressions(s)[i] in NegationsFrom(s, 0)
    requires Subexpressions(s)[j] !in ParenTexts(s) && Subexpressions(s)[j] in NegationsFrom(s, 0)
    ensures IndexOf(NegationsFrom(s, 0), Subexpressions(s)[i]) < IndexOf(NegationsFrom(s, 0), Subexpressions(s)[j])
  {
    var all := ParenTexts(s) + NegationsFrom(s, 0) + [s];
    var r := Subexpressions(s);
    assert all == ParenTexts(s) + (NegationsFrom(s, 0) + [s]);
    DedupKeepsFirstOccurrenceOrder(all, i, j);
    IndexOfAppend(ParenTexts(s), NegationsFrom(s, 0) + [s], r[i]);
    IndexOfAppend(ParenTexts(s), NegationsFrom(s, 0) + [s], r[j]);
    IndexOfAppend(NegationsFrom(s, 0), [s], r[i]);
    IndexOfAppend(NegationsFrom(s, 0), [s], r[j]);
  }

  /** The whole expression is the last entry unless the same text was already
      added as a group or a negated literal. */
  lemma WholeExpressionLast(s: string)
    requires s !in ParenTexts(s) + NegationsFrom(s, 0)
    ensures Subexpressions(s)[|Subexpressions(s)| - 1] == s
  {
    DedupSnoc(ParenTexts(s) + NegationsFrom(s, 0), s);
    DedupContents(ParenTexts(s) + NegationsFrom(s, 0));
  }

  /** What `extractSubexpressions(expression)` returns. The parenthesis scan
      and the negation scan each add to the same set, then the whole expression
      is added. */
  method ExtractSubexpressions(expression: string) returns (subexpressions: seq<string>)
    ensures subexpressions == Subexpressions(expression)
    ensures Distinct(subexpressions) && expression in subexpressions
  {
    var subs := ScanParentheses(expression);
    subs := ScanNegations(expression, ParenTexts(expression), subs);
    DedupSnoc(ParenTexts(expression) + NegationsFrom(expression, 0), expression);
    subexpressions := Add(subs, expression);
    DedupContents(ParenTexts(expression) + NegationsFrom(expression, 0) + [expression]);
  }

  /** The first loop of `extractSubexpressions` (index.js:76-86): '(' pushes
      its index, ')' pops the innermost open '(' and adds the group it closes,
      a ')' with nothing to pop is skipped. */
  method ScanParentheses(s: string) returns (subs: seq<string>)
    ensures subs == Dedup(ParenTexts(s))
  {
    subs := [];
    var stack: seq<nat> := [];
    ghost var spans: seq<Span> := [];
    ScanStart(s);
    for i := 0 to |s|
      invariant OpenStack(s, stack, i)
      invariant spans == MatchedSpans(s, i)
      invariant subs == Dedup(SpanTexts(s, spans))
    {
      if s[i] == '(' {
        ScanOpen(s, stack, i);
        stack := stack + [i];
      } else if s[i] == ')' {
        if |stack| > 0 {
          var start := stack[|stack| - 1];
          ScanClose(s, stack, i);
          MatchedSpansStep(s, start, i);
          stack := stack[..|stack| - 1];
          var subexpr := s[start..i + 1];
          SpanTextsSnoc(s, spans, Span(start, i));
          DedupSnoc(SpanTexts(s, spans), subexpr);
          spans := spans + [Span(start, i)];
          subs := Add(subs, subexpr);
        } else {
          ScanCloseUnmatched(s, i);
        }
      } else {
        ScanOther(s, stack, i);
      }
    }
  }

  /** The second loop of `extractSubexpressions` (index.js:89-93): `exec` is
      called from `lastIndex` until it returns null, each match is added and
      `lastIndex` moves past it. `before` is what the set already holds. */
  method ScanNegations(s: string, ghost before: seq<string>, subs0: seq<string>) returns (subs: seq<string>)
    requires subs0 == Dedup(before)
    ensures subs == Dedup(before + NegationsFrom(s, 0))
  {
    subs := subs0;
    var lastIndex: nat := 0;
    AddAllDedup(before, NegationsFrom(s, 0));
    var m := NextNegation(s, lastIndex);
    while m.Some?
      invariant m == NextNegation(s, lastIndex)
      invariant AddAll(subs, NegationsFrom(s, lastIndex)) == Dedup(before + NegationsFrom(s, 0))
      decreases |s| - lastIndex
    {
      var j := m.value;
      var negation := s[j..j + 2];
      NegationsAfterMatch(s, lastIndex, j);
      subs := Add(subs, negation);
      lastIndex := j + 2;
      m := NextNegation(s, lastIndex);
    }
    NegationsAfterLastMatch(s, lastIndex);
  }
}
