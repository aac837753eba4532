/** Parenthesis matching. `extractSubexpressions` pairs each ')' with the most
    recent still-open '(' by pushing and popping indices on a stack. This module
    describes the same pairing without a stack, by the running balance of '('
    over ')' along the string, and proves that the stack the scan keeps is
    exactly the set of '(' that balance calls open. */
module Parens {

  /** +1 for '(', -1 for ')', 0 for any other character. */
  function Delta(c: char): int {
    if c == '(' then 1 else if c == ')' then -1 else 0
  }

  /** Number of '(' minus number of ')' in s[..j]. */
  function Height(s: string, j: nat): int
    requires j <= |s|
  {
    if j == 0 then 0 else Height(s, j - 1) + Delta(s[j - 1])
  }

  /** The '(' at index a is still open once s[..i] has been read: the balance
      after it never falls back to the balance before it. */
  ghost predicate OpenAt(s: string, a: nat, i: nat) {
    a < i <= |s| && s[a] == '(' &&
    forall j: nat :: a < j <= i ==> Height(s, j) > Height(s, a)
  }

  /** The ')' at index b closes the '(' at index a: the '(' is open up to b and
      the ')' brings the balance back to what it was before the '('. */
  ghost predicate Matches(s: string, a: nat, b: nat) {
    b < |s| && s[b] == ')' && OpenAt(s, a, b) && Height(s, b + 1) == Height(s, a)
  }

  /** The stack of the scan after s[..i]: the indices of exactly the '(' still
      open, in increasing order, so the innermost one is on top. */
  ghost predicate OpenStack(s: string, stack: seq<nat>, i: nat) {
    i <= |s| &&
    (forall k, l :: 0 <= k < l < |stack| ==> stack[k] < stack[l]) &&
    (forall a :: a in stack <==> OpenAt(s, a, i))
  }

  /** A ')' closes at most one '('. */
  lemma MatchUnique(s: string, a: nat, a': nat, b: nat)
    requires Matches(s, a, b) && Matches(s, a', b)
    ensures a == a'
  {
  }

  /** Searching downwards from k for the last index below k whose balance is
      under Height(s, i): that index holds a '(' that is still open at i. */
  lemma {:induction false} LastRise(s: string, a: nat, k: nat, i: nat)
    requires a < k <= i <= |s|
    requires Height(s, a) + 2 <= Height(s, i)
    requires forall j: nat :: k <= j <= i ==> Height(s, j) >= Height(s, i)
    ensures exists b :: a < b < k && OpenAt(s, b, i)
    decreases k
  {
    var b := k - 1;
    if Height(s, b) < Height(s, i) {
      assert Height(s, k) == Height(s, b) + Delta(s[b]);
      assert s[b] == '(' && Height(s, b) == Height(s, i) - 1;
      assert OpenAt(s, b, i);
    } else {
      LastRise(s, a, b, i);
    }
  }

  /** If the balance at i is two or more above the balance before an open
      '(' at a, then some later '(' is open at i too: a is not innermost. */
  lemma NestedOpen(s: string, a: nat, i: nat)
    requires OpenAt(s, a, i) && Height(s, i) >= Height(s, a) + 2
    ensures exists b :: a < b < i && OpenAt(s, b, i)
  {
    LastRise(s, a, i, i);
  }

  /** The scan starts with an empty stack. */
  lemma ScanStart(s: string)
    ensures OpenStack(s, [], 0)
  {
  }

  /** Reading a character other than a parenthesis leaves the stack as it is. */
  lemma ScanOther(s: string, stack: seq<nat>, i: nat)
    requires OpenStack(s, stack, i) && i < |s| && s[i] != '(' && s[i] != ')'
    ensures OpenStack(s, stack, i + 1)
    ensures MatchedSpans(s, i + 1) == MatchedSpans(s, i)
  {
    assert Height(s, i + 1) == Height(s, i);
    MatchedSpansSkip(s, i);
  }

  /** Reading '(' at i pushes i. */
  lemma {:induction false} ScanOpen(s: string, stack: seq<nat>, i: nat)
    requires OpenStack(s, stack, i) && i < |s| && s[i] == '('
    ensures OpenStack(s, stack + [i], i + 1)
    ensures MatchedSpans(s, i + 1) == MatchedSpans(s, i)
  {
    MatchedSpansSkip(s, i);
    assert Height(s, i + 1) == Height(s, i) + 1;
    forall k | 0 <= k < |stack| ensures stack[k] < i {
      assert stack[k] in stack;
    }
  }

  /** Reading ')' at i with a non-empty stack: the top of the stack is the '('
      that this ')' closes, and popping it leaves exactly the '(' still open. */
  lemma {:induction false} ScanClose(s: string, stack: seq<nat>, i: nat)
    requires OpenStack(s, stack, i) && i < |s| && s[i] == ')' && stack != []
    ensures Matches(s, stack[|stack| - 1], i)
    ensures OpenStack(s, stack[..|stack| - 1], i + 1)
  {
    var top := stack[|stack| - 1];
    assert top in stack;
    if Height(s, i) >= Height(s, top) + 2 {
      NestedOpen(s, top, i);
      assert false;
    }
    assert Height(s, i + 1) == Height(s, top);
    var rest := stack[..|stack| - 1];
    forall a: nat ensures a in rest <==> OpenAt(s, a, i + 1) {
      if a in rest {
        var k :| 0 <= k < |rest| && rest[k] == a;
        assert stack[k] == a && a < top;
        assert OpenAt(s, a, i);
      }
      if OpenAt(s, a, i + 1) {
        assert OpenAt(s, a, i);
        assert a in stack && a != top;
        var k :| 0 <= k < |stack| && stack[k] == a;
        assert k < |stack| - 1 && rest[k] == a;
      }
    }
  }

  /** Reading ')' at i with an empty stack: no '(' is open, so this ')'
      closes nothing and the stack stays empty. */
  lemma ScanCloseUnmatched(s: string, i: nat)
    requires OpenStack(s, [], i) && i < |s| && s[i] == ')'
    ensures forall a :: !Matches(s, a, i)
    ensures OpenStack(s, [], i + 1)
    ensures MatchedSpans(s, i + 1) == MatchedSpans(s, i)
  {
    MatchedSpansSkip(s, i);
  }

  /** A matched pair: the index of a '(' and of the ')' that closes it. */
  datatype Span = Span(open: nat, close: nat)

  /** Every span lies inside s, its '(' no later than its ')'. */
  predicate SpansWithin(s: string, spans: seq<Span>) {
    forall k :: 0 <= k < |spans| ==> spans[k].open <= spans[k].close < |s|
  }

  /** The matched pairs whose ')' lies in s[..n], in order of their ')'. */
  ghost function MatchedSpans(s: string, n: nat): (r: seq<Span>)
    requires n <= |s|
    ensures forall k :: 0 <= k < |r| ==> Matches(s, r[k].open, r[k].close) && r[k].close < n
    ensures SpansWithin(s, r)
  {
    if n == 0 then []
    else
      var b: nat := n - 1;
      if exists a: nat :: Matches(s, a, b) then
        var a: nat :| Matches(s, a, b);
        MatchedSpans(s, b) + [Span(a, b)]
      else
        MatchedSpans(s, b)
  }

  /** The list runs in strictly increasing order of the ')'. */
  lemma {:induction false} MatchedSpansOrdered(s: string, n: nat)
    requires n <= |s|
    ensures forall k, l :: 0 <= k < l < |MatchedSpans(s, n)| ==>
              MatchedSpans(s, n)[k].close < MatchedSpans(s, n)[l].close
  {
    if n > 0 {
      MatchedSpansOrdered(s, n - 1);
    }
  }

  /** Every matched pair closing in s[..n] is listed: together with the
      function's own postcondition, the list holds exactly the matched pairs,
      so an unmatched ')' and a '(' that is never closed contribute nothing. */
  lemma {:induction false} MatchedSpansComplete(s: string, n: nat)
    requires n <= |s|
    ensures forall a: nat, b: nat :: b < n && Matches(s, a, b) ==> Span(a, b) in MatchedSpans(s, n)
  {
    if n > 0 {
      MatchedSpansComplete(s, n - 1);
      forall a: nat, b: nat | b < n && Matches(s, a, b) ensures Span(a, b) in MatchedSpans(s, n) {
        if b == n - 1 {
          var a': nat :| Matches(s, a', b) && MatchedSpans(s, n) == MatchedSpans(s, b) + [Span(a', b)];
          MatchUnique(s, a, a', b);
        }
      }
    }
  }

  /** One step of the scan in terms of the list of matched pairs: reading the
      ')' that closes `open` appends that pair. */
  lemma MatchedSpansStep(s: string, open: nat, i: nat)
    requires Matches(s, open, i)
    ensures MatchedSpans(s, i + 1) == MatchedSpans(s, i) + [Span(open, i)]
  {
    var a: nat :| Matches(s, a, i) && MatchedSpans(s, i + 1) == MatchedSpans(s, i) + [Span(a, i)];
    MatchUnique(s, a, open, i);
  }

  /** Reading a character that closes no '(' adds no pair. */
  lemma MatchedSpansSkip(s: string, i: nat)
    requires i < |s| && forall a: nat :: !Matches(s, a, i)
    ensures MatchedSpans(s, i + 1) == MatchedSpans(s, i)
  {
  }

  /** Appending a pair appends its text. */
  lemma SpanTextsSnoc(s: string, spans: seq<Span>, last: Span)
    requires SpansWithin(s, spans) && last.open <= last.close < |s|
    ensures SpansWithin(s, spans + [last])
    ensures SpanTexts(s, spans + [last]) == SpanTexts(s, spans) + [s[last.open..last.close + 1]]
  {
    assert (spans + [last])[..|spans|] == spans;
  }

  /** The text each pair covers, both parentheses included. */
  function SpanTexts(s: string, spans: seq<Span>): (r: seq<string>)
    requires SpansWithin(s, spans)
    ensures |r| == |spans|
  {
    if spans == [] then []
    else
      var last := spans[|spans| - 1];
      SpanTexts(s, spans[..|spans| - 1]) + [s[last.open..last.close + 1]]
  }

  /** A listed span's text is among the texts. */
  lemma SpanTextsMember(s: string, spans: seq<Span>, sp: Span)
    requires SpansWithin(s, spans) && sp in spans
    ensures s[sp.open..sp.close + 1] in SpanTexts(s, spans)
  {
    var k :| 0 <= k < |spans| && spans[k] == sp;
    SpanTextsAt(s, spans, k);
  }

  /** The k-th text is the substring the k-th span covers. */
  lemma {:induction false} SpanTextsAt(s: string, spans: seq<Span>, k: nat)
    requires SpansWithin(s, spans) && k < |spans|
    ensures SpanTexts(s, spans)[k] == s[spans[k].open..spans[k].close + 1]
  {
    if k < |spans| - 1 {
      SpanTextsAt(s, spans[..|spans| - 1], k);
    }
  }
}
