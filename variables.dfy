/** `getVariables` (index.js:24-31): every letter of `/[pqrstz]/g` found in any
    subexpression, collected in a `Set` and returned sorted. */
module Variables {
  import opened OrderedSets

  /** The letters that name variables, in ascending order. */
  const Letters: string := "pqrstz"

  /** c occurs in some element of `exprs`. */
  ghost predicate OccursIn(c: char, exprs: seq<string>) {
    exists e :: e in exprs && c in e
  }

  predicate Ascending(cs: seq<char>) {
    forall i, j :: 0 <= i < j < |cs| ==> cs[i] <= cs[j]
  }

  predicate StrictlyAscending(cs: seq<char>) {
    forall i, j :: 0 <= i < j < |cs| ==> cs[i] < cs[j]
  }

  /** The letters of `alphabet` that occur in some element of `exprs`, kept
      in the order of `alphabet`. */
  ghost function OccurringLetters(alphabet: string, exprs: seq<string>): seq<char> {
    if alphabet == [] then []
    else (if OccursIn(alphabet[0], exprs) then [alphabet[0]] else []) + OccurringLetters(alphabet[1..], exprs)
  }

  /** The variables of a list of expressions, by definition: the variable
      letters that occur in them, in alphabetical order. */
  ghost function VariablesOf(exprs: seq<string>): seq<char> {
    OccurringLetters(Letters, exprs)
  }

  /** Filtering a strictly ascending alphabet keeps it strictly ascending, and
      keeps exactly the letters that occur. */
  lemma {:induction false} OccurringLettersSpec(alphabet: string, exprs: seq<string>)
    requires StrictlyAscending(alphabet)
    ensures StrictlyAscending(OccurringLetters(alphabet, exprs))
    ensures forall c :: c in OccurringLetters(alphabet, exprs) <==> c in alphabet && OccursIn(c, exprs)
    ensures |OccurringLetters(alphabet, exprs)| <= |alphabet|
  {
    if alphabet != [] {
      var rest := OccurringLetters(alphabet[1..], exprs);
      OccurringLettersSpec(alphabet[1..], exprs);
      assert alphabet == [alphabet[0]] + alphabet[1..];
      forall c | c in alphabet[1..] ensures alphabet[0] < c {
        var k :| 0 <= k < |alphabet[1..]| && alphabet[1..][k] == c;
        assert alphabet[k + 1] == c;
      }
      if OccursIn(alphabet[0], exprs) {
        var r := [alphabet[0]] + rest;
        forall i, j | 0 <= i < j < |r| ensures r[i] < r[j] {
          if i == 0 {
            assert r[j] == rest[j - 1] && rest[j - 1] in rest;
          } else {
            assert r[i] == rest[i - 1] && r[j] == rest[j - 1];
          }
        }
      }
    }
  }

  /** The variables are strictly ascending, hence without repeats; they are
      exactly the letters p, q, r, s, t, z that occur in some expression; so
      there are at most six of them. */
  lemma VariablesOfSpec(exprs: seq<string>)
    ensures StrictlyAscending(VariablesOf(exprs))
    ensures forall c :: c in VariablesOf(exprs) <==> c in Letters && OccursIn(c, exprs)
    ensures |VariablesOf(exprs)| <= 6
  {
    OccurringLettersSpec(Letters, exprs);
  }

  /** Inserting into an ascending sequence keeps it ascending and adds one
      copy of the value. */
  function Insert(x: char, ys: seq<char>): (r: seq<char>)
    requires Ascending(ys)
    ensures Ascending(r) && multiset(r) == multiset(ys) + multiset{x}
    ensures forall c :: c in r <==> c in ys || c == x
  {
    if ys == [] then [x]
    else if x <= ys[0] then
      AscendingCons(x, ys);
      [x] + ys
    else
      assert ys == [ys[0]] + ys[1..];
      var r' := Insert(x, ys[1..]);
      AscendingCons(ys[0], r');
      [ys[0]] + r'
  }

  /** A value no greater than the first element of an ascending sequence may
      go in front of it. */
  lemma AscendingCons(h: char, t: seq<char>)
    requires Ascending(t) && (t == [] || h <= t[0])
    ensures Ascending([h] + t)
  {
  }

  /** `Array.prototype.sort()` without a comparator, on one-letter strings:
      the letters in ascending code-unit order, as a rearrangement of the
      input. */
  function Sort(xs: seq<char>): (r: seq<char>)
    ensures Ascending(r) && multiset(r) == multiset(xs)
  {
    if xs == [] then []
    else
      assert xs == [xs[0]] + xs[1..];
      Insert(xs[0], Sort(xs[1..]))
  }

  /** Two ascending sequences with the same elements, counted with
      multiplicity, are equal: the sorted order of a collection is unique. */
  lemma {:induction false} SortedUnique(a: seq<char>, b: seq<char>)
    requires Ascending(a) && Ascending(b) && multiset(a) == multiset(b)
    ensures a == b
  {
    if a != [] || b != [] {
      SameSmallest(a, b);
      SameRest(a, b);
      SortedUnique(a[1..], b[1..]);
      assert a == [a[0]] + a[1..] && b == [b[0]] + b[1..];
    }
  }

  /** Both start with the smallest element of their common contents. */
  lemma SameSmallest(a: seq<char>, b: seq<char>)
    requires Ascending(a) && Ascending(b) && multiset(a) == multiset(b)
    requires a != [] || b != []
    ensures a != [] && b != [] && a[0] == b[0]
  {
    assert |a| == |multiset(a)| == |multiset(b)| == |b|;
    assert a[0] in multiset(b) && b[0] in multiset(a);
    var k :| 0 <= k < |b| && b[k] == a[0];
    var l :| 0 <= l < |a| && a[l] == b[0];
  }

  /** Removing the same first element leaves the same contents. */
  lemma SameRest(a: seq<char>, b: seq<char>)
    requires a != [] && b != [] && a[0] == b[0] && multiset(a) == multiset(b)
    ensures multiset(a[1..]) == multiset(b[1..])
  {
    assert a == [a[0]] + a[1..] && b == [b[0]] + b[1..];
    assert multiset(a) == multiset{a[0]} + multiset(a[1..]);
    assert multiset(b) == multiset{b[0]} + multiset(b[1..]);
    forall c ensures multiset(a[1..])[c] == multiset(b[1..])[c] {
      assert multiset(a)[c] == multiset{a[0]}[c] + multiset(a[1..])[c];
      assert multiset(b)[c] == multiset{b[0]}[c] + multiset(b[1..])[c];
    }
  }

  /** In a sequence without repeats every element is counted once. */
  lemma {:induction false} DistinctMultiplicity(xs: seq<char>)
    requires Distinct(xs)
    ensures forall c :: multiset(xs)[c] == if c in xs then 1 else 0
  {
    if xs != [] {
      assert xs == [xs[0]] + xs[1..];
      DistinctMultiplicity(xs[1..]);
    }
  }

  /** index.js:24-31: the nested `forEach` adds every letter of `/[pqrstz]/g`
      in every expression to a set, which is then spread and sorted. */
  method GetVariables(expressions: seq<string>) returns (variables: seq<char>)
    ensures variables == VariablesOf(expressions)
    ensures StrictlyAscending(variables) && |variables| <= 6
    ensures forall c :: c in variables <==> c in Letters && OccursIn(c, expressions)
  {
    var matches: seq<char> := [];
    for k := 0 to |expressions|
      invariant Distinct(matches)
      invariant forall c :: c in matches <==> c in Letters && OccursIn(c, expressions[..k])
    {
      var expr := expressions[k];
      assert expressions[..k + 1] == expressions[..k] + [expr];
      for j := 0 to |expr|
        invariant Distinct(matches)
        invariant forall c :: c in matches <==> c in Letters && (OccursIn(c, expressions[..k]) || c in expr[..j])
      {
        assert expr[..j + 1] == expr[..j] + [expr[j]];
        if expr[j] in Letters {
          AddKeeps(matches, expr[j]);
          matches := Add(matches, expr[j]);
        }
      }
      assert expr[..|expr|] == expr;
    }
    assert expressions[..|expressions|] == expressions;
    variables := Sort(matches);

    VariablesOfSpec(expressions);
    var reference := VariablesOf(expressions);
    DistinctMultiplicity(matches);
    assert Distinct(reference);
    DistinctMultiplicity(reference);
    assert multiset(matches) == multiset(reference);
    SortedUnique(variables, reference);
  }
}
