/** JavaScript's `Set`, as the truth-table code uses it: elements are added one
    at a time with `add`, and `[...set]` reads them back once each, in the order
    in which each was first added. A set is modelled by that read-back sequence. */
module OrderedSets {

  /** No element occurs twice. */
  predicate Distinct<T(==)>(xs: seq<T>) {
    forall i, j :: 0 <= i < j < |xs| ==> xs[i] != xs[j]
  }

  /** `set.add(x)`: a value already present changes nothing; a new one goes
      after all the others. */
  function Add<T(==)>(xs: seq<T>, x: T): seq<T> {
    if x in xs then xs else xs + [x]
  }

  /** The contents of a fresh set after `add` has been called on each of `xs`
      in turn. */
  function Dedup<T(==)>(xs: seq<T>): seq<T> {
    if xs == [] then [] else Add(Dedup(xs[..|xs| - 1]), xs[|xs| - 1])
  }

  /** `add` keeps every element where it was, appends at most one, and never
      creates a repeat. */
  lemma AddKeeps<T>(xs: seq<T>, x: T)
    ensures x in Add(xs, x)
    ensures forall y :: y in Add(xs, x) <==> y in xs || y == x
    ensures Add(xs, x)[..|xs|] == xs && |Add(xs, x)| <= |xs| + 1
    ensures Distinct(xs) ==> Distinct(Add(xs, x))
  {
  }

  /** Reading a set back gives no repeats and exactly the values added. */
  lemma {:induction false} DedupContents<T>(xs: seq<T>)
    ensures Distinct(Dedup(xs))
    ensures forall y :: y in Dedup(xs) <==> y in xs
  {
    if xs != [] {
      var ys := xs[..|xs| - 1];
      DedupContents(ys);
      AddKeeps(Dedup(ys), xs[|xs| - 1]);
      assert xs == ys + [xs[|xs| - 1]];
    }
  }

  /** Adding one more value to a set filled from `xs`. */
  lemma DedupSnoc<T>(xs: seq<T>, x: T)
    ensures Dedup(xs + [x]) == Add(Dedup(xs), x)
  {
    assert (xs + [x])[..|xs|] == xs;
  }

  /** `add` called on each of `ys` in turn, starting from `xs`. */
  function AddAll<T(==)>(xs: seq<T>, ys: seq<T>): seq<T>
    decreases |ys|
  {
    if ys == [] then xs else AddAll(Add(xs, ys[0]), ys[1..])
  }

  /** Going on adding to a set filled from `xs` is the same as filling it
      from the concatenation. */
  lemma {:induction false} AddAllDedup<T>(xs: seq<T>, ys: seq<T>)
    ensures AddAll(Dedup(xs), ys) == Dedup(xs + ys)
    decreases |ys|
  {
    if ys == [] {
      assert xs + ys == xs;
    } else {
      DedupSnoc(xs, ys[0]);
      AddAllDedup(xs + [ys[0]], ys[1..]);
      assert xs + [ys[0]] + ys[1..] == xs + ys;
    }
  }

  /** Position of the first occurrence of `x` in `xs`. */
  function IndexOf<T(==)>(xs: seq<T>, x: T): (i: nat)
    requires x in xs
    ensures i < |xs| && xs[i] == x && x !in xs[..i]
  {
    if xs[0] == x then 0
    else
      assert x in xs[1..];
      var i' := IndexOf(xs[1..], x);
      assert xs[..i' + 1] == [xs[0]] + xs[1..][..i'];
      i' + 1
  }

  /** The first occurrence is the only index that has the element and has no
      earlier copy of it. */
  lemma FirstIndexUnique<T>(xs: seq<T>, x: T, i: nat)
    requires i < |xs| && xs[i] == x && x !in xs[..i]
    ensures IndexOf(xs, x) == i
  {
  }

  /** First occurrences in a concatenation: elements of the left part are found
      there; the others are found in the right part, shifted by its length. */
  lemma IndexOfAppend<T>(xs: seq<T>, ys: seq<T>, x: T)
    requires x in xs + ys
    ensures x in xs ==> IndexOf(xs + ys, x) == IndexOf(xs, x)
    ensures x !in xs ==> x in ys && IndexOf(xs + ys, x) == |xs| + IndexOf(ys, x)
  {
    if x in xs {
      var i := IndexOf(xs, x);
      assert (xs + ys)[..i] == xs[..i];
      FirstIndexUnique(xs + ys, x, i);
    } else {
      assert x in ys by {
        var k :| 0 <= k < |xs + ys| && (xs + ys)[k] == x;
        assert k >= |xs|;
        assert ys[k - |xs|] == x;
      }
      var i := IndexOf(ys, x);
      assert (xs + ys)[..|xs| + i] == xs + ys[..i];
      FirstIndexUnique(xs + ys, x, |xs| + i);
    }
  }

  /** Reading a set back lists its elements in the order of their first
      occurrence among the values added: the first `add` of each value decides
      its place and later duplicates are dropped. */
  lemma {:induction false} DedupKeepsFirstOccurrenceOrder<T>(xs: seq<T>, i: nat, j: nat)
    requires i < j < |Dedup(xs)|
    ensures Dedup(xs)[i] in xs && Dedup(xs)[j] in xs
    ensures IndexOf(xs, Dedup(xs)[i]) < IndexOf(xs, Dedup(xs)[j])
  {
    var ys, x := xs[..|xs| - 1], xs[|xs| - 1];
    assert xs == ys + [x];
    var d := Dedup(ys);
    assert Dedup(xs) == Add(d, x);
    DedupContents(ys);
    AddKeeps(d, x);
    assert Dedup(xs)[i] == d[i];
    IndexOfAppend(ys, [x], d[i]);
    if j < |d| {
      assert Dedup(xs)[j] == d[j];
      IndexOfAppend(ys, [x], d[j]);
      DedupKeepsFirstOccurrenceOrder(ys, i, j);
    } else {
      assert x !in d && Dedup(xs)[j] == x;
      IndexOfAppend(ys, [x], x);
    }
  }
}
