/** Order-preserving removal of duplicates: the reference definition the sink
    loop is measured against. */
module Sequences {

  /** No element occurs twice. */
  ghost predicate Distinct<T>(xs: seq<T>) {
    forall i, j :: 0 <= i < j < |xs| ==> xs[i] != xs[j]
  }

  /** Position of the first occurrence of `x` in `xs`. */
  function FirstIndex<T(==)>(xs: seq<T>, x: T): (i: nat)
    requires x in xs
    ensures i < |xs| && xs[i] == x
    ensures forall j :: 0 <= j < i ==> xs[j] != x
    decreases |xs|
  {
    if xs[0] == x then 0 else 1 + FirstIndex(xs[1..], x)
  }

  /** `xs` with every element that already occurred earlier dropped. Defined on
      the last element so that it follows a loop that appends as it scans. */
  function Dedup<T(==,!new)>(xs: seq<T>): (r: seq<T>)
    ensures Distinct(r)
    ensures forall x :: x in r <==> x in xs
    ensures |r| <= |xs|
    decreases |xs|
  {
    if |xs| == 0 then []
    else
      var prefix := Dedup(xs[..|xs| - 1]);
      var last := xs[|xs| - 1];
      if last in prefix then prefix else prefix + [last]
  }

  // Small identities on sequences, kept apart so that each proof using them
  // needs no reasoning about sequence extensionality.

  lemma AppendAssoc<T>(x: seq<T>, y: seq<T>, z: seq<T>)
    ensures (x + y) + z == x + (y + z)
  {
  }

  lemma DropLastOfAppend<T>(a: seq<T>, b: seq<T>)
    requires |b| > 0
    ensures (a + b)[..|a + b| - 1] == a + b[..|b| - 1]
    ensures (a + b)[|a + b| - 1] == b[|b| - 1]
  {
  }

  lemma TakeOneMore<T>(xs: seq<T>, i: nat)
    requires i < |xs|
    ensures xs[..i + 1] == xs[..i] + [xs[i]]
  {
  }

  lemma AppendEmpty<T>(xs: seq<T>)
    ensures xs + [] == xs && [] + xs == xs
  {
  }

  lemma PrefixOfAppend<T>(p: seq<T>, m: seq<T>)
    ensures p <= p + m && (p + m)[|p|..] == m
  {
  }

  /** Scanning one more element appends it exactly when it is new. */
  lemma DedupSnoc<T(!new)>(xs: seq<T>, x: T)
    ensures Dedup(xs + [x]) == if x in Dedup(xs) then Dedup(xs) else Dedup(xs) + [x]
  {
    assert (xs + [x])[..|xs|] == xs;
  }

  /** The first occurrence in a prefix is the first occurrence in the whole. */
  lemma FirstIndexOfPrefix<T>(xs: seq<T>, n: nat, x: T)
    requires n <= |xs| && x in xs[..n]
    ensures FirstIndex(xs, x) == FirstIndex(xs[..n], x)
  {
    var i := FirstIndex(xs[..n], x);
    var k := FirstIndex(xs, x);
    assert xs[i] == xs[..n][i] == x;
    assert k <= i;
    assert xs[..n][k] == xs[k] == x;
  }

  /** The kept elements appear in the order of their first occurrences in the
      input; together with `Distinct` and the membership clause of `Dedup`,
      this pins the result down to one sequence. */
  lemma {:induction false} DedupFirstOccurrenceOrder<T(!new)>(xs: seq<T>)
    ensures forall i, j :: 0 <= i < j < |Dedup(xs)| ==>
      FirstIndex(xs, Dedup(xs)[i]) < FirstIndex(xs, Dedup(xs)[j])
    decreases |xs|
  {
    if |xs| > 0 {
      var n := |xs| - 1;
      var ys := xs[..n];
      var p := Dedup(ys);
      var r := Dedup(xs);
      DedupFirstOccurrenceOrder(ys);
      forall k | 0 <= k < |p|
        ensures FirstIndex(xs, p[k]) == FirstIndex(ys, p[k]) < n
      {
        FirstIndexOfPrefix(xs, n, p[k]);
      }
      if xs[n] !in p {
        assert xs[n] !in ys;
        assert FirstIndex(xs, xs[n]) == n;
        assert r == p + [xs[n]];
      }
    }
  }

  /** `r` lists elements of `xs`, strictly in the order of their first
      occurrences in `xs` (so none twice). */
  ghost predicate InFirstOccurrenceOrder<T>(xs: seq<T>, r: seq<T>) {
    && (forall k :: 0 <= k < |r| ==> r[k] in xs)
    && (forall i, j :: 0 <= i < j < |r| ==> FirstIndex(xs, r[i]) < FirstIndex(xs, r[j]))
  }

  /** Dropping the head keeps the order, and removes exactly the head. */
  lemma OrderedTail<T>(xs: seq<T>, r: seq<T>)
    requires InFirstOccurrenceOrder(xs, r) && |r| > 0
    ensures InFirstOccurrenceOrder(xs, r[1..])
    ensures forall x :: x in r[1..] <==> x in r && x != r[0]
  {
    forall x | x in r[1..]
      ensures x != r[0]
    {
      var i :| 0 <= i < |r| - 1 && r[1..][i] == x;
      assert FirstIndex(xs, r[0]) < FirstIndex(xs, r[i + 1]);
    }
    assert r == [r[0]] + r[1..];
  }

  /** Lists with the same elements in first-occurrence order start alike. */
  lemma OrderedHeads<T>(xs: seq<T>, r1: seq<T>, r2: seq<T>)
    requires InFirstOccurrenceOrder(xs, r1) && InFirstOccurrenceOrder(xs, r2)
    requires forall x :: x in r1 <==> x in r2
    requires |r1| > 0
    ensures |r2| > 0 && r1[0] == r2[0]
  {
    assert r1[0] in r2;
    var j :| 0 <= j < |r2| && r2[j] == r1[0];
    assert r2[0] in r1;
    var i :| 0 <= i < |r1| && r1[i] == r2[0];
  }

  /** Two lists with the same elements, both in first-occurrence order, are equal. */
  lemma {:induction false} FirstOccurrenceOrderUnique<T>(xs: seq<T>, r1: seq<T>, r2: seq<T>)
    requires InFirstOccurrenceOrder(xs, r1) && InFirstOccurrenceOrder(xs, r2)
    requires forall x :: x in r1 <==> x in r2
    ensures r1 == r2
    decreases |r1|
  {
    if |r2| > 0 {
      assert r2[0] in r1;
    }
    if |r1| > 0 {
      OrderedHeads(xs, r1, r2);
      OrderedTail(xs, r1);
      OrderedTail(xs, r2);
      FirstOccurrenceOrderUnique(xs, r1[1..], r2[1..]);
      assert r1 == [r1[0]] + r1[1..];
      assert r2 == [r2[0]] + r2[1..];
    }
  }

  /** `Dedup(xs)` is the one list of exactly the elements of `xs` in the order
      of their first occurrences. */
  lemma DedupCharacterization<T(!new)>(xs: seq<T>, r: seq<T>)
    ensures r == Dedup(xs) <==> InFirstOccurrenceOrder(xs, r) && (forall x :: x in r <==> x in xs)
  {
    DedupFirstOccurrenceOrder(xs);
    if InFirstOccurrenceOrder(xs, r) && (forall x :: x in r <==> x in xs) {
      FirstOccurrenceOrderUnique(xs, r, Dedup(xs));
    }
  }

  /** A sequence without repeats has as many elements as its set. */
  lemma {:induction false} DistinctCardinality<T>(xs: seq<T>)
    requires Distinct(xs)
    ensures |set x | x in xs| == |xs|
    decreases |xs|
  {
    if |xs| > 0 {
      var ys := xs[..|xs| - 1];
      DistinctCardinality(ys);
      assert (set x | x in xs) == (set y | y in ys) + {xs[|xs| - 1]};
      assert xs[|xs| - 1] !in ys;
    }
  }

  /** The result has exactly one element per distinct element of the input. */
  lemma DedupLength<T(!new)>(xs: seq<T>)
    ensures |Dedup(xs)| == |set x | x in xs|
  {
    var r := Dedup(xs);
    DistinctCardinality(r);
    assert (set x | x in r) == (set x | x in xs);
  }

  /** Removing duplicates twice removes nothing more. */
  lemma {:induction false} DedupIdempotent<T(!new)>(xs: seq<T>)
    ensures Dedup(Dedup(xs)) == Dedup(xs)
  {
    DistinctDedupIsIdentity(Dedup(xs));
  }

  /** A sequence without repeats is left as it is. */
  lemma {:induction false} DistinctDedupIsIdentity<T(!new)>(xs: seq<T>)
    requires Distinct(xs)
    ensures Dedup(xs) == xs
    decreases |xs|
  {
    if |xs| > 0 {
      var ys := xs[..|xs| - 1];
      DistinctDedupIsIdentity(ys);
      assert xs[|xs| - 1] !in ys;
      assert xs == ys + [xs[|xs| - 1]];
    }
  }
}
