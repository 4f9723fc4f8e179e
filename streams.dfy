/** Line streams: extracting keys from lines and first-occurrence
    deduplication, the contract both `seen`-map filters keep. */
module Streams {
  import opened Wrappers

  /** The zero or one key a line contributes. */
  function Listed<U>(o: Option<U>): seq<U> {
    match o
    case None => []
    case Some(u) => [u]
  }

  /** The keys `f` extracts from `xs`, in order; lines without one contribute nothing. */
  function Collect<T, U>(xs: seq<T>, f: T -> Option<U>): seq<U>
    decreases |xs|
  {
    if xs == [] then []
    else
      Collect(xs[..|xs| - 1], f) + Listed(f(xs[|xs| - 1]))
  }

  lemma CollectSnoc<T, U>(xs: seq<T>, x: T, f: T -> Option<U>)
    ensures Collect(xs + [x], f) == Collect(xs, f) + Listed(f(x))
  {
    assert (xs + [x])[..|xs|] == xs;
  }

  /** The keys of a three-line stream. */
  lemma CollectThree<T, U>(x0: T, x1: T, x2: T, f: T -> Option<U>)
    ensures Collect([x0, x1, x2], f) == Listed(f(x0)) + Listed(f(x1)) + Listed(f(x2))
  {
    CollectSnoc([], x0, f);
    assert [] + [x0] == [x0];
    CollectSnoc([x0], x1, f);
    assert [x0] + [x1] == [x0, x1];
    CollectSnoc([x0, x1], x2, f);
    assert [x0, x1] + [x2] == [x0, x1, x2];
  }

  /** A key is collected iff some line yields it. */
  lemma {:induction false} CollectSpec<T, U>(xs: seq<T>, f: T -> Option<U>)
    ensures |Collect(xs, f)| <= |xs|
    ensures forall u :: u in Collect(xs, f) <==> exists k :: 0 <= k < |xs| && f(xs[k]) == Some(u)
    decreases |xs|
  {
    if xs != [] {
      var init := xs[..|xs| - 1];
      CollectSpec(init, f);
      forall u ensures u in Collect(xs, f) <==> exists k :: 0 <= k < |xs| && f(xs[k]) == Some(u) {
        if u in Collect(init, f) {
          var k :| 0 <= k < |init| && f(init[k]) == Some(u);
          assert xs[k] == init[k];
        }
        if k :| 0 <= k < |xs| && f(xs[k]) == Some(u) {
          if k < |init| {
            assert init[k] == xs[k];
          }
        }
      }
    }
  }

  /** `a` is `b` with some elements left out, the rest in their order. */
  predicate Subsequence<T(==)>(a: seq<T>, b: seq<T>)
    decreases |b|
  {
    || a == []
    || (&& b != []
        && ((a[|a| - 1] == b[|b| - 1] && Subsequence(a[..|a| - 1], b[..|b| - 1]))
            || Subsequence(a, b[..|b| - 1])))
  }

  lemma SubsequenceSkip<T>(a: seq<T>, b: seq<T>, x: T)
    requires Subsequence(a, b)
    ensures Subsequence(a, b + [x])
  {
    assert (b + [x])[..|b|] == b;
  }

  lemma SubsequenceKeep<T>(a: seq<T>, b: seq<T>, x: T)
    requires Subsequence(a, b)
    ensures Subsequence(a + [x], b + [x])
  {
    assert (b + [x])[..|b|] == b;
    assert (a + [x])[..|a|] == a;
  }

  /** A filter that keeps or drops each element keeps the survivors in order. */
  lemma {:induction false} CollectKeepsOrder<T>(xs: seq<T>, f: T -> Option<T>)
    requires forall x :: f(x).Some? ==> f(x).value == x
    ensures Subsequence(Collect(xs, f), xs)
    decreases |xs|
  {
    if xs != [] {
      var init := xs[..|xs| - 1];
      var last := xs[|xs| - 1];
      assert xs == init + [last];
      CollectKeepsOrder(init, f);
      CollectSnoc(init, last, f);
      if f(last).Some? {
        SubsequenceKeep(Collect(init, f), init, last);
      } else {
        SubsequenceSkip(Collect(init, f), init, last);
        assert Collect(init, f) + [] == Collect(init, f);
      }
    }
  }

  /** A filter that keeps or drops each element keeps every copy of an
      element it keeps and none of one it drops. */
  lemma {:induction false} CollectKeepsCopies<T>(xs: seq<T>, f: T -> Option<T>)
    requires forall x :: f(x).Some? ==> f(x).value == x
    ensures forall x :: multiset(Collect(xs, f))[x] == if f(x) == Some(x) then multiset(xs)[x] else 0
    decreases |xs|
  {
    if xs != [] {
      var init := xs[..|xs| - 1];
      var last := xs[|xs| - 1];
      assert xs == init + [last];
      CollectKeepsCopies(init, f);
      CollectSnoc(init, last, f);
      assert multiset(Collect(xs, f)) == multiset(Collect(init, f)) + multiset(Listed(f(last)));
      assert multiset(xs) == multiset(init) + multiset{last};
      forall x ensures multiset(Listed(f(last)))[x] == if f(x) == Some(x) && x == last then 1 else 0 {
        if f(last).Some? {
          assert Listed(f(last)) == [last];
        }
      }
    }
  }

  /** Go's `seen[k]` on a `map[string]bool`: a missing key reads as false. */
  function Seen<K>(seen: map<K, bool>, k: K): bool {
    k in seen && seen[k]
  }

  /** No element occurs twice. */
  predicate Distinct<T(==)>(xs: seq<T>) {
    forall i, j :: 0 <= i < j < |xs| ==> xs[i] != xs[j]
  }

  /** `xs[k]` is kept iff it does not occur in `xs[..k]`. */
  function FirstSeen<T(==)>(xs: seq<T>): seq<T>
    decreases |xs|
  {
    if xs == [] then []
    else
      var init := xs[..|xs| - 1];
      var last := xs[|xs| - 1];
      if last in init then FirstSeen(init) else FirstSeen(init) + [last]
  }

  /** Index of the first occurrence of `x` in `xs`. */
  function FirstIndex<T(==)>(xs: seq<T>, x: T): (k: nat)
    requires x in xs
    ensures k < |xs| && xs[k] == x && x !in xs[..k]
    decreases |xs|
  {
    var init := xs[..|xs| - 1];
    if x in init then FirstIndex(init, x) else |xs| - 1
  }

  /** What the deduplicated stream is: every element of the input exactly once,
      nothing else, in the order of first occurrence. */
  lemma {:induction false} FirstSeenSpec<T>(xs: seq<T>)
    ensures forall x :: x in FirstSeen(xs) <==> x in xs
    ensures Distinct(FirstSeen(xs))
    ensures forall i, j :: 0 <= i < j < |FirstSeen(xs)| ==>
              FirstIndex(xs, FirstSeen(xs)[i]) < FirstIndex(xs, FirstSeen(xs)[j])
    decreases |xs|
  {
    if xs != [] {
      var init := xs[..|xs| - 1];
      var last := xs[|xs| - 1];
      assert xs == init + [last];
      FirstSeenSpec(init);
      var r := FirstSeen(init);
      forall x | x in init ensures FirstIndex(xs, x) == FirstIndex(init, x) {
      }
      if last !in init {
        assert FirstIndex(xs, last) == |xs| - 1;
        forall x | x in r ensures FirstIndex(xs, x) < |xs| - 1 {
        }
      }
    }
  }

  /** One step of a scanner loop over an extracted key. */
  lemma FirstSeenStep<T>(xs: seq<T>, key: Option<T>)
    ensures FirstSeen(xs + Listed(key))
            == if key.Some? && key.value !in FirstSeen(xs) then FirstSeen(xs) + [key.value] else FirstSeen(xs)
  {
    if key.Some? {
      FirstSeenSnoc(xs, key.value);
    } else {
      assert xs + [] == xs;
    }
  }

  /** The `seen` map of a scanner loop holds `true` for exactly the keys emitted. */
  ghost predicate SeenMatches<K(!new)>(seen: map<K, bool>, out: seq<K>) {
    (forall k :: k in seen <==> k in out) && forall k :: k in seen ==> seen[k]
  }

  /** One iteration of a `seen`-map scanner loop: a key not seen yet is
      recorded and emitted, anything else leaves both unchanged. */
  lemma ScanStep<K(!new)>(keys: seq<K>, key: Option<K>, seen: map<K, bool>)
    requires SeenMatches(seen, FirstSeen(keys))
    ensures var emit := key.Some? && !Seen(seen, key.value);
            && FirstSeen(keys + Listed(key))
               == (if emit then FirstSeen(keys) + [key.value] else FirstSeen(keys))
            && SeenMatches(if emit then seen[key.value := true] else seen, FirstSeen(keys + Listed(key)))
  {
    FirstSeenStep(keys, key);
  }

  /** A repeated key is dropped the second time. */
  lemma FirstSeenRepeat<T>(a: T, b: T)
    requires a != b
    ensures FirstSeen([a, b, a]) == [a, b]
  {
    assert [a, b, a][..2] == [a, b] && [a, b][0] == a;
    assert [a, b][..1] == [a] && b !in [a];
    assert [a][..0] == [];
    assert FirstSeen([a]) == [a];
  }

  /** One step of the scanner loop: the stream grows by at most the new key. */
  lemma FirstSeenSnoc<T>(xs: seq<T>, x: T)
    ensures FirstSeen(xs + [x]) == if x in FirstSeen(xs) then FirstSeen(xs) else FirstSeen(xs) + [x]
  {
    assert (xs + [x])[..|xs|] == xs;
    FirstSeenSpec(xs);
  }
}
