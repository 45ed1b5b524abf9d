/** Reference definitions of the set operations, on the sequence of stored
    elements. Every definition is left-recursive (it peels off the LAST
    element), so that it follows the C loops, which append to the result one
    element at a time. */
module SetSpec {
  import opened Common

  /** No two positions hold the same value: the canonical-form invariant. */
  predicate NoDups(xs: seq<int32>) {
    forall i, j :: 0 <= i < j < |xs| ==> xs[i] != xs[j]
  }

  /** Both sequences hold the same values, ignoring order and repetition. */
  predicate SameElements(a: seq<int32>, b: seq<int32>) {
    (forall x :: x in a ==> x in b) && (forall x :: x in b ==> x in a)
  }

  /** The elements x of `a`, in `a`'s order, for which `(x in b) == keep`.
      With keep == false this is the difference a - b, with keep == true the
      intersection. */
  function Select(a: seq<int32>, b: seq<int32>, keep: bool): (r: seq<int32>)
    ensures forall x :: x in r <==> x in a && (x in b) == keep
    ensures |r| <= |a|
    ensures NoDups(a) ==> NoDups(r)
  {
    if a == [] then []
    else
      var init, last := a[..|a| - 1], a[|a| - 1];
      assert a == init + [last];
      assert NoDups(a) ==> NoDups(init) && last !in init;
      Select(init, b, keep) + (if (last in b) == keep then [last] else [])
  }

  /** One more element of a decides one more element of the selection. */
  lemma SelectStep(a: seq<int32>, b: seq<int32>, keep: bool, i: nat)
    requires i < |a|
    ensures Select(a[..i + 1], b, keep) == Select(a[..i], b, keep) + (if (a[i] in b) == keep then [a[i]] else [])
  {
    assert a[..i + 1][..i] == a[..i];
  }

  /** A result that fits in an Intset, or the capacity error. */
  function Bounded(xs: seq<int32>): (r: Result<seq<int32>>)
    ensures r.Ok? <==> |xs| <= MAX
    ensures r.Ok? ==> r.value == xs
    ensures r.Err? ==> r.error == CapacityExceeded
  {
    if |xs| <= MAX then Ok(xs) else Err(CapacityExceeded)
  }

  /** All of `a`, then the elements of `b` that are not in `a`. */
  function Union(a: seq<int32>, b: seq<int32>): seq<int32> {
    a + Select(b, a, false)
  }

  /** The elements of `a` not in `b`, then the elements of `b` not in `a`. */
  function Disjunction(a: seq<int32>, b: seq<int32>): seq<int32> {
    Select(a, b, false) + Select(b, a, false)
  }

  /** Number of positions of `b` holding `x`. */
  function CountIn(b: seq<int32>, x: int32): nat {
    if b == [] then 0
    else CountIn(b[..|b| - 1], x) + (if b[|b| - 1] == x then 1 else 0)
  }

  /** Number of pairs (i, j) with a[i] == b[j]: what the counting loops of
      intset_equal and intset_subset accumulate. */
  function Matches(a: seq<int32>, b: seq<int32>): nat {
    if a == [] then 0
    else Matches(a[..|a| - 1], b) + CountIn(b, a[|a| - 1])
  }

  /** Keeps the first occurrence of every value, in order. */
  function Dedup(xs: seq<int32>): seq<int32> {
    if xs == [] then []
    else
      var d := Dedup(xs[..|xs| - 1]);
      if xs[|xs| - 1] in d then d else d + [xs[|xs| - 1]]
  }

  /** Position of the first occurrence of `x` in `xs`. */
  function FirstIndex(xs: seq<int32>, x: int32): (k: nat)
    requires x in xs
    ensures k < |xs| && xs[k] == x && x !in xs[..k]
  {
    if xs[0] == x then 0
    else
      assert x in xs[1..];
      var k := FirstIndex(xs[1..], x);
      assert xs[..k + 1] == [xs[0]] + xs[1..][..k];
      k + 1
  }

  // ---------------------------------------------------------------------
  // Select

  /** Selecting from a prefix gives a prefix of the selection. */
  lemma {:induction false} SelectPrefix(a: seq<int32>, b: seq<int32>, keep: bool, n: nat)
    requires n <= |a|
    ensures Select(a[..n], b, keep) <= Select(a, b, keep)
    ensures |Select(a[..n], b, keep)| <= |Select(a, b, keep)|
  {
    if n < |a| {
      SelectPrefix(a[..|a| - 1], b, keep, n);
      assert a[..|a| - 1][..n] == a[..n];
    } else {
      assert a[..n] == a;
    }
  }

  /** A selection keeps everything exactly when every element qualifies. */
  lemma {:induction false} SelectAll(a: seq<int32>, b: seq<int32>, keep: bool)
    ensures Select(a, b, keep) == a <==> forall x :: x in a ==> (x in b) == keep
  {
    if a != [] {
      var init, last := a[..|a| - 1], a[|a| - 1];
      assert a == init + [last];
      SelectAll(init, b, keep);
      if (last in b) != keep {
        assert |Select(a, b, keep)| <= |init| < |a|;
      } else if Select(a, b, keep) == a {
        assert Select(init, b, keep) == init;
      } else {
        assert Select(init, b, keep) != init;
      }
    }
  }

  /** A selection is empty when no element qualifies. */
  lemma {:induction false} SelectNone(a: seq<int32>, b: seq<int32>, keep: bool)
    requires forall x :: x in a ==> (x in b) != keep
    ensures Select(a, b, keep) == []
  {
    if a != [] {
      assert a == a[..|a| - 1] + [a[|a| - 1]];
      SelectNone(a[..|a| - 1], b, keep);
    }
  }

  /** Difference of a sequence with itself is empty. */
  lemma MinusSelf(a: seq<int32>)
    ensures Select(a, a, false) == []
  {
    SelectNone(a, a, false);
  }

  /** Intersection of a sequence with itself is the sequence, order included. */
  lemma IntersectionSelf(a: seq<int32>)
    ensures Select(a, a, true) == a
  {
    SelectAll(a, a, true);
  }

  // ---------------------------------------------------------------------
  // Union and disjunction

  /** Membership, canonical form and size of a union. */
  lemma UnionFacts(a: seq<int32>, b: seq<int32>)
    ensures forall x :: x in Union(a, b) <==> x in a || x in b
    ensures NoDups(a) && NoDups(b) ==> NoDups(Union(a, b))
    ensures |a| <= |Union(a, b)| <= |a| + |b|
  {
    var r := Select(b, a, false);
    if NoDups(a) && NoDups(b) {
      forall i, j | 0 <= i < j < |a + r| ensures (a + r)[i] != (a + r)[j] {
        if j >= |a| && i < |a| {
          assert (a + r)[j] == r[j - |a|] && r[j - |a|] in r;
        }
      }
    }
  }

  /** Membership, canonical form and size of a symmetric difference. */
  lemma DisjunctionFacts(a: seq<int32>, b: seq<int32>)
    ensures forall x :: x in Disjunction(a, b) <==> (x in a) != (x in b)
    ensures NoDups(a) && NoDups(b) ==> NoDups(Disjunction(a, b))
    ensures |Disjunction(a, b)| <= |a| + |b|
  {
    var l, r := Select(a, b, false), Select(b, a, false);
    if NoDups(a) && NoDups(b) {
      forall i, j | 0 <= i < j < |l + r| ensures (l + r)[i] != (l + r)[j] {
        if j >= |l| && i < |l| {
          assert (l + r)[i] == l[i] && l[i] in l;
          assert (l + r)[j] == r[j - |l|] && r[j - |l|] in r;
        }
      }
    }
  }

  /** The symmetric difference is, exactly and in order, the union of the two
      differences. */
  lemma DisjunctionIsUnionOfDifferences(a: seq<int32>, b: seq<int32>)
    ensures Disjunction(a, b) == Union(Select(a, b, false), Select(b, a, false))
  {
    var l, r := Select(a, b, false), Select(b, a, false);
    SelectAll(r, l, false);
  }

  /** Union is commutative up to order. */
  lemma UnionCommutes(a: seq<int32>, b: seq<int32>)
    ensures SameElements(Union(a, b), Union(b, a))
  {
    UnionFacts(a, b);
    UnionFacts(b, a);
  }

  // ---------------------------------------------------------------------
  // Counting matches (intset_equal, intset_subset)

  /** In a duplicate-free sequence a value occurs at most once. */
  lemma {:induction false} CountInNoDups(b: seq<int32>, x: int32)
    requires NoDups(b)
    ensures CountIn(b, x) == if x in b then 1 else 0
  {
    if b != [] {
      var init := b[..|b| - 1];
      assert b == init + [b[|b| - 1]];
      CountInNoDups(init, x);
    }
  }

  /** Against a duplicate-free `b`, the match count is the number of
      elements of `a` that occur in `b`. */
  lemma {:induction false} MatchesNoDups(a: seq<int32>, b: seq<int32>)
    requires NoDups(b)
    ensures Matches(a, b) == |Select(a, b, true)|
  {
    if a != [] {
      MatchesNoDups(a[..|a| - 1], b);
      CountInNoDups(b, a[|a| - 1]);
    }
  }

  /** The subset rule of intset_subset: with a duplicate-free `b`, the match
      count reaches |a| exactly when every element of `a` is in `b`. */
  lemma SubsetRule(a: seq<int32>, b: seq<int32>)
    requires NoDups(b)
    ensures Matches(a, b) == |a| <==> forall x :: x in a ==> x in b
  {
    MatchesNoDups(a, b);
    SelectAll(a, b, true);
    if Matches(a, b) == |a| && Select(a, b, true) != a {
      // |Select| == |a| forces equality: dropping any element shortens it
      SelectFull(a, b, true);
    }
  }

  /** A selection as long as its source keeps everything. */
  lemma {:induction false} SelectFull(a: seq<int32>, b: seq<int32>, keep: bool)
    requires |Select(a, b, keep)| == |a|
    ensures Select(a, b, keep) == a
  {
    if a != [] {
      var init, last := a[..|a| - 1], a[|a| - 1];
      assert a == init + [last];
      assert |Select(init, b, keep)| <= |init|;
      SelectFull(init, b, keep);
    }
  }

  /** The equality rule of intset_equal: for duplicate-free operands, both
      match counts are full exactly when the operands hold the same values. */
  lemma EqualRule(a: seq<int32>, b: seq<int32>)
    requires NoDups(a) && NoDups(b)
    ensures (Matches(a, b) == |a| && Matches(b, a) == |b|) <==> SameElements(a, b)
  {
    SubsetRule(a, b);
    SubsetRule(b, a);
  }

  /** Against a `b` with a repeated value the count rule of intset_subset
      answers true although `a` is not a subset of `b`. */
  lemma SubsetRuleNeedsNoDups()
    ensures Matches([1, 2], [1, 1]) == 2 && 2 !in [1, 1]
  {
    assert [1, 2][..1] == [1];
    assert [1, 1][..1] == [1];
    assert [1][..0] == [];
  }

  // ---------------------------------------------------------------------
  // Dedup (canonicalisation in intset_in)

  /** Membership, canonical form and size of Dedup. */
  lemma {:induction false} DedupFacts(xs: seq<int32>)
    ensures forall x :: x in Dedup(xs) <==> x in xs
    ensures NoDups(Dedup(xs))
    ensures |Dedup(xs)| <= |xs|
  {
    if xs != [] {
      var init := xs[..|xs| - 1];
      assert xs == init + [xs[|xs| - 1]];
      DedupFacts(init);
    }
  }

  /** Dedup of a prefix is a prefix of Dedup. */
  lemma {:induction false} DedupPrefix(xs: seq<int32>, n: nat)
    requires n <= |xs|
    ensures Dedup(xs[..n]) <= Dedup(xs)
    ensures |Dedup(xs[..n])| <= |Dedup(xs)|
  {
    if n < |xs| {
      DedupPrefix(xs[..|xs| - 1], n);
      assert xs[..|xs| - 1][..n] == xs[..n];
    } else {
      assert xs[..n] == xs;
    }
  }

  /** A duplicate-free sequence is its own canonical form. */
  lemma {:induction false} DedupOfNoDups(xs: seq<int32>)
    requires NoDups(xs)
    ensures Dedup(xs) == xs
  {
    if xs != [] {
      var init := xs[..|xs| - 1];
      assert xs == init + [xs[|xs| - 1]];
      assert xs[|xs| - 1] !in init;
      DedupOfNoDups(init);
    }
  }

  /** Canonicalisation is idempotent. */
  lemma DedupIdempotent(xs: seq<int32>)
    ensures Dedup(Dedup(xs)) == Dedup(xs)
  {
    DedupFacts(xs);
    DedupOfNoDups(Dedup(xs));
  }

  /** First-occurrence order: the values of Dedup(xs) appear in the order of
      their first occurrence in xs. */
  lemma {:induction false} DedupOrder(xs: seq<int32>, i: nat, j: nat)
    requires i < j < |Dedup(xs)|
    ensures Dedup(xs)[i] in xs && Dedup(xs)[j] in xs
    ensures FirstIndex(xs, Dedup(xs)[i]) < FirstIndex(xs, Dedup(xs)[j])
  {
    DedupFacts(xs);
    var d := Dedup(xs);
    assert d[i] in d && d[j] in d;
    var init, last := xs[..|xs| - 1], xs[|xs| - 1];
    assert xs == init + [last];
    var e := Dedup(init);
    DedupFacts(init);
    if j < |e| {
      DedupOrder(init, i, j);
      FirstIndexExtend(init, last, e[i]);
      FirstIndexExtend(init, last, e[j]);
    } else {
      // d == e + [last] and last occurs in xs only at the end
      assert d[j] == last && last !in init;
      assert e[i] in e;
      FirstIndexExtend(init, last, e[i]);
      var k := FirstIndex(xs, last);
      assert xs[k] == last;
      assert k == |init|;
    }
  }

  /** Appending keeps first occurrences of values already present. */
  lemma FirstIndexExtend(xs: seq<int32>, z: int32, y: int32)
    requires y in xs
    ensures FirstIndex(xs + [z], y) == FirstIndex(xs, y)
  {
    var k, k' := FirstIndex(xs, y), FirstIndex(xs + [z], y);
    assert (xs + [z])[k] == y;
  }

  /** The set of values a sequence holds. */
  function Values(xs: seq<int32>): set<int32> {
    set x | x in xs
  }

  /** A duplicate-free sequence has as many elements as its set of values. */
  lemma {:induction false} DistinctCount(xs: seq<int32>)
    requires NoDups(xs)
    ensures |Values(xs)| == |xs|
  {
    if xs != [] {
      var init, last := xs[..|xs| - 1], xs[|xs| - 1];
      assert xs == init + [last];
      assert NoDups(init) by {
        forall i, j | 0 <= i < j < |init| ensures init[i] != init[j] {
          assert init[i] == xs[i] && init[j] == xs[j];
        }
      }
      DistinctCount(init);
      assert Values(xs) == Values(init) + {last};
      assert Values(init) * {last} == {};
    }
  }
}
