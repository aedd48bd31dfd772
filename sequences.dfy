/** Sequence functions shared by the containers: value-based filtering (what
    fixed_vector::erase computes), duplicate-freedom, the set of elements of a
    sequence and the position of an element. */
module Sequences {

  /** `s` with every occurrence of `v` removed; the survivors keep their order. */
  function Filter<T(==)>(s: seq<T>, v: T): (r: seq<T>)
    decreases |s|
  {
    if s == [] then []
    else
      var init, last := s[..|s| - 1], s[|s| - 1];
      if last == v then Filter(init, v) else Filter(init, v) + [last]
  }

  /** Filtering removes every occurrence of `v` and keeps every other element
      with its multiplicity. */
  lemma {:induction false} FilterMultiset<T>(s: seq<T>, v: T)
    ensures multiset(Filter(s, v)) == multiset(s)[v := 0]
    decreases |s|
  {
    if s != [] {
      var init := s[..|s| - 1];
      assert s == init + [s[|s| - 1]];
      FilterMultiset(init, v);
    }
  }

  /** Filtering removes exactly the occurrences of `v`. */
  lemma {:induction false} FilterLength<T>(s: seq<T>, v: T)
    ensures |Filter(s, v)| == |s| - multiset(s)[v]
    decreases |s|
  {
    if s != [] {
      var init := s[..|s| - 1];
      assert s == init + [s[|s| - 1]];
      FilterLength(init, v);
    }
  }

  /** Filtering distributes over concatenation: survivors stay in their original order. */
  lemma {:induction false} FilterAppend<T>(a: seq<T>, b: seq<T>, v: T)
    ensures Filter(a + b, v) == Filter(a, v) + Filter(b, v)
    decreases |b|
  {
    if b == [] {
      assert a + b == a;
    } else {
      var init := b[..|b| - 1];
      assert (a + b)[..|a + b| - 1] == a + init;
      FilterAppend(a, init, v);
    }
  }

  /** Filtering a value that does not occur changes nothing. */
  lemma {:induction false} FilterAbsent<T>(s: seq<T>, v: T)
    requires v !in s
    ensures Filter(s, v) == s
    decreases |s|
  {
    if s != [] {
      var init := s[..|s| - 1];
      assert s == init + [s[|s| - 1]];
      FilterAbsent(init, v);
    }
  }

  /** No element occurs twice. */
  ghost predicate NoDuplicates<T>(s: seq<T>) {
    forall x | x in s :: multiset(s)[x] <= 1
  }

  /** The set of elements of `s`. */
  ghost function Elements<T>(s: seq<T>): set<T> {
    set x | x in s
  }

  /** A duplicate-free sequence has as many elements as its set. */
  lemma {:induction false} NoDuplicatesCard<T>(s: seq<T>)
    requires NoDuplicates(s)
    ensures |Elements(s)| == |s|
    decreases |s|
  {
    if s != [] {
      var init, last := s[..|s| - 1], s[|s| - 1];
      assert s == init + [last];
      assert multiset(s) == multiset(init) + multiset{last};
      forall x | x in init ensures multiset(init)[x] <= 1 {
        assert multiset(s)[x] <= 1;
      }
      assert last !in init by {
        assert multiset(s)[last] <= 1;
      }
      NoDuplicatesCard(init);
      assert Elements(s) == Elements(init) + {last};
    }
  }

  /** Filtering a duplicate-free sequence removes `v` from its set, keeps it
      duplicate-free, and shortens it by one exactly when `v` was there. */
  lemma FilterNoDuplicates<T>(s: seq<T>, v: T)
    requires NoDuplicates(s)
    ensures NoDuplicates(Filter(s, v))
    ensures Elements(Filter(s, v)) == Elements(s) - {v}
    ensures |Filter(s, v)| == |s| - (if v in s then 1 else 0)
  {
    var r := Filter(s, v);
    FilterMultiset(s, v);
    forall x | x in r ensures multiset(r)[x] <= 1 {
      assert multiset(s)[x] <= 1;
    }
    forall x ensures x in r <==> x in s && x != v {
      assert x in r <==> x in multiset(r);
      assert x in s <==> x in multiset(s);
    }
    FilterLength(s, v);
    assert v in s <==> v in multiset(s);
    assert multiset(s)[v] <= 1;
  }

  /** Appending an element that is not yet present keeps a sequence duplicate-free. */
  lemma AppendNoDuplicates<T>(s: seq<T>, v: T)
    requires NoDuplicates(s) && v !in s
    ensures NoDuplicates(s + [v])
    ensures Elements(s + [v]) == Elements(s) + {v}
  {
    assert multiset(s + [v]) == multiset(s) + multiset{v};
    forall x | x in s + [v] ensures multiset(s + [v])[x] <= 1 {
      assert multiset(s)[x] <= 1;
      assert v !in multiset(s);
    }
  }

  /** The position of the first occurrence of `v` in `s`. */
  function IndexOf<T(==)>(s: seq<T>, v: T): (i: nat)
    requires v in s
    ensures i < |s| && s[i] == v && v !in s[..i]
  {
    if s[0] == v then 0
    else
      assert v in s[1..] by { assert s == [s[0]] + s[1..]; }
      var j := IndexOf(s[1..], v);
      assert s[..j + 1] == [s[0]] + s[1..][..j];
      1 + j
  }
}
