/** boost::unordered_flat_multiset<T>: a multiset stored as a map from element
    to occurrence count, with no zero counts, and a flattened_iterator that
    yields each key `count` times without building the expanded sequence.
    The hash map is a Dafny map plus a sequence of its distinct keys standing
    for the map's (unspecified) iteration order. */
module FlatMultisets {
  import opened Sequences
  import opened Limits

  /** The stored count of `k`, or 0 when `k` has no entry. */
  function CountIn<T>(counts: map<T, nat>, k: T): nat {
    if k in counts then counts[k] else 0
  }

  /** `n` copies of `x`. */
  function Repeat<T>(x: T, n: nat): (r: seq<T>)
    ensures |r| == n
    ensures forall i :: 0 <= i < n ==> r[i] == x
  {
    if n == 0 then [] else [x] + Repeat(x, n - 1)
  }

  /** The logical sequence of the multiset: for each key in iteration order,
      that key repeated by its count, one run after the other. */
  function Expand<T>(order: seq<T>, counts: map<T, nat>): seq<T>
  {
    if order == [] then []
    else Repeat(order[0], CountIn(counts, order[0])) + Expand(order[1..], counts)
  }

  /** Every key in `order` has a positive count. */
  ghost predicate PositiveCounts<T>(order: seq<T>, counts: map<T, nat>) {
    forall i :: 0 <= i < |order| ==> CountIn(counts, order[i]) > 0
  }

  /** The hash map: its entries and its iteration order. */
  datatype FlatMap<T> = FlatMap(counts: map<T, nat>, order: seq<T>) {

    /** `order` lists each key exactly once and no entry holds 0. */
    ghost predicate WellFormed() {
      NoDuplicates(order)
      && counts.Keys == Elements(order)
      && (forall k | k in counts :: counts[k] > 0)
    }

    /** count: the stored count, or 0 without an entry. In a well-formed
        map it is positive exactly for the keys the iterator visits. */
    function Count(v: T): (r: nat)
      ensures WellFormed() ==> (r > 0 <==> v in order)
      ensures WellFormed() && v in order ==> r == counts[v]
    {
      assert v in order <==> v in Elements(order);
      CountIn(counts, v)
    }

    /** The flattened sequence the iterator walks through. */
    function Flattened(): seq<T> {
      Expand(order, counts)
    }

    /** The multiset the map stands for. */
    ghost function Bag(): multiset<T> {
      multiset(Flattened())
    }

    /** `++data[value]`: a missing key is first default-inserted with count 0
        (it then joins the end of the iteration order). */
    function Inserted(v: T): (r: FlatMap<T>)
      requires WellFormed()
      ensures r.WellFormed()
      ensures r.Count(v) == Count(v) + 1
      ensures r.counts.Keys == counts.Keys + {v}
      ensures forall w | w in counts && w != v :: r.Count(w) == Count(w)
    {
      if v in counts then FlatMap(counts[v := counts[v] + 1], order)
      else
        AppendNoDuplicates(order, v);
        FlatMap(counts[v := 1], order + [v])
    }

    /** erase: a present count drops by one and the entry goes away when it
        reaches 0; an absent key is left alone. */
    function Erased(v: T): (r: FlatMap<T>)
      requires WellFormed()
      ensures r.WellFormed()
      ensures r.Count(v) == if Count(v) > 0 then Count(v) - 1 else 0
      ensures r.counts.Keys <= counts.Keys
      ensures forall w | w in counts && w != v :: r.Count(w) == Count(w)
    {
      if v !in counts then this
      else if counts[v] == 1 then
        FilterNoDuplicates(order, v);
        FlatMap(counts - {v}, Filter(order, v))
      else FlatMap(counts[v := counts[v] - 1], order)
    }

    /** begin(): the first key with its full count, or the end position. */
    function Begin(): (r: FlatIter)
      ensures WellFormed() ==> r == Locate(order, counts, 0)
      ensures WellFormed() ==> (r == End() <==> Flattened() == [])
    {
      assert WellFormed() && |order| > 0 ==> order[0] in counts by {
        if WellFormed() && |order| > 0 {
          assert order[0] in Elements(order);
        }
      }
      FlatIter(0, if |order| > 0 then CountIn(counts, order[0]) else 0)
    }

    /** end(): past the last key, with no repeats left. */
    function End(): (r: FlatIter)
      ensures r == Locate(order, counts, |Flattened()|)
    {
      LocateEnd(order, counts);
      FlatIter(|order|, 0)
    }

    /** find: the iterator at the start of `v`'s run, or end() when absent. */
    function Find(v: T): (r: FlatIter)
      requires WellFormed()
      ensures r == End() <==> Count(v) == 0
      ensures r != End() ==> r.pos < |order| && order[r.pos] == v && r.remaining == Count(v)
    {
      if v !in counts then End()
      else
        var i := IndexOf(order, v);
        FlatIter(i, counts[v])
    }
  }

  /** flattened_iterator: the position of the current key in iteration order
      (`map_it`) and how many repeats of it are left (`repeat_count`). The
      datatype's equality is the source's `operator==`. */
  datatype FlatIter = FlatIter(pos: nat, remaining: nat)

  /** operator++: a no-op at the end; otherwise one repeat fewer, and on
      reaching 0 the next key with its full count. `--repeat_count` on 0 wraps
      around as size_t does (no iterator reached from begin() has that state). */
  function Advance<T>(order: seq<T>, counts: map<T, nat>, it: FlatIter): (r: FlatIter)
    requires it.pos <= |order|
    ensures r.pos <= |order|
    ensures it.pos == |order| ==> r == it
    ensures it.pos < |order| ==> r.pos == it.pos || r.pos == it.pos + 1
  {
    if it.pos == |order| then it
    else if it.remaining == 0 then FlatIter(it.pos, SIZE_MAX)
    else if it.remaining == 1 then
      FlatIter(it.pos + 1, if it.pos + 1 < |order| then CountIn(counts, order[it.pos + 1]) else 0)
    else FlatIter(it.pos, it.remaining - 1)
  }

  /** operator*: the current key. */
  function Deref<T>(order: seq<T>, it: FlatIter): (r: T)
    requires it.pos < |order|
    ensures r in order
  {
    order[it.pos]
  }

  /** `k` applications of operator++. */
  function Steps<T>(order: seq<T>, counts: map<T, nat>, it: FlatIter, k: nat): (r: FlatIter)
    requires it.pos <= |order|
    ensures r.pos <= |order|
    decreases k
  {
    if k == 0 then it else Steps(order, counts, Advance(order, counts, it), k - 1)
  }

  /** The iterator state that stands for offset `j` of the flattened sequence:
      the key whose run holds `j`, with the repeats left in that run. */
  function Locate<T>(order: seq<T>, counts: map<T, nat>, j: nat): (r: FlatIter)
    requires j <= |Expand(order, counts)|
    ensures r.pos <= |order|
    decreases |order|
  {
    if order == [] then FlatIter(0, 0)
    else
      var c := CountIn(counts, order[0]);
      if j < c then FlatIter(0, c - j)
      else
        var it := Locate(order[1..], counts, j - c);
        FlatIter(it.pos + 1, it.remaining)
  }

  /** Advancing on the whole order is advancing on its tail, one position over. */
  lemma AdvanceShift<T>(order: seq<T>, counts: map<T, nat>, it: FlatIter)
    requires order != [] && it.pos <= |order| - 1
    ensures Advance(order, counts, FlatIter(it.pos + 1, it.remaining))
         == var t := Advance(order[1..], counts, it); FlatIter(t.pos + 1, t.remaining)
  {
  }

  /** operator++ moves the iterator at offset `j` to offset `j + 1`. */
  lemma {:induction false} LocateAdvance<T>(order: seq<T>, counts: map<T, nat>, j: nat)
    requires PositiveCounts(order, counts)
    requires j < |Expand(order, counts)|
    ensures Advance(order, counts, Locate(order, counts, j)) == Locate(order, counts, j + 1)
    decreases |order|
  {
    var c := CountIn(counts, order[0]);
    var rest := order[1..];
    assert PositiveCounts(rest, counts) by {
      forall i | 0 <= i < |rest| ensures CountIn(counts, rest[i]) > 0 {
        assert rest[i] == order[i + 1];
      }
    }
    if j < c {
      if j + 1 == c && |order| > 1 {
        assert CountIn(counts, rest[0]) > 0 by { assert rest[0] == order[1]; }
      }
    } else {
      LocateAdvance(rest, counts, j - c);
      AdvanceShift(order, counts, Locate(rest, counts, j - c));
    }
  }

  /** The iterator at an offset before the end points at that offset's element. */
  lemma {:induction false} LocateDeref<T>(order: seq<T>, counts: map<T, nat>, j: nat)
    requires j < |Expand(order, counts)|
    ensures Locate(order, counts, j).pos < |order|
    ensures Deref(order, Locate(order, counts, j)) == Expand(order, counts)[j]
    decreases |order|
  {
    var c := CountIn(counts, order[0]);
    if j >= c {
      LocateDeref(order[1..], counts, j - c);
    }
  }

  /** The iterator at the final offset is end(). */
  lemma {:induction false} LocateEnd<T>(order: seq<T>, counts: map<T, nat>)
    ensures Locate(order, counts, |Expand(order, counts)|) == FlatIter(|order|, 0)
    decreases |order|
  {
    if order != [] {
      LocateEnd(order[1..], counts);
    }
  }

  /** Offsets within one run differ in their remaining repeats, so distinct
      offsets give distinct iterator states. */
  lemma {:induction false} LocateInjective<T>(order: seq<T>, counts: map<T, nat>, i: nat, j: nat)
    requires i < j <= |Expand(order, counts)|
    ensures Locate(order, counts, i) != Locate(order, counts, j)
    decreases |order|
  {
    var c := CountIn(counts, order[0]);
    if i >= c {
      LocateInjective(order[1..], counts, i - c, j - c);
    }
  }

  /** Walking `k` steps from offset `j` lands on offset `j + k`. */
  lemma {:induction false} StepsLocate<T>(order: seq<T>, counts: map<T, nat>, j: nat, k: nat)
    requires PositiveCounts(order, counts)
    requires j + k <= |Expand(order, counts)|
    ensures Steps(order, counts, Locate(order, counts, j), k) == Locate(order, counts, j + k)
    decreases k
  {
    if k > 0 {
      LocateAdvance(order, counts, j);
      StepsLocate(order, counts, j + 1, k - 1);
    }
  }

  /** Each key's count is its multiplicity in the flattened sequence. */
  lemma {:induction false} ExpandMultiset<T>(order: seq<T>, counts: map<T, nat>, w: T)
    requires NoDuplicates(order)
    ensures multiset(Expand(order, counts))[w] == if w in order then CountIn(counts, w) else 0
    decreases |order|
  {
    if order != [] {
      var rest := order[1..];
      assert order == [order[0]] + rest;
      assert multiset(order) == multiset{order[0]} + multiset(rest);
      assert NoDuplicates(rest) by {
        forall x | x in rest ensures multiset(rest)[x] <= 1 {
          assert multiset(order)[x] <= 1;
        }
      }
      assert order[0] !in rest by {
        assert multiset(order)[order[0]] <= 1;
      }
      ExpandMultiset(rest, counts, w);
      RepeatMultiset(order[0], CountIn(counts, order[0]), w);
    }
  }

  lemma {:induction false} RepeatMultiset<T>(x: T, n: nat, w: T)
    ensures multiset(Repeat(x, n))[w] == if w == x then n else 0
    decreases n
  {
    if n > 0 {
      RepeatMultiset(x, n - 1, w);
    }
  }

  /** A well-formed map's count of every key is its multiplicity in Bag(). */
  lemma BagCount<T>(m: FlatMap<T>, w: T)
    requires m.WellFormed()
    ensures m.Bag()[w] == m.Count(w)
  {
    ExpandMultiset(m.order, m.counts, w);
  }

  /** A well-formed map has a positive count for every key of its order. */
  lemma WellFormedPositive<T>(m: FlatMap<T>)
    requires m.WellFormed()
    ensures PositiveCounts(m.order, m.counts)
  {
    forall i | 0 <= i < |m.order| ensures CountIn(m.counts, m.order[i]) > 0 {
      assert m.order[i] in m.counts;
    }
  }

  /** Flattened iteration: starting at begin(), operator++ applied `size()`
      times reaches end(); every earlier position differs from end() and
      yields the element at that offset of the flattened sequence, which is
      each key repeated by its count, in iteration order. */
  lemma FlattenedWalk<T>(m: FlatMap<T>)
    requires m.WellFormed()
    ensures Steps(m.order, m.counts, m.Begin(), |m.Flattened()|) == m.End()
    ensures forall k :: 0 <= k < |m.Flattened()| ==>
              var it := Steps(m.order, m.counts, m.Begin(), k);
              it != m.End() && it.pos < |m.order| && Deref(m.order, it) == m.Flattened()[k]
  {
    var order, counts, n := m.order, m.counts, |m.Flattened()|;
    WellFormedPositive(m);
    assert Locate(order, counts, 0) == m.Begin() by {
      if order != [] {
        assert CountIn(counts, order[0]) > 0;
      }
    }
    StepsLocate(order, counts, 0, n);
    LocateEnd(order, counts);
    forall k | 0 <= k < n
      ensures var it := Steps(order, counts, m.Begin(), k);
              it != m.End() && it.pos < |order| && Deref(order, it) == m.Flattened()[k]
    {
      StepsLocate(order, counts, 0, k);
      LocateDeref(order, counts, k);
    }
  }

  lemma MultisetExt<T>(a: multiset<T>, b: multiset<T>)
    requires forall w :: a[w] == b[w]
    ensures a == b
  {
  }

  /** One more element of a range insert. */
  lemma PrefixBag<T>(before: multiset<T>, xs: seq<T>, i: nat)
    requires i < |xs|
    ensures before + multiset(xs[..i]) + multiset{xs[i]} == before + multiset(xs[..i + 1])
  {
    assert xs[..i + 1] == xs[..i] + [xs[i]];
  }

  /** Inserting a key adds one occurrence to the bag. */
  lemma InsertedBag<T>(m: FlatMap<T>, v: T)
    requires m.WellFormed()
    ensures m.Inserted(v).Bag() == m.Bag() + multiset{v}
  {
    var r := m.Inserted(v);
    var after, before := r.Bag(), m.Bag();
    forall w ensures after[w] == (before + multiset{v})[w] {
      BagCount(r, w);
      BagCount(m, w);
      if w != v && w !in m.counts {
        assert w !in r.counts;
      }
    }
    MultisetExt(after, before + multiset{v});
  }

  /** Erasing a key removes one occurrence from the bag, if there was one. */
  lemma ErasedBag<T>(m: FlatMap<T>, v: T)
    requires m.WellFormed()
    ensures m.Erased(v).Bag() == m.Bag() - multiset{v}
  {
    var r := m.Erased(v);
    var after, before := r.Bag(), m.Bag();
    forall w ensures after[w] == (before - multiset{v})[w] {
      BagCount(r, w);
      BagCount(m, w);
      if w != v && w !in m.counts {
        assert w !in r.counts;
      }
    }
    MultisetExt(after, before - multiset{v});
  }

  /** insert(v) then erase(v) restores the map exactly, entries and order. */
  lemma InsertThenErase<T>(m: FlatMap<T>, v: T)
    requires m.WellFormed()
    ensures m.Inserted(v).Erased(v) == m
  {
    if v !in m.counts {
      InsertThenEraseNew(m, v);
    } else {
      var m1 := m.Inserted(v);
      assert m1 == FlatMap(m.counts[v := m.counts[v] + 1], m.order);
      assert m1.counts[v := m.counts[v]] == m.counts;
    }
  }

  /** The case of a key without an entry: it is appended to the order, then
      filtered out again. */
  lemma InsertThenEraseNew<T>(m: FlatMap<T>, v: T)
    requires m.WellFormed() && v !in m.counts
    ensures m.Inserted(v).Erased(v) == m
  {
    var m1 := FlatMap(m.counts[v := 1], m.order + [v]);
    assert m.Inserted(v) == m1;
    assert m1.Erased(v) == FlatMap(m1.counts - {v}, Filter(m1.order, v));
    assert v !in m.order by { assert v !in Elements(m.order); }
    FilterAppendAbsent(m.order, v);
    MapAddRemove(m.counts, v);
  }

  lemma MapAddRemove<T>(counts: map<T, nat>, v: T)
    requires v !in counts
    ensures counts[v := 1] - {v} == counts
  {
  }

  lemma FilterAppendAbsent<T>(s: seq<T>, v: T)
    requires v !in s
    ensures Filter(s + [v], v) == s
  {
    FilterAppend(s, [v], v);
    FilterAbsent(s, v);
    assert [v][..0] == [];
  }

  /** unordered_flat_multiset<T>: the class around the map. */
  class UnorderedFlatMultiset<T(==)> {
    var data: FlatMap<T>

    ghost predicate Valid()
      reads this
    {
      data.WellFormed()
    }

    ghost function Bag(): multiset<T>
      reads this
    {
      data.Bag()
    }

    constructor ()
      ensures Valid() && Bag() == multiset{}
    {
      data := FlatMap(map[], []);
    }

    /** insert: one more occurrence of `v`, every other count unchanged. */
    method Insert(v: T)
      requires Valid()
      modifies this
      ensures Valid()
      ensures data == old(data).Inserted(v)
      ensures Bag() == old(Bag()) + multiset{v}
    {
      InsertedBag(data, v);
      data := data.Inserted(v);
    }

    /** erase: one occurrence of `v` fewer; a no-op when `v` is absent. */
    method Erase(v: T)
      requires Valid()
      modifies this
      ensures Valid()
      ensures data == old(data).Erased(v)
      ensures Bag() == old(Bag()) - multiset{v}
    {
      ErasedBag(data, v);
      data := data.Erased(v);
    }

    /** count: the multiplicity of `v`, 0 when absent. */
    function Count(v: T): (r: nat)
      reads this
      requires Valid()
      ensures r == Bag()[v]
    {
      BagCount(data, v);
      data.Count(v)
    }

    /** size: the sum of all counts, accumulated over the entries in
        iteration order. */
    method Size() returns (total: nat)
      requires Valid()
      ensures total == |Bag()| == |data.Flattened()|
    {
      total := 0;
      var i := 0;
      while i < |data.order|
        invariant i <= |data.order|
        invariant total + |Expand(data.order[i..], data.counts)| == |data.Flattened()|
      {
        assert data.order[i..][1..] == data.order[i + 1..];
        total := total + data.counts[data.order[i]];
        i := i + 1;
      }
    }

    /** contains: whether `v` has an entry, which is whether it occurs. */
    function Contains(v: T): (r: bool)
      reads this
      requires Valid()
      ensures r <==> v in Bag()
      ensures r <==> Count(v) > 0
    {
      BagCount(data, v);
      v in data.counts
    }

    function Empty(): (r: bool)
      reads this
      requires Valid()
      ensures r <==> Bag() == multiset{}
    {
      if data.counts == map[] then
        assert data.order == [] by {
          assert Elements(data.order) == data.counts.Keys == {};
          NoDuplicatesCard(data.order);
        }
        true
      else
        var k :| k in data.counts;
        BagCount(data, k);
        false
    }

    method Clear()
      requires Valid()
      modifies this
      ensures Valid() && Bag() == multiset{}
    {
      data := FlatMap(map[], []);
    }

    /** The range insert: one insert per element. */
    method InsertAll(xs: seq<T>)
      requires Valid()
      modifies this
      ensures Valid()
      ensures Bag() == old(Bag()) + multiset(xs)
    {
      ghost var before := Bag();
      for i := 0 to |xs|
        invariant Valid()
        invariant Bag() == before + multiset(xs[..i])
      {
        Insert(xs[i]);
        PrefixBag(before, xs, i);
      }
      assert xs[..|xs|] == xs;
    }

    /** begin(): the iterator state of offset 0 of the flattened sequence. */
    function Begin(): (r: FlatIter)
      reads this
      requires Valid()
      ensures r == Locate(data.order, data.counts, 0)
    {
      WellFormedPositive(data);
      if |data.order| > 0 then
        assert CountIn(data.counts, data.order[0]) > 0;
        data.Begin()
      else data.Begin()
    }

    /** end(): the iterator state of the offset just past the last element. */
    function End(): (r: FlatIter)
      reads this
      requires Valid()
      ensures r == Locate(data.order, data.counts, |data.Flattened()|)
    {
      LocateEnd(data.order, data.counts);
      data.End()
    }

    function Find(v: T): (r: FlatIter)
      reads this
      requires Valid()
      ensures r == End() <==> v !in Bag()
      ensures r != End() ==> r.pos < |data.order| && Deref(data.order, r) == v && r.remaining == Count(v)
    {
      BagCount(data, v);
      data.Find(v)
    }
  }
}
