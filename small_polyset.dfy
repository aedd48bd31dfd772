/** boost::unordered_flat_smallpolyset<T, threshold>: a set that starts in a
    fixed_vector<T, threshold> and, once an insert arrives while it already
    holds `threshold` elements, moves its elements into a hash set for good.
    The hash set is a Dafny set. */
module SmallPolySets {
  import opened Sequences
  import opened FixedVectors

  /** The iterator's two alternatives: a slot of the fixed vector, or a
      position in the hash set's own iteration order. */
  datatype Position = ArrayPos(index: nat) | SetPos(index: nat)

  /** operator++ dispatches on the alternative, keeps it, and always moves. */
  function Next(p: Position): (r: Position)
    ensures r.ArrayPos? == p.ArrayPos?
    ensures r != p
  {
    match p
    case ArrayPos(i) => ArrayPos(i + 1)
    case SetPos(i) => SetPos(i + 1)
  }

  /** `k` applications of operator++. */
  function Walk(p: Position, k: nat): Position
    decreases k
  {
    if k == 0 then p else Walk(Next(p), k - 1)
  }

  /** Walking keeps the alternative and moves `k` positions on. */
  lemma {:induction false} WalkIndex(p: Position, k: nat)
    ensures Walk(p, k).ArrayPos? == p.ArrayPos?
    ensures Walk(p, k).index == p.index + k
    decreases k
  {
    if k > 0 {
      WalkIndex(Next(p), k - 1);
    }
  }

  class UnorderedFlatSmallPolySet<T(==,0)> {
    /** The template parameter `threshold` (a std::uint8_t). */
    const threshold: nat
    /** Whether the set has been promoted to the hash set (the source's spelling). */
    var tranformed: bool
    /** The capacity hint recorded before promotion. */
    var reserveN: nat
    /** The hash set, meaningful once promoted. */
    var data: set<T>
    /** The fixed vector, meaningful until promoted. */
    const vect: FixedVector<T>

    ghost predicate Valid()
      reads this, vect, vect.data
    {
      threshold < 256 && vect.Valid() && vect.data.Length == threshold
      && (!tranformed ==> NoDuplicates(vect.data[..vect.size]))
    }

    /** The elements of the set, in whichever store is active. */
    ghost function Contents(): set<T>
      reads this, vect, vect.data
      requires Valid()
    {
      if tranformed then data else Elements(vect.Live())
    }

    constructor (threshold: nat)
      requires threshold < 256
      ensures Valid() && fresh(vect) && fresh(vect.data)
      ensures this.threshold == threshold && !tranformed && reserveN == 0
      ensures Contents() == {}
    {
      this.threshold := threshold;
      tranformed := false;
      reserveN := 0;
      data := {};
      vect := new FixedVector<T>(threshold);
    }

    /** The constructor from one element: an insert into the empty set. */
    constructor Singleton(threshold: nat, t: T)
      requires threshold < 256
      ensures Valid() && fresh(vect) && fresh(vect.data)
      ensures this.threshold == threshold && tranformed == (threshold == 0) && reserveN == 0
      ensures Contents() == {t}
    {
      this.threshold := threshold;
      tranformed := false;
      reserveN := 0;
      data := {};
      vect := new FixedVector<T>(threshold);
      new;
      var _ := Insert(t);
    }

    /** The constructor from a range: one insert per element. */
    constructor FromSeq(threshold: nat, xs: seq<T>)
      requires threshold < 256
      ensures Valid() && fresh(vect) && fresh(vect.data)
      ensures this.threshold == threshold && reserveN == 0
      ensures Contents() == Elements(xs)
    {
      this.threshold := threshold;
      tranformed := false;
      reserveN := 0;
      data := {};
      vect := new FixedVector<T>(threshold);
      new;
      InsertAll(xs);
    }

    /** size: the number of elements of the active store. */
    function Size(): (r: nat)
      reads this, vect, vect.data
      requires Valid()
      ensures r == |Contents()|
      ensures !tranformed ==> r <= threshold
    {
      if tranformed then |data|
      else
        NoDuplicatesCard(vect.Live());
        vect.Size()
    }

    function Empty(): (r: bool)
      reads this, vect, vect.data
      requires Valid()
      ensures r <==> Contents() == {}
    {
      Size() == 0
    }

    /** contains: a hash lookup once promoted, else a scan of the live slots. */
    method Contains(v: T) returns (r: bool)
      requires Valid()
      ensures r <==> v in Contents()
    {
      if tranformed {
        return v in data;
      }
      var i := 0;
      while i < vect.size
        invariant i <= vect.size
        invariant v !in vect.data[..i]
      {
        if vect.data[i] == v {
          assert vect.data[i] == vect.Live()[i];
          return true;
        }
        assert vect.data[..i + 1] == vect.data[..i] + [vect.data[i]];
        i := i + 1;
      }
      assert vect.data[..i] == vect.Live();
      return false;
    }

    /** count: 1 when `v` is present, else 0, in either mode. */
    method Count(v: T) returns (r: nat)
      requires Valid()
      ensures r == if v in Contents() then 1 else 0
    {
      if tranformed {
        return if v in data then 1 else 0;
      }
      r := vect.Count(v);
      ghost var live := vect.Live();
      assert v in live <==> v in multiset(live);
      assert v in live ==> multiset(live)[v] <= 1;
    }

    /** The promotion: every element of the vector goes into a fresh hash
        set, which becomes the active store for good. */
    method Promote()
      requires Valid() && !tranformed
      modifies this
      ensures Valid() && tranformed
      ensures Contents() == old(Contents())
      ensures reserveN == old(reserveN)
    {
      var s: set<T> := {};
      var i := 0;
      while i < vect.size
        invariant i <= vect.size
        invariant s == Elements(vect.data[..i])
      {
        assert vect.data[..i + 1] == vect.data[..i] + [vect.data[i]];
        s := s + {vect.data[i]};
        i := i + 1;
      }
      assert vect.data[..i] == vect.Live();
      data := s;
      tranformed := true;
    }

    /** insert: the promotion check comes first, so an insert while the vector
        is full promotes even when `v` is already there; then the insert goes
        to whichever store is active. Returns whether `v` was new. */
    method Insert(v: T) returns (inserted: bool)
      requires Valid()
      modifies this, vect, vect.data
      ensures Valid()
      ensures inserted <==> v !in old(Contents())
      ensures Contents() == old(Contents()) + {v}
      ensures Size() == old(Size()) + (if inserted then 1 else 0)
      ensures tranformed == (old(tranformed) || old(Size()) + 1 > threshold)
      ensures reserveN == old(reserveN)
    {
      if !tranformed && Size() + 1 > threshold {
        Promote();
      }
      if tranformed {
        inserted := InsertPromoted(v);
      } else {
        inserted := InsertInArray(v);
      }
    }

    /** The promoted branch of insert: the hash set's insert, which reports
        whether `v` was new. */
    method InsertPromoted(v: T) returns (inserted: bool)
      requires Valid() && tranformed
      modifies this
      ensures Valid() && tranformed && reserveN == old(reserveN)
      ensures inserted <==> v !in old(Contents())
      ensures Contents() == old(Contents()) + {v}
      ensures Size() == old(Size()) + (if inserted then 1 else 0)
    {
      inserted := v !in data;
      if inserted {
        assert |data + {v}| == |data| + 1;
      } else {
        assert data + {v} == data;
      }
      data := data + {v};
    }

    /** The array branch of insert: a scan for `v`, then a push_back. The
        promotion check has already run, so the vector holds fewer than
        `threshold` elements and this push_back never reports Overflow. */
    method InsertInArray(v: T) returns (inserted: bool)
      requires Valid() && !tranformed && Size() < threshold
      modifies vect, vect.data
      ensures Valid() && !tranformed
      ensures inserted <==> v !in old(Contents())
      ensures Contents() == old(Contents()) + {v}
      ensures Size() == old(Size()) + (if inserted then 1 else 0)
    {
      var present := Contains(v);
      if present {
        return false;
      }
      ghost var live := vect.Live();
      var r := vect.PushBack(v);
      assert r == Pass;
      AppendNoDuplicates(live, v);
      NoDuplicatesCard(live);
      NoDuplicatesCard(vect.Live());
      inserted := true;
    }

    /** The range insert: one insert per element. */
    method InsertAll(xs: seq<T>)
      requires Valid()
      modifies this, vect, vect.data
      ensures Valid()
      ensures Contents() == old(Contents()) + Elements(xs)
      ensures old(tranformed) ==> tranformed
      ensures reserveN == old(reserveN)
    {
      ghost var before := Contents();
      for i := 0 to |xs|
        invariant Valid()
        invariant Contents() == before + Elements(xs[..i])
        invariant old(tranformed) ==> tranformed
        invariant reserveN == old(reserveN)
      {
        assert Elements(xs[..i + 1]) == Elements(xs[..i]) + {xs[i]} by {
          assert xs[..i + 1] == xs[..i] + [xs[i]];
        }
        var _ := Insert(xs[i]);
      }
      assert xs[..|xs|] == xs;
    }

    /** reserve: forwarded to the hash set once promoted (a capacity change
        only); before that it records the hint. */
    method Reserve(n: nat)
      requires Valid()
      modifies this
      ensures Valid()
      ensures Contents() == old(Contents()) && tranformed == old(tranformed)
      ensures reserveN == if old(tranformed) then old(reserveN) else n
    {
      if !tranformed {
        reserveN := n;
      }
    }

    /** clear: empties the active store; a promoted set stays promoted. */
    method Clear()
      requires Valid()
      modifies this, vect
      ensures Valid()
      ensures Contents() == {}
      ensures tranformed == old(tranformed) && reserveN == old(reserveN)
    {
      if tranformed {
        data := {};
      } else {
        vect.Clear();
      }
    }

    /** erase: removes `v` and returns how many elements went (0 or 1); in
        array mode that is the drop in the vector's size. */
    method Erase(v: T) returns (removed: nat)
      requires Valid()
      modifies this, vect, vect.data
      ensures Valid()
      ensures removed == if v in old(Contents()) then 1 else 0
      ensures Contents() == old(Contents()) - {v}
      ensures tranformed == old(tranformed) && reserveN == old(reserveN)
    {
      if tranformed {
        removed := if v in data then 1 else 0;
        data := data - {v};
        return;
      }
      ghost var live := vect.Live();
      var pre := vect.size;
      vect.Erase(v);
      FilterNoDuplicates(live, v);
      removed := pre - vect.size;
    }

    /** begin(): the alternative of the active store, at its start. */
    function Begin(): (r: Position)
      reads this, vect, vect.data
      requires Valid()
      ensures r.SetPos? <==> tranformed
      ensures r.index == 0
    {
      if tranformed then SetPos(0) else ArrayPos(vect.Begin())
    }

    /** end(): the alternative of the active store, one past its last element. */
    function End(): (r: Position)
      reads this, vect, vect.data
      requires Valid()
      ensures r.SetPos? <==> tranformed
      ensures r.index == |Contents()|
    {
      if tranformed then SetPos(|data|)
      else
        NoDuplicatesCard(vect.Live());
        ArrayPos(vect.End())
    }

    /** Iteration from begin() reaches end() after exactly size() steps; in
        array mode the positions passed are the live slots, whose values are
        the set's elements. */
    lemma Iteration(k: nat)
      requires Valid()
      ensures Walk(Begin(), k) == End() <==> k == Size()
      ensures !tranformed && k < Size() ==>
                Walk(Begin(), k) == ArrayPos(k) && k < vect.data.Length && vect.data[k] in Contents()
    {
      WalkIndex(Begin(), k);
      if !tranformed && k < Size() {
        assert vect.data[k] == vect.Live()[k];
      }
    }
  }
}
