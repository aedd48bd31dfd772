/** boost::fixed_vector<T, N>: a bounded sequence kept in an inline array of N
    slots plus the live length `size_`. Only `data[0..size_)` is logically
    present; the slots after it keep whatever was last written there. The
    `std::out_of_range` exceptions become error results. */
module FixedVectors {
  import opened Sequences
  import opened Limits

  /** The three `std::out_of_range` messages of the source. */
  datatype VectorError = Overflow | Underflow | IndexOutOfRange

  /** Outcome of an operation that returns nothing or throws. */
  datatype Outcome = Pass | Fail(error: VectorError)

  /** Outcome of an operation that returns a value or throws. */
  datatype Result<T> = Ok(value: T) | Err(error: VectorError)

  datatype Option<T> = None | Some(value: T)

  class FixedVector<T(==,0)> {
    /** The N slots; N is `data.Length`. */
    const data: array<T>
    /** The live length `size_`. */
    var size: nat

    ghost predicate Valid()
      reads this
    {
      size <= data.Length
    }

    /** The logically present elements, in storage order. */
    ghost function Live(): seq<T>
      reads this, data
      requires Valid()
    {
      data[..size]
    }

    constructor (n: nat)
      ensures Valid() && fresh(data) && data.Length == n
      ensures Live() == []
    {
      data := new T[n];
      size := 0;
    }

    function Size(): (r: nat)
      reads this, data
      requires Valid()
      ensures r == |Live()| && r <= data.Length
    {
      size
    }

    function Empty(): (r: bool)
      reads this, data
      requires Valid()
      ensures r <==> Live() == []
    {
      size == 0
    }

    /** push_back: fails with Overflow when all N slots are live and then
        changes nothing; otherwise writes slot `size_` and grows by one. */
    method PushBack(v: T) returns (r: Outcome)
      requires Valid()
      modifies this, data
      ensures Valid()
      ensures r == if old(size) < data.Length then Pass else Fail(Overflow)
      ensures r.Pass? ==> size == old(size) + 1 && data[..] == old(data[..])[old(size) := v]
      ensures r.Pass? ==> Live() == old(Live()) + [v]
      ensures r.Fail? ==> size == old(size) && data[..] == old(data[..])
    {
      if size >= data.Length {
        return Fail(Overflow);
      }
      data[size] := v;
      size := size + 1;
      return Pass;
    }

    /** find: the first live position holding `v`, or `(0, false)`. */
    method Find(v: T) returns (i: nat, found: bool)
      requires Valid()
      ensures found ==> i < |Live()| && Live()[i] == v && v !in Live()[..i]
      ensures !found ==> i == 0 && v !in Live()
    {
      i := 0;
      while i < size
        invariant i <= size
        invariant v !in data[..i]
      {
        if data[i] == v {
          assert Live()[..i] == data[..i];
          return i, true;
        }
        assert data[..i + 1] == data[..i] + [data[i]];
        i := i + 1;
      }
      return 0, false;
    }

    /** pop_back: fails with Underflow when empty; otherwise drops the last
        live element. The slots themselves are not touched. */
    method PopBack() returns (r: Outcome)
      requires Valid()
      modifies this
      ensures Valid()
      ensures r == if old(size) == 0 then Fail(Underflow) else Pass
      ensures size == if old(size) == 0 then 0 else old(size) - 1
      ensures Live() == if old(size) == 0 then old(Live()) else old(Live())[..old(size) - 1]
    {
      if size == 0 {
        return Fail(Underflow);
      }
      size := size - 1;
      return Pass;
    }

    /** at: bounds-checked access to the live prefix. */
    function At(idx: nat): (r: Result<T>)
      reads this, data
      requires Valid()
      ensures r.Err? <==> idx >= |Live()|
      ensures r.Err? ==> r.error == IndexOutOfRange
      ensures r.Ok? ==> r.value == Live()[idx]
    {
      if idx >= size then Err(IndexOutOfRange) else Ok(data[idx])
    }

    /** clear: forgets every element without touching the slots. */
    method Clear()
      requires Valid()
      modifies this
      ensures Valid() && Live() == []
    {
      size := 0;
    }

    /** erase: removes every occurrence of `v` by compacting the survivors
        leftward with a write index. The source bounds the scan by
        `size_ - 1u`, which never visits the last live element and wraps
        around on an empty vector (EraseAsWritten below); this model scans
        the whole live prefix, which is the evident intent. */
    method Erase(v: T)
      requires Valid()
      modifies this, data
      ensures Valid()
      ensures Live() == Filter(old(Live()), v)
    {
      ghost var s := data[..size];
      var result := 0;
      var i := 0;
      while i < size
        invariant size == |s| <= data.Length
        invariant 0 <= result <= i <= size
        invariant data[..result] == Filter(s[..i], v)
        invariant forall k :: i <= k < size ==> data[k] == s[k]
      {
        var val := data[i];
        FilterSnoc(s, i, v);
        if val != v {
          data[result] := val;
          assert data[..result + 1] == data[..result] + [val];
          result := result + 1;
        }
        i := i + 1;
      }
      assert s[..size] == s;
      size := result;
    }

    /** count: the number of live elements equal to `v`. The source scans all
        N slots, dead ones included (CountAsWritten below); this model scans
        the live prefix, which is the evident intent. */
    method Count(v: T) returns (c: nat)
      requires Valid()
      ensures c == multiset(Live())[v]
    {
      c := 0;
      var i := 0;
      while i < size
        invariant i <= size
        invariant c == multiset(data[..i])[v]
      {
        assert data[..i + 1] == data[..i] + [data[i]];
        if data[i] == v {
          c := c + 1;
        }
        i := i + 1;
      }
    }

    /** count as written: the scan runs over all N slots of the storage. */
    method CountAsWritten(v: T) returns (c: nat)
      ensures c == multiset(data[..])[v]
    {
      c := 0;
      var i := 0;
      while i < data.Length
        invariant i <= data.Length
        invariant c == multiset(data[..i])[v]
      {
        assert data[..i + 1] == data[..i] + [data[i]];
        if data[i] == v {
          c := c + 1;
        }
        i := i + 1;
      }
      assert data[..data.Length] == data[..];
    }

    /** operator[]: unchecked access to any of the N slots; inside the live
        prefix it agrees with `at`. */
    function Get(idx: nat): (r: T)
      reads this, data
      requires idx < data.Length
      ensures Valid() && idx < size ==> At(idx) == Ok(r)
    {
      data[idx]
    }

    /** begin(): the first slot. */
    function Begin(): (r: nat)
      reads this, data
      requires Valid()
      ensures r <= size && data[r..size] == Live()
    {
      0
    }

    /** end(): `begin() + size_`, so that iteration covers the live prefix. */
    function End(): (r: nat)
      reads this, data
      requires Valid()
      ensures Begin() <= r <= data.Length && data[Begin()..r] == Live()
    {
      size
    }
  }

  /** One more step of the scan in Erase. */
  lemma FilterSnoc<T>(s: seq<T>, i: nat, v: T)
    requires i < |s|
    ensures Filter(s[..i + 1], v) == Filter(s[..i], v) + (if s[i] == v then [] else [s[i]])
  {
    assert s[..i + 1][..i] == s[..i];
  }

  /** fixed_vector::erase as written, over the storage `storage` and live
      length `size`: the scan bound is `size - 1` in size_t arithmetic, and a
      bound past the storage is an out-of-range read (None). */
  function EraseAsWritten<T(==)>(storage: seq<T>, size: nat, v: T): (r: Option<seq<T>>)
    requires size <= |storage| < SIZE_MAX
    ensures r.Some? <==> size > 0
    ensures r.Some? ==> |r.value| < size
  {
    var bound := if size == 0 then SIZE_MAX else size - 1;
    if bound > |storage| then None
    else
      FilterLength(storage[..bound], v);
      Some(Filter(storage[..bound], v))
  }

  /** The as-written erase never keeps the last live element, so it differs
      from removing `v` from the live prefix whenever that element is not `v`. */
  lemma EraseAsWrittenDropsLast<T>(storage: seq<T>, size: nat, v: T)
    requires 0 < size <= |storage| < SIZE_MAX
    requires storage[size - 1] != v
    ensures EraseAsWritten(storage, size, v) != Some(Filter(storage[..size], v))
  {
    var live := storage[..size];
    assert live[..size - 1] == storage[..size - 1];
    FilterLength(storage[..size - 1], v);
    FilterLength(live, v);
    assert live == storage[..size - 1] + [storage[size - 1]];
    assert multiset(live)[v] == multiset(storage[..size - 1])[v];
  }

  /** A concrete instance: erasing 3 from the live prefix [1, 2] leaves [1]. */
  lemma EraseAsWrittenExample()
    ensures EraseAsWritten([1, 2], 2, 3) == Some([1])
    ensures Filter([1, 2], 3) == [1, 2]
  {
    assert [1, 2][..1] == [1];
    assert [1][..0] == [];
    assert Filter([1], 3) == [1];
    assert Filter([1, 2], 3) == [1, 2];
  }

  /** The as-written count also counts copies of `v` left in dead slots, so it
      exceeds the live count whenever such a copy exists. */
  lemma CountAsWrittenSeesDeadSlots<T>(storage: seq<T>, size: nat, v: T)
    requires size <= |storage|
    requires v in storage[size..]
    ensures multiset(storage)[v] > multiset(storage[..size])[v]
  {
    assert storage == storage[..size] + storage[size..];
    assert multiset(storage) == multiset(storage[..size]) + multiset(storage[size..]);
  }

  /** push_back(7); pop_back(): the live prefix is empty, yet the as-written
      count of 7 is 1. */
  method CountAfterPopExample() returns (live: nat, asWritten: nat)
    ensures live == 0 && asWritten == 1
  {
    var fv := new FixedVector<int>(1);
    var r := fv.PushBack(7);
    r := fv.PopBack();
    live := fv.Count(7);
    asWritten := fv.CountAsWritten(7);
    assert fv.data[..] == [7];
  }
}
