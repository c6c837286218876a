/**
  The contract of the external `bumpy_vector` crate, the interval store each
  named vector of a MultiVector is built on.

  A BumpyVector has a fixed capacity `maxSize` and holds non-overlapping
  entries, each occupying the offsets [index, index + size). Only the
  behaviour the linking layer relies on is modelled: insert (rejecting a zero
  size, a span past the end and an overlap), point lookup and removal by any
  offset inside an entry's span, replacing an entry's payload in place, the
  entry count and the capacity.
*/
module Bumpy {
  import opened Wrappers

  /** One stored item: a payload occupying the offsets [index, index + size). */
  datatype BumpyEntry<T> = BumpyEntry(entry: T, index: nat, size: nat)

  /** True when offset `i` lies inside the span of `e`. */
  predicate Covers<T>(e: BumpyEntry<T>, i: nat) {
    e.index <= i < e.index + e.size
  }

  /** True when the spans of `a` and `b` share an offset. */
  predicate Overlaps<T, U>(a: BumpyEntry<T>, b: BumpyEntry<U>) {
    a.index < b.index + b.size && b.index < a.index + a.size
  }

  /** Why the store refused an insert. */
  datatype InsertError = ZeroSize | OutOfBounds | Overlap

  /**
    The store: its capacity and its entries, keyed by their start offset.
  */
  datatype BumpyVector<T> = BumpyVector(maxSize: nat, entries: map<nat, BumpyEntry<T>>)
  {
    /** The store's own invariant: every entry sits under its start offset,
        is non-empty, fits the capacity and overlaps no other entry. */
    ghost predicate Valid() {
      && (forall k :: k in entries ==>
            entries[k].index == k && 0 < entries[k].size && k + entries[k].size <= maxSize)
      && (forall k, k' {:trigger Apart(k, k')} :: Apart(k, k'))
    }

    /** Distinct entries under `k` and `k'` do not overlap. The invariant
        states this for every pair, instantiated only where a proof names
        the pair. */
    ghost predicate Apart(k: nat, k': nat) {
      k in entries && k' in entries && k != k' ==> !Overlaps(entries[k], entries[k'])
    }

    /** At most one entry covers any offset. */
    lemma {:induction false} CoveredOnce(i: nat, k: nat, k': nat)
      requires Valid() && k in entries && k' in entries
      requires Covers(entries[k], i) && Covers(entries[k'], i)
      ensures k == k'
    {
      assert Apart(k, k');
    }

    /** Number of stored entries. */
    function Len(): nat {
      |entries|
    }

    /** The count is zero exactly when the store holds no entry. */
    lemma {:induction false} LenZero()
      ensures Len() == 0 <==> entries == map[]
    {
      if entries != map[] {
        var k :| k in entries;
        assert k in entries.Keys;
      }
    }

    /** The entry whose span covers offset `i`, if any (`get` and `get_mut`). */
    function Get(i: nat): (r: Option<BumpyEntry<T>>)
      requires Valid()
      ensures r.Some? <==> exists k :: k in entries && Covers(entries[k], i)
      ensures r.Some? ==> r.value.index in entries && entries[r.value.index] == r.value && Covers(r.value, i)
      ensures i in entries ==> r == Some(entries[i])
    {
      if exists k :: k in entries && Covers(entries[k], i) then
        assert forall k, k' :: k in entries && k' in entries && Covers(entries[k], i) && Covers(entries[k'], i) ==> k == k' by {
          forall k, k' | k in entries && k' in entries && Covers(entries[k], i) && Covers(entries[k'], i) ensures k == k' {
            CoveredOnce(i, k, k');
          }
        }
        var k :| k in entries && Covers(entries[k], i);
        assert i in entries ==> k == i by {
          if i in entries {
            CoveredOnce(i, k, i);
          }
        }
        Some(entries[k])
      else
        None
    }

    /** Store `e`, unless it is empty, runs past the capacity or overlaps a
        stored entry. */
    function Insert(e: BumpyEntry<T>): (r: Result<BumpyVector<T>, InsertError>)
      requires Valid()
      ensures r.Ok? <==>
                0 < e.size && e.index + e.size <= maxSize &&
                forall k :: k in entries ==> !Overlaps(entries[k], e)
      ensures e.size == 0 ==> r == Err(ZeroSize)
      ensures r.Ok? ==>
                && e.index !in entries
                && r.value.Valid()
                && r.value.maxSize == maxSize
                && r.value.entries.Keys == entries.Keys + {e.index}
                && r.value.entries[e.index] == e
                && (forall k :: k in entries ==> r.value.entries[k] == entries[k])
                && r.value.Len() == Len() + 1
    {
      if e.size == 0 then Err(ZeroSize)
      else if e.index + e.size > maxSize then Err(OutOfBounds)
      else if exists k :: k in entries && Overlaps(entries[k], e) then Err(Overlap)
      else
        assert e.index !in entries by {
          if e.index in entries {
            assert Overlaps(entries[e.index], e);
          }
        }
        var w := BumpyVector(maxSize, entries[e.index := e]);
        assert w.Valid() by {
          forall k, k' ensures w.Apart(k, k') {
            assert Apart(k, k');
          }
        }
        Ok(w)
    }

    /** Remove and return the entry whose span covers offset `i`, if any. */
    function Remove(i: nat): (r: (BumpyVector<T>, Option<BumpyEntry<T>>))
      requires Valid()
      ensures r.1 == Get(i)
      ensures r.0.Valid() && r.0.maxSize == maxSize
      ensures r.1.None? ==> r.0 == this
      ensures r.1.Some? ==>
                && r.0.entries.Keys == entries.Keys - {r.1.value.index}
                && (forall k :: k in r.0.entries ==> r.0.entries[k] == entries[k])
                && r.0.Len() == Len() - 1
    {
      match Get(i)
      case None => (this, None)
      case Some(e) =>
        var rest := entries - {e.index};
        assert rest.Keys == entries.Keys - {e.index};
        var w := BumpyVector(maxSize, rest);
        assert w.Valid() by {
          forall k, k' ensures w.Apart(k, k') {
            assert Apart(k, k');
          }
        }
        (w, Some(e))
    }

    /** Replace the payload of the entry covering offset `i` by `x`, leaving
        every span as it was (a write through `get_mut`). */
    function Replace(i: nat, x: T): (r: BumpyVector<T>)
      requires Valid()
      ensures r.Valid() && SameLayout(this, r)
      ensures forall k :: k in entries ==>
                r.entries[k] == if Get(i).Some? && k == Get(i).value.index
                                then BumpyEntry(x, k, entries[k].size)
                                else entries[k]
    {
      match Get(i)
      case None => this
      case Some(e) =>
        var w := BumpyVector(maxSize, entries[e.index := BumpyEntry(x, e.index, e.size)]);
        assert w.Valid() by {
          forall k, k' ensures w.Apart(k, k') {
            assert Apart(k, k');
          }
        }
        w
    }
  }

  /** A new, empty store of capacity `maxSize`. */
  function New<T>(maxSize: nat): (v: BumpyVector<T>)
    ensures v.Valid() && v.Len() == 0 && v.maxSize == maxSize
  {
    BumpyVector(maxSize, map[])
  }

  /** Same capacity, same start offsets, same spans; payloads may differ. */
  ghost predicate SameLayout<T>(a: BumpyVector<T>, b: BumpyVector<T>) {
    && a.maxSize == b.maxSize
    && a.entries.Keys == b.entries.Keys
    && forall k :: k in a.entries ==>
         b.entries[k].index == a.entries[k].index && b.entries[k].size == a.entries[k].size
  }

  /** Lookups only depend on the layout: two stores with the same layout find
      an entry at the same offsets, and it starts at the same offset. */
  lemma {:induction false} GetSameLayout<T>(a: BumpyVector<T>, b: BumpyVector<T>, i: nat)
    requires a.Valid() && b.Valid() && SameLayout(a, b)
    ensures a.Get(i).Some? <==> b.Get(i).Some?
    ensures a.Get(i).Some? ==> a.Get(i).value.index == b.Get(i).value.index
  {
    if a.Get(i).Some? {
      GetCarries(a, b, i);
    }
    if b.Get(i).Some? {
      GetCarries(b, a, i);
    }
  }

  /** An entry found in `a` at offset `i` has its counterpart in a store with
      the same layout, starting at the same offset. */
  lemma {:induction false} GetCarries<T>(a: BumpyVector<T>, b: BumpyVector<T>, i: nat)
    requires a.Valid() && b.Valid() && SameLayout(a, b) && a.Get(i).Some?
    ensures b.Get(i).Some? && a.Get(i).value.index == b.Get(i).value.index
  {
    var k := a.Get(i).value.index;
    assert Covers(b.entries[k], i);
    var k' := b.Get(i).value.index;
    assert Covers(a.entries[k'], i);
    a.CoveredOnce(i, k, k');
  }
}
