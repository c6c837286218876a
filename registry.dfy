/**
  The registry of a MultiVector as a value: a map from vector name to
  BumpyVector whose payloads are MultiEntry records. This module defines the
  link records, the pure meaning of each state-changing operation (group
  insert, removal along a list of coordinates, unlink) and the total entry
  count, together with the facts about them that hold of every registry.
*/
module Registry {
  import opened Wrappers
  import opened Bumpy

  /** A coordinate `(vector, index)` naming an entry by its vector and offset. */
  datatype Link = Link(vector: string, index: nat)

  /** The payload stored for each entry: its own vector's name, the caller's
      data and the link record of its group. */
  datatype MultiEntry<T> = MultiEntry(vector: string, data: T, linked: seq<Link>)

  /** A stored entry, as `get_entry` returns it. */
  type Entry<T> = BumpyEntry<MultiEntry<T>>

  /** The registry: vector name to store. */
  type Vectors<T> = map<string, BumpyVector<MultiEntry<T>>>

  /** One item of a group insert, `(vector, data, index, size)`. */
  datatype Insertion<T> = Insertion(vector: string, data: T, index: nat, size: nat)

  /** The failures the operations report. */
  datatype Error =
    | DuplicateName(vector: string)
    | UnknownVector(vector: string)
    | NotEmpty(vector: string)
    | EntryNotFound(vector: string, index: nat)
    | InsertFailed(vector: string, cause: InsertError)

  /** Every store of the registry keeps its own invariant. */
  ghost predicate StoresValid<T>(vs: Vectors<T>) {
    forall n :: n in vs ==> vs[n].Valid()
  }

  /** No coordinate occurs twice. */
  predicate NoDuplicates(s: seq<Link>) {
    forall a, b :: 0 <= a < b < |s| ==> s[a] != s[b]
  }

  /** `e` with its link record replaced by `linked`. */
  function WithLinked<T>(e: Entry<T>, linked: seq<Link>): Entry<T> {
    e.(entry := e.entry.(linked := linked))
  }

  // ---------------------------------------------------------------------
  // Lookups

  /** The entry covering offset `index` of vector `vector` (`get_entry`). */
  function Lookup<T>(vs: Vectors<T>, vector: string, index: nat): (r: Option<Entry<T>>)
    requires StoresValid(vs)
    ensures r.Some? <==>
              vector in vs && exists k :: k in vs[vector].entries && Covers(vs[vector].entries[k], index)
    ensures r.Some? ==>
              && Covers(r.value, index)
              && r.value.index in vs[vector].entries
              && vs[vector].entries[r.value.index] == r.value
  {
    if vector in vs then vs[vector].Get(index) else None
  }

  /** The link record of the entry covering `(vector, index)`, or why there
      is none: the first step of `get_entries` and `remove_entries`. */
  function GroupOf<T>(vs: Vectors<T>, vector: string, index: nat): (r: Result<seq<Link>, Error>)
    requires StoresValid(vs)
    ensures vector !in vs ==> r == Err(UnknownVector(vector))
    ensures vector in vs && Lookup(vs, vector, index).None? ==> r == Err(EntryNotFound(vector, index))
    ensures Lookup(vs, vector, index).Some? ==> r == Ok(Lookup(vs, vector, index).value.entry.linked)
  {
    if vector !in vs then Err(UnknownVector(vector))
    else match vs[vector].Get(index)
      case None => Err(EntryNotFound(vector, index))
      case Some(e) => Ok(e.entry.linked)
  }

  // ---------------------------------------------------------------------
  // Total entry count

  /** Sum of the entry counts of all vectors, in no particular order. */
  ghost function TotalLen<T>(vs: Vectors<T>): nat
    decreases |vs|
  {
    if vs == map[] then 0
    else
      var n :| n in vs;
      assert |vs - {n}| < |vs| by {
        assert (vs - {n}).Keys == vs.Keys - {n};
      }
      vs[n].Len() + TotalLen(vs - {n})
  }

  /** The sum does not depend on which vector is taken first. */
  lemma {:induction false} TotalLenPick<T>(vs: Vectors<T>, n: string)
    requires n in vs
    ensures TotalLen(vs) == vs[n].Len() + TotalLen(vs - {n})
    decreases |vs|
  {
    var m :| m in vs && TotalLen(vs) == vs[m].Len() + TotalLen(vs - {m});
    if m != n {
      assert (vs - {m}).Keys == vs.Keys - {m};
      assert (vs - {n}).Keys == vs.Keys - {n};
      TotalLenPick(vs - {m}, n);
      TotalLenPick(vs - {n}, m);
      assert vs - {m} - {n} == vs - {n} - {m};
    }
  }

  /** The total is zero exactly when every vector is empty. */
  lemma {:induction false} TotalLenZero<T>(vs: Vectors<T>)
    ensures TotalLen(vs) == 0 <==> forall n :: n in vs ==> vs[n].Len() == 0
    decreases |vs|
  {
    if vs != map[] {
      var m :| m in vs;
      TotalLenPick(vs, m);
      assert (vs - {m}).Keys == vs.Keys - {m};
      TotalLenZero(vs - {m});
      forall n | n in vs && n != m ensures n in vs - {m} && (vs - {m})[n] == vs[n] {
      }
    }
  }

  /** Replacing one store changes the total by the difference of its counts. */
  lemma {:induction false} TotalLenUpdate<T>(vs: Vectors<T>, n: string, v: BumpyVector<MultiEntry<T>>)
    requires n in vs
    ensures TotalLen(vs[n := v]) + vs[n].Len() == TotalLen(vs) + v.Len()
  {
    TotalLenPick(vs, n);
    TotalLenPick(vs[n := v], n);
    assert vs[n := v] - {n} == vs - {n};
  }

  /** Adding a store under a new name adds its count to the total. */
  lemma {:induction false} TotalLenAdd<T>(vs: Vectors<T>, n: string, v: BumpyVector<MultiEntry<T>>)
    requires n !in vs
    ensures TotalLen(vs[n := v]) == TotalLen(vs) + v.Len()
  {
    TotalLenPick(vs[n := v], n);
    assert vs[n := v] - {n} == vs;
  }

  // ---------------------------------------------------------------------
  // Group insert

  /** The span an item asks for. */
  function Span<T>(it: Insertion<T>): BumpyEntry<T> {
    BumpyEntry(it.data, it.index, it.size)
  }

  /** The entry stored for item `it` of a group whose link record is `refs`. */
  function Wrap<T>(it: Insertion<T>, refs: seq<Link>): (e: Entry<T>)
    ensures e.index == it.index && e.size == it.size && e.entry.data == it.data
    ensures e.entry.vector == it.vector && e.entry.linked == refs
  {
    BumpyEntry(MultiEntry(it.vector, it.data, refs), it.index, it.size)
  }

  /** The link record of a group: one coordinate per item, in order. */
  function References<T>(items: seq<Insertion<T>>): (refs: seq<Link>)
    ensures |refs| == |items|
    ensures forall i :: 0 <= i < |items| ==> refs[i].vector == items[i].vector && refs[i].index == items[i].index
  {
    seq(|items|, i requires 0 <= i < |items| => Link(items[i].vector, items[i].index))
  }

  /** Insert the items one after another, each carrying `refs`; the first
      refusal is the result. */
  function InsertEach<T>(vs: Vectors<T>, items: seq<Insertion<T>>, refs: seq<Link>): (r: Result<Vectors<T>, Error>)
    requires StoresValid(vs)
    ensures r.Ok? ==> StoresValid(r.value)
    ensures r.Err? ==> r.error.UnknownVector? || r.error.InsertFailed?
    ensures items == [] ==> r == Ok(vs)
    decreases |items|
  {
    if items == [] then Ok(vs)
    else
      var it := items[0];
      if it.vector !in vs then Err(UnknownVector(it.vector))
      else match vs[it.vector].Insert(Wrap(it, refs))
        case Err(cause) => Err(InsertFailed(it.vector, cause))
        case Ok(v) => InsertEach(vs[it.vector := v], items[1..], refs)
  }

  /** One step of InsertEach, at position `j` of the list being walked. */
  lemma {:induction false} InsertEachAt<T>(vs: Vectors<T>, items: seq<Insertion<T>>, j: nat, refs: seq<Link>)
    requires StoresValid(vs) && j < |items|
    ensures var it := items[j];
            InsertEach(vs, items[j..], refs) ==
              if it.vector !in vs then Err(UnknownVector(it.vector))
              else match vs[it.vector].Insert(Wrap(it, refs))
                case Err(cause) => Err(InsertFailed(it.vector, cause))
                case Ok(v) => InsertEach(vs[it.vector := v], items[j + 1..], refs)
  {
    assert items[j..][0] == items[j] && items[j..][1..] == items[j + 1..];
  }

  /** The registry after a successful `insert_entries(items)`. */
  function InsertGroup<T>(vs: Vectors<T>, items: seq<Insertion<T>>): (r: Result<Vectors<T>, Error>)
    requires StoresValid(vs)
    ensures r.Ok? ==> StoresValid(r.value)
    ensures r.Err? ==> r.error.UnknownVector? || r.error.InsertFailed?
    ensures items == [] ==> r == Ok(vs)
  {
    InsertEach(vs, items, References(items))
  }

  /** When a group insert can succeed: every item names an existing vector,
      is non-empty, fits its vector, overlaps no stored entry, and no two
      items in the same vector overlap. */
  ghost predicate Insertable<T>(vs: Vectors<T>, items: seq<Insertion<T>>) {
    && (forall i :: 0 <= i < |items| ==> ItemFits(vs, items[i]))
    && (forall i, j :: 0 <= i < j < |items| && items[i].vector == items[j].vector ==>
          !Overlaps(Span(items[i]), Span(items[j])))
  }

  ghost predicate ItemFits<T>(vs: Vectors<T>, it: Insertion<T>) {
    && it.vector in vs
    && 0 < it.size
    && it.index + it.size <= vs[it.vector].maxSize
    && forall k :: k in vs[it.vector].entries ==> !Overlaps(vs[it.vector].entries[k], Span(it))
  }

  /** `vs` is `vs0` with the entries at the coordinates `added` stored on
      top: same vectors and capacities, every entry of `vs0` still there,
      and the new start offsets are exactly the distinct coordinates of
      `added`. This is what the backtrack list of `insert_entries` records. */
  ghost predicate Extends<T>(vs0: Vectors<T>, vs: Vectors<T>, added: seq<Link>) {
    && vs.Keys == vs0.Keys
    && NoDuplicates(added)
    && (forall l :: l in added ==> AddedAt(vs0, vs, l))
    && (forall n :: n in vs ==> StoreExtends(n, vs0[n], vs[n], added))
  }

  /** Coordinate `l` is a start offset of `vs` that `vs0` did not have. */
  ghost predicate AddedAt<T>(vs0: Vectors<T>, vs: Vectors<T>, l: Link) {
    && l.vector in vs && l.vector in vs0
    && l.index in vs[l.vector].entries && l.index !in vs0[l.vector].entries
  }

  /** Store `s` of vector `n` is `s0` plus entries at coordinates of `added`. */
  ghost predicate StoreExtends<T>(n: string, s0: BumpyVector<T>, s: BumpyVector<T>, added: seq<Link>) {
    && s.maxSize == s0.maxSize
    && (forall k :: k in s0.entries ==> k in s.entries && s.entries[k] == s0.entries[k])
    && (forall k :: k in s.entries && k !in s0.entries ==> Link(n, k) in added)
  }

  /** A successful store insert extends the backtrack list by its coordinate. */
  lemma {:induction false} ExtendsInsert<T>(vs0: Vectors<T>, vs: Vectors<T>, added: seq<Link>,
                                            n: string, e: Entry<T>, v: BumpyVector<MultiEntry<T>>)
    requires StoresValid(vs) && Extends(vs0, vs, added)
    requires n in vs && vs[n].Insert(e) == Ok(v)
    ensures Extends(vs0, vs[n := v], added + [Link(n, e.index)])
  {
    var vs' := vs[n := v];
    var l := Link(n, e.index);
    var added' := added + [l];
    forall x | x in added ensures x != l {
      assert AddedAt(vs0, vs, x);
    }
    NoDuplicatesAppend(added, l);
    assert StoreExtends(n, vs0[n], vs[n], added);
    forall x | x in added' ensures AddedAt(vs0, vs', x) {
      if x != l {
        assert x in added;
        assert AddedAt(vs0, vs, x);
      }
    }
    forall m | m in vs' ensures StoreExtends(m, vs0[m], vs'[m], added') {
      assert StoreExtends(m, vs0[m], vs[m], added);
    }
  }

  /** Appending a coordinate not yet present keeps a list free of repeats. */
  lemma {:induction false} NoDuplicatesAppend(s: seq<Link>, l: Link)
    requires NoDuplicates(s) && l !in s
    ensures NoDuplicates(s + [l])
  {
    var s' := s + [l];
    forall a, b | 0 <= a < b < |s'| ensures s'[a] != s'[b] {
      if b == |s| {
        assert s'[a] in s;
      } else {
        assert s'[a] == s[a] && s'[b] == s[b];
      }
    }
  }

  /** The coordinates of a non-empty group: its first item's, then the rest. */
  lemma {:induction false} ReferencesCons<T>(items: seq<Insertion<T>>)
    requires items != []
    ensures References(items) == [Link(items[0].vector, items[0].index)] + References(items[1..])
  {
    var a := References(items);
    var b := [Link(items[0].vector, items[0].index)] + References(items[1..]);
    assert |a| == |b|;
    forall i | 0 <= i < |a| ensures a[i] == b[i] {
      if i > 0 {
        assert items[1..][i - 1] == items[i];
      }
    }
  }

  /** A group insert that succeeds extends the registry by exactly its
      coordinates (generalised over an earlier backtrack list). */
  lemma {:induction false} InsertEachExtends<T>(vs0: Vectors<T>, vs: Vectors<T>, added: seq<Link>,
                                                items: seq<Insertion<T>>, refs: seq<Link>)
    requires StoresValid(vs) && Extends(vs0, vs, added)
    requires InsertEach(vs, items, refs).Ok?
    ensures Extends(vs0, InsertEach(vs, items, refs).value, added + References(items))
    decreases |items|
  {
    if items == [] {
      assert added + References(items) == added;
    } else {
      var it := items[0];
      var v := vs[it.vector].Insert(Wrap(it, refs)).value;
      var vs1 := vs[it.vector := v];
      var added1 := added + [Link(it.vector, it.index)];
      assert InsertEach(vs, items, refs) == InsertEach(vs1, items[1..], refs);
      ReferencesCons(items);
      assert added + References(items) == added1 + References(items[1..]);
      ExtendsInsert(vs0, vs, added, it.vector, Wrap(it, refs), v);
      InsertEachExtends(vs0, vs1, added1, items[1..], refs);
    }
  }

  /** After a successful group insert, item `i` is stored at its own start
      offset, under its own vector's name, carrying the link record `refs`. */
  lemma {:induction false} InsertEachPlaces<T>(vs: Vectors<T>, items: seq<Insertion<T>>, refs: seq<Link>)
    requires StoresValid(vs) && InsertEach(vs, items, refs).Ok?
    ensures forall i :: 0 <= i < |items| ==>
              var vs' := InsertEach(vs, items, refs).value;
              && items[i].vector in vs'
              && items[i].index in vs'[items[i].vector].entries
              && vs'[items[i].vector].entries[items[i].index] == Wrap(items[i], refs)
    decreases |items|
  {
    if items != [] {
      var vs' := InsertEach(vs, items, refs).value;
      var it := items[0];
      var vs1 := vs[it.vector := vs[it.vector].Insert(Wrap(it, refs)).value];
      assert vs' == InsertEach(vs1, items[1..], refs).value;
      InsertEachPlaces(vs1, items[1..], refs);
      InsertEachKeeps(vs1, items[1..], refs, it.vector, it.index);
      forall i | 0 <= i < |items|
        ensures && items[i].vector in vs'
                && items[i].index in vs'[items[i].vector].entries
                && vs'[items[i].vector].entries[items[i].index] == Wrap(items[i], refs)
      {
        if i > 0 {
          assert items[i] == items[1..][i - 1];
        }
      }
    }
  }

  /** A group insert that succeeds keeps every entry already stored. */
  lemma {:induction false} InsertEachKeeps<T>(vs: Vectors<T>, items: seq<Insertion<T>>, refs: seq<Link>,
                                              n: string, k: nat)
    requires StoresValid(vs) && InsertEach(vs, items, refs).Ok?
    requires n in vs && k in vs[n].entries
    ensures var vs' := InsertEach(vs, items, refs).value;
            n in vs' && k in vs'[n].entries && vs'[n].entries[k] == vs[n].entries[k]
  {
    var vs' := InsertEach(vs, items, refs).value;
    InsertEachExtends(vs, vs, [], items, refs);
    assert StoreExtends(n, vs[n], vs'[n], [] + References(items));
  }

  /** A group insert adds one entry per item to the total count. */
  lemma {:induction false} InsertEachLen<T>(vs: Vectors<T>, items: seq<Insertion<T>>, refs: seq<Link>)
    requires StoresValid(vs) && InsertEach(vs, items, refs).Ok?
    ensures TotalLen(InsertEach(vs, items, refs).value) == TotalLen(vs) + |items|
    decreases |items|
  {
    if items != [] {
      var it := items[0];
      var v := vs[it.vector].Insert(Wrap(it, refs)).value;
      TotalLenUpdate(vs, it.vector, v);
      InsertEachLen(vs[it.vector := v], items[1..], refs);
    }
  }

  /** Inserting an item that fits keeps the remaining items insertable. */
  lemma {:induction false} InsertableStep<T>(vs: Vectors<T>, items: seq<Insertion<T>>, refs: seq<Link>)
    requires StoresValid(vs) && items != [] && Insertable(vs, items)
    ensures vs[items[0].vector].Insert(Wrap(items[0], refs)).Ok?
    ensures Insertable(vs[items[0].vector := vs[items[0].vector].Insert(Wrap(items[0], refs)).value], items[1..])
  {
    var it := items[0];
    var n := it.vector;
    assert ItemFits(vs, it);
    var v := vs[n].Insert(Wrap(it, refs)).value;
    var vs1 := vs[n := v];
    var rest := items[1..];
    forall j | 0 <= j < |rest| ensures ItemFits(vs1, rest[j]) {
      assert rest[j] == items[j + 1];
      assert ItemFits(vs, items[j + 1]);
      if rest[j].vector == n {
        assert !Overlaps(Span(items[0]), Span(items[j + 1]));
        forall k | k in vs1[n].entries ensures !Overlaps(vs1[n].entries[k], Span(rest[j])) {
          if k != it.index {
            assert vs1[n].entries[k] == vs[n].entries[k];
          }
        }
      }
    }
    forall i, j | 0 <= i < j < |rest| && rest[i].vector == rest[j].vector
      ensures !Overlaps(Span(rest[i]), Span(rest[j]))
    {
      assert rest[i] == items[i + 1] && rest[j] == items[j + 1];
    }
  }

  /** A group insert of insertable items succeeds. */
  lemma {:induction false} InsertableSucceeds<T>(vs: Vectors<T>, items: seq<Insertion<T>>, refs: seq<Link>)
    requires StoresValid(vs) && Insertable(vs, items)
    ensures InsertEach(vs, items, refs).Ok?
    decreases |items|
  {
    if items != [] {
      InsertableStep(vs, items, refs);
      var it := items[0];
      InsertableSucceeds(vs[it.vector := vs[it.vector].Insert(Wrap(it, refs)).value], items[1..], refs);
    }
  }

  /** A group insert that succeeds had insertable items. */
  lemma {:induction false} SucceedsInsertable<T>(vs: Vectors<T>, items: seq<Insertion<T>>, refs: seq<Link>)
    requires StoresValid(vs) && InsertEach(vs, items, refs).Ok?
    ensures Insertable(vs, items)
    decreases |items|
  {
    if items != [] {
      var it := items[0];
      var n := it.vector;
      var v := vs[n].Insert(Wrap(it, refs)).value;
      var vs1 := vs[n := v];
      SucceedsInsertable(vs1, items[1..], refs);
      InsertableBefore(vs, items, Wrap(it, refs), v);
    }
  }

  /** If the first item went in as `e` and the rest were insertable after
      it, all the items were insertable before it. */
  lemma {:induction false} InsertableBefore<T>(vs: Vectors<T>, items: seq<Insertion<T>>, e: Entry<T>, v: BumpyVector<MultiEntry<T>>)
    requires StoresValid(vs) && items != [] && items[0].vector in vs
    requires e.index == items[0].index && e.size == items[0].size
    requires vs[items[0].vector].Insert(e) == Ok(v)
    requires Insertable(vs[items[0].vector := v], items[1..])
    ensures Insertable(vs, items)
  {
    var n := items[0].vector;
    var vs1 := vs[n := v];
    var rest := items[1..];
    forall i | 0 <= i < |items| ensures ItemFits(vs, items[i]) {
      if i > 0 {
        assert items[i] == rest[i - 1];
        FitsBefore(vs, n, e, v, items[i]);
      }
    }
    forall i, j | 0 <= i < j < |items| && items[i].vector == items[j].vector
      ensures !Overlaps(Span(items[i]), Span(items[j]))
    {
      assert items[j] == rest[j - 1];
      if i == 0 {
        assert ItemFits(vs1, rest[j - 1]);
        assert vs1[n].entries[e.index] == e;
      } else {
        assert items[i] == rest[i - 1];
      }
    }
  }

  /** An item that fits after an insert already fitted before it. */
  lemma {:induction false} FitsBefore<T>(vs: Vectors<T>, n: string, e: Entry<T>, v: BumpyVector<MultiEntry<T>>, it: Insertion<T>)
    requires StoresValid(vs) && n in vs && vs[n].Insert(e) == Ok(v)
    requires ItemFits(vs[n := v], it)
    ensures ItemFits(vs, it)
  {
    var vs1 := vs[n := v];
    forall k | k in vs[it.vector].entries
      ensures !Overlaps(vs[it.vector].entries[k], Span(it))
    {
      assert vs1[it.vector].entries[k] == vs[it.vector].entries[k];
    }
  }

  // ---------------------------------------------------------------------
  // Removal along a list of coordinates

  /** Remove the entry covering each coordinate in turn, collecting what was
      removed; a coordinate naming an unknown vector yields `None`. The
      state is what `_force_remove` leaves, the slots what `remove_entries`
      returns. */
  function RemoveLinks<T>(vs: Vectors<T>, links: seq<Link>): (r: (Vectors<T>, seq<Option<Entry<T>>>))
    requires StoresValid(vs)
    ensures StoresValid(r.0) && r.0.Keys == vs.Keys && |r.1| == |links|
    ensures forall n :: n in vs ==> r.0[n].maxSize == vs[n].maxSize
    decreases |links|
  {
    if links == [] then (vs, [])
    else
      var first := RemoveOne(vs, links[0]);
      var rest := RemoveLinks(first.0, links[1..]);
      (rest.0, [first.1] + rest.1)
  }

  /** Remove the entry covering one coordinate: the registry after, and the
      entry removed, or `None` when the vector is unknown or nothing covers
      the offset. */
  function RemoveOne<T>(vs: Vectors<T>, l: Link): (r: (Vectors<T>, Option<Entry<T>>))
    requires StoresValid(vs)
    ensures StoresValid(r.0) && r.0.Keys == vs.Keys
    ensures r.1 == Lookup(vs, l.vector, l.index)
    ensures forall n :: n in vs ==> r.0[n].maxSize == vs[n].maxSize
    ensures r.1.None? ==> r.0 == vs
    ensures r.1.Some? ==> r.0[l.vector].Len() == vs[l.vector].Len() - 1
    ensures forall n :: n in vs && n != l.vector ==> r.0[n] == vs[n]
  {
    if l.vector in vs then
      var removed := vs[l.vector].Remove(l.index);
      (vs[l.vector := removed.0], removed.1)
    else (vs, None)
  }


  /** One step of removal: the first coordinate, then the rest. */
  lemma {:induction false} RemoveLinksCons<T>(vs: Vectors<T>, links: seq<Link>)
    requires StoresValid(vs) && links != []
    ensures var first := RemoveOne(vs, links[0]);
            RemoveLinks(vs, links) == (RemoveLinks(first.0, links[1..]).0,
                                       [first.1] + RemoveLinks(first.0, links[1..]).1)
  {
  }

  /** Sequence concatenation is associative. */
  lemma {:induction false} AppendAssoc<X>(a: seq<X>, b: seq<X>, c: seq<X>)
    ensures a + (b + c) == (a + b) + c
  {
  }

  /** Number of `Some` slots. */
  function CountSome<X>(s: seq<Option<X>>): (c: nat)
    ensures c <= |s|
  {
    if s == [] then 0 else (if s[0].Some? then 1 else 0) + CountSome(s[1..])
  }

  /** Removal lowers the total count by exactly the number of entries it
      returned, whatever the link record holds. */
  lemma {:induction false} RemoveLinksLen<T>(vs: Vectors<T>, links: seq<Link>)
    requires StoresValid(vs)
    ensures TotalLen(RemoveLinks(vs, links).0) + CountSome(RemoveLinks(vs, links).1) == TotalLen(vs)
    decreases |links|
  {
    if links != [] {
      var l := links[0];
      if l.vector in vs {
        var removed := vs[l.vector].Remove(l.index);
        TotalLenUpdate(vs, l.vector, removed.0);
        RemoveLinksLen(vs[l.vector := removed.0], links[1..]);
        assert ([removed.1] + RemoveLinks(vs[l.vector := removed.0], links[1..]).1)[1..]
            == RemoveLinks(vs[l.vector := removed.0], links[1..]).1;
      } else {
        RemoveLinksLen(vs, links[1..]);
        assert ([None] + RemoveLinks(vs, links[1..]).1)[1..] == RemoveLinks(vs, links[1..]).1;
      }
    }
  }

  /** With nothing recorded, an extension is the original registry. */
  lemma {:induction false} ExtendsNothing<T>(vs0: Vectors<T>, vs: Vectors<T>)
    requires Extends(vs0, vs, [])
    ensures vs == vs0
  {
    forall n | n in vs ensures vs[n] == vs0[n] {
      assert StoreExtends(n, vs0[n], vs[n], []);
      assert vs[n].entries == vs0[n].entries;
    }
  }

  /** Removing the first recorded coordinate leaves an extension by the rest. */
  lemma {:induction false} ExtendsRemove<T>(vs0: Vectors<T>, vs: Vectors<T>, added: seq<Link>)
    requires StoresValid(vs) && Extends(vs0, vs, added) && added != []
    ensures added[0].vector in vs && added[0].index in vs[added[0].vector].entries
    ensures var l := added[0];
            var removed := vs[l.vector].Remove(l.index);
            removed.1 == Some(vs[l.vector].entries[l.index])
            && Extends(vs0, vs[l.vector := removed.0], added[1..])
  {
    var l := added[0];
    assert l in added;
    assert AddedAt(vs0, vs, l);
    var n := l.vector;
    var removed := vs[n].Remove(l.index);
    var vs1 := vs[n := removed.0];
    var rest := added[1..];
    NoDuplicatesTail(added);
    forall x | x in rest ensures AddedAt(vs0, vs1, x) {
      assert x in added;
      assert AddedAt(vs0, vs, x);
    }
    forall m | m in vs1 ensures StoreExtends(m, vs0[m], vs1[m], rest) {
      StoreExtendsRemove(vs0, vs, added, m);
    }
  }

  /** ExtendsRemove, for the store of one vector `m`. */
  lemma {:induction false} StoreExtendsRemove<T>(vs0: Vectors<T>, vs: Vectors<T>, added: seq<Link>, m: string)
    requires StoresValid(vs) && Extends(vs0, vs, added) && added != [] && m in vs
    requires added[0].vector in vs && added[0].index in vs[added[0].vector].entries
    requires added[0].index !in vs0[added[0].vector].entries
    ensures var l := added[0];
            var vs1 := vs[l.vector := vs[l.vector].Remove(l.index).0];
            StoreExtends(m, vs0[m], vs1[m], added[1..])
  {
    var l := added[0];
    var removed := vs[l.vector].Remove(l.index);
    var vs1 := vs[l.vector := removed.0];
    NoDuplicatesTail(added);
    assert StoreExtends(m, vs0[m], vs[m], added);
    assert removed.1 == Some(vs[l.vector].entries[l.index]);
    forall k | k in vs1[m].entries && k !in vs0[m].entries ensures Link(m, k) in added[1..] {
      assert Link(m, k) in added && Link(m, k) != l;
    }
  }

  /** Dropping the first coordinate of a list without repeats leaves a list
      without repeats that no longer holds it. */
  lemma {:induction false} NoDuplicatesTail(s: seq<Link>)
    requires NoDuplicates(s) && s != []
    ensures NoDuplicates(s[1..]) && s[0] !in s[1..]
    ensures forall x :: x in s ==> x == s[0] || x in s[1..]
  {
    forall a, b | 0 <= a < b < |s[1..]| ensures s[1..][a] != s[1..][b] {
      assert s[1..][a] == s[a + 1] && s[1..][b] == s[b + 1];
    }
    forall j | 0 <= j < |s[1..]| ensures s[1..][j] != s[0] {
      assert s[1..][j] == s[j + 1];
    }
    assert s == [s[0]] + s[1..];
  }

  /** Rollback is exact: removing the coordinates recorded while extending
      `vs0` gives back `vs0` itself. */
  lemma {:induction false} RollbackRestores<T>(vs0: Vectors<T>, vs: Vectors<T>, added: seq<Link>)
    requires StoresValid(vs) && Extends(vs0, vs, added)
    ensures RemoveLinks(vs, added).0 == vs0
    decreases |added|
  {
    if added == [] {
      ExtendsNothing(vs0, vs);
    } else {
      var l := added[0];
      ExtendsRemove(vs0, vs, added);
      var vs1 := vs[l.vector := vs[l.vector].Remove(l.index).0];
      RollbackRestores(vs0, vs1, added[1..]);
    }
  }

  // ---------------------------------------------------------------------
  // Unlink

  /** `links` with every occurrence of `l` filtered out, order kept. */
  function Without(links: seq<Link>, l: Link): (r: seq<Link>)
    ensures forall x :: x in r <==> x in links && x != l
    ensures l !in links ==> r == links
    ensures NoDuplicates(links) ==> NoDuplicates(r)
    ensures NoDuplicates(links) && l in links ==> |r| == |links| - 1
    decreases |links|
  {
    if links == [] then []
    else
      var rest := Without(links[1..], l);
      assert NoDuplicates(links) ==> links[0] !in links[1..] && NoDuplicates(links[1..]) by {
        if NoDuplicates(links) {
          forall a, b | 0 <= a < b < |links[1..]| ensures links[1..][a] != links[1..][b] {
            assert links[1..][a] == links[a + 1] && links[1..][b] == links[b + 1];
          }
          forall j | 0 <= j < |links[1..]| ensures links[1..][j] != links[0] {
            assert links[1..][j] == links[j + 1];
          }
        }
      }
      assert links == [links[0]] + links[1..];
      if links[0] == l then rest else [links[0]] + rest
  }

  /** Every coordinate of `links` is covered by an entry. */
  ghost predicate LinksResolve<T>(vs: Vectors<T>, links: seq<Link>)
    requires StoresValid(vs)
  {
    forall l :: l in links ==> l.vector in vs && vs[l.vector].Get(l.index).Some?
  }

  /** Same vectors, and every store keeps its layout. */
  ghost predicate SameLayouts<T>(vs: Vectors<T>, vs': Vectors<T>) {
    && vs.Keys == vs'.Keys
    && forall n :: n in vs ==> SameLayout(vs[n], vs'[n])
  }

  lemma {:induction false} ResolveSameLayouts<T>(vs: Vectors<T>, vs': Vectors<T>, links: seq<Link>)
    requires StoresValid(vs) && StoresValid(vs') && SameLayouts(vs, vs') && LinksResolve(vs, links)
    ensures LinksResolve(vs', links)
  {
    forall l | l in links ensures l.vector in vs' && vs'[l.vector].Get(l.index).Some? {
      GetSameLayout(vs[l.vector], vs'[l.vector], l.index);
    }
  }

  /** Give the entry covering each coordinate of `links` the link record
      `linked`, one after another. */
  function Relink<T>(vs: Vectors<T>, links: seq<Link>, linked: seq<Link>): (r: Vectors<T>)
    requires StoresValid(vs) && LinksResolve(vs, links)
    ensures StoresValid(r) && SameLayouts(vs, r)
    decreases |links|
  {
    if links == [] then vs
    else
      var l := links[0];
      var v := vs[l.vector];
      var e := v.Get(l.index).value;
      var vs1 := vs[l.vector := v.Replace(l.index, e.entry.(linked := linked))];
      assert SameLayouts(vs, vs1);
      ResolveSameLayouts(vs, vs1, links[1..]);
      Relink(vs1, links[1..], linked)
  }

  /** One step of relinking: the first coordinate's entry gets `linked`,
      and the rest of the list still resolves. */
  lemma {:induction false} RelinkCons<T>(vs: Vectors<T>, links: seq<Link>, linked: seq<Link>)
    requires StoresValid(vs) && LinksResolve(vs, links) && links != []
    ensures var l := links[0];
            var v := vs[l.vector];
            var vs1 := vs[l.vector := v.Replace(l.index, v.Get(l.index).value.entry.(linked := linked))];
            && StoresValid(vs1) && LinksResolve(vs1, links[1..])
            && Relink(vs, links, linked) == Relink(vs1, links[1..], linked)
  {
    var l := links[0];
    var v := vs[l.vector];
    var vs1 := vs[l.vector := v.Replace(l.index, v.Get(l.index).value.entry.(linked := linked))];
    assert SameLayouts(vs, vs1);
    ResolveSameLayouts(vs, vs1, links[1..]);
  }

  /** What `unlink_entry` needs to run to completion: every coordinate in
      the link record of the entry it detaches is covered by an entry. */
  ghost predicate UnlinkResolves<T>(vs: Vectors<T>, vector: string, index: nat)
    requires StoresValid(vs)
  {
    vector in vs && vs[vector].Get(index).Some? ==>
      LinksResolve(vs, vs[vector].Get(index).value.entry.linked)
  }

  /** The registry after `unlink_entry(vector, index)`: the entry covering
      `index` gets the link record holding only its own coordinate (built
      from its stored start offset), then every other coordinate of its old
      record gets that record with this coordinate filtered out. */
  function Unlink<T>(vs: Vectors<T>, vector: string, index: nat): (r: Result<Vectors<T>, Error>)
    requires StoresValid(vs) && UnlinkResolves(vs, vector, index)
    ensures vector !in vs ==> r == Err(UnknownVector(vector))
    ensures vector in vs && vs[vector].Get(index).None? ==> r == Err(EntryNotFound(vector, index))
    ensures r.Ok? <==> vector in vs && vs[vector].Get(index).Some?
    ensures r.Ok? ==> StoresValid(r.value) && SameLayouts(vs, r.value)
  {
    if vector !in vs then Err(UnknownVector(vector))
    else match vs[vector].Get(index)
      case None => Err(EntryNotFound(vector, index))
      case Some(e) => Ok(Detach(vs, vector, index, e))
  }

  /** The first step of `Detach`, giving the detached entry its own
      coordinate as record, leaves the remaining coordinates resolvable. */
  lemma {:induction false} DetachStep<T>(vs: Vectors<T>, vector: string, index: nat, e: Entry<T>)
    requires StoresValid(vs) && vector in vs && vs[vector].Get(index) == Some(e)
    requires LinksResolve(vs, e.entry.linked)
    ensures var self := Link(vector, e.index);
            var rest := Without(e.entry.linked, self);
            var vs1 := vs[vector := vs[vector].Replace(index, e.entry.(linked := [self]))];
            && StoresValid(vs1) && LinksResolve(vs1, rest)
            && Detach(vs, vector, index, e) == Relink(vs1, rest, rest)
  {
    var self := Link(vector, e.index);
    var rest := Without(e.entry.linked, self);
    var vs1 := vs[vector := vs[vector].Replace(index, e.entry.(linked := [self]))];
    assert SameLayouts(vs, vs1);
    ResolveSameLayouts(vs, vs1, rest);
  }

  /** Unlink succeeds on any covered offset of a known vector. */
  lemma {:induction false} UnlinkOk<T>(vs: Vectors<T>, vector: string, index: nat)
    requires StoresValid(vs) && UnlinkResolves(vs, vector, index)
    requires vector in vs && vs[vector].Get(index).Some?
    ensures Unlink(vs, vector, index) == Ok(Detach(vs, vector, index, vs[vector].Get(index).value))
  {
  }

  /** The successful case of `Unlink`, for the entry `e` covering `index`. */
  function Detach<T>(vs: Vectors<T>, vector: string, index: nat, e: Entry<T>): (r: Vectors<T>)
    requires StoresValid(vs) && vector in vs && vs[vector].Get(index) == Some(e)
    requires LinksResolve(vs, e.entry.linked)
    ensures StoresValid(r) && SameLayouts(vs, r)
  {
    var self := Link(vector, e.index);
    var rest := Without(e.entry.linked, self);
    var vs1 := vs[vector := vs[vector].Replace(index, e.entry.(linked := [self]))];
    assert SameLayouts(vs, vs1);
    ResolveSameLayouts(vs, vs1, rest);
    Relink(vs1, rest, rest)
  }

}
