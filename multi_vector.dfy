/**
  The MultiVector object: a set of named BumpyVectors whose entries are
  inserted, unlinked and removed in groups. The registry map is the one
  field the operations update. Each state-changing method is proved to
  leave exactly the registry its contract gives: for `CreateVector` and
  `DestroyVector` the map with one name added or dropped, for the others
  the registry their pure counterpart in `Registry` computes. Only the
  public operations (`CreateVector`, `DestroyVector`, `InsertEntries`,
  `InsertEntry`, `UnlinkEntry`, `RemoveEntries`) keep the group invariant
  `Consistent` of `Groups`; the internal helpers `ForceRemove`,
  `Rollback`, `WriteLinks` and `RemoveEach`, run on part of a group, can
  leave records naming removed or relinked entries, and make no such
  promise.
*/
module MultiVectors {
  import opened Wrappers
  import opened Bumpy
  import opened Registry
  import opened Groups

  class MultiVector<T> {
    /** Vector name to store. */
    var vectors: Vectors<T>

    /** Every store keeps the BumpyVector invariant. */
    ghost predicate Valid()
      reads this
    {
      StoresValid(vectors)
    }

    /** A new, empty instance (`new`). */
    constructor ()
      ensures Valid() && Consistent(vectors) && vectors == map[]
    {
      vectors := map[];
    }

    /** Add an empty vector of capacity `maxSize` under a new name. */
    method CreateVector(name: string, maxSize: nat) returns (r: Result<(), Error>)
      requires Valid()
      modifies this
      ensures Valid()
      ensures name in old(vectors) ==> r == Err(DuplicateName(name)) && vectors == old(vectors)
      ensures name !in old(vectors) ==>
                && r == Ok(())
                && vectors == old(vectors)[name := New(maxSize)]
                && VectorCount() == old(VectorCount()) + 1
                && TotalLen(vectors) == old(TotalLen(vectors))
      ensures old(Consistent(vectors)) ==> Consistent(vectors)
    {
      if name in vectors {
        return Err(DuplicateName(name));
      }
      ghost var before := vectors;
      TotalLenAdd(before, name, New(maxSize));
      if Consistent(before) {
        CreateConsistent(before, name, maxSize);
      }
      vectors := vectors[name := New(maxSize)];
      r := Ok(());
    }

    /** Drop an empty vector, returning its capacity. A vector that is
        missing or still holds entries is refused. */
    method DestroyVector(name: string) returns (r: Result<nat, Error>)
      requires Valid()
      modifies this
      ensures Valid()
      ensures name !in old(vectors) ==> r == Err(UnknownVector(name)) && vectors == old(vectors)
      ensures name in old(vectors) && old(vectors)[name].Len() != 0 ==>
                r == Err(NotEmpty(name)) && vectors == old(vectors)
      ensures name in old(vectors) && old(vectors)[name].Len() == 0 ==>
                && r == Ok(old(vectors)[name].maxSize)
                && vectors == old(vectors) - {name}
                && VectorCount() == old(VectorCount()) - 1
                && TotalLen(vectors) == old(TotalLen(vectors))
      ensures old(Consistent(vectors)) ==> Consistent(vectors)
    {
      if name !in vectors {
        return Err(UnknownVector(name));
      }
      if vectors[name].Len() != 0 {
        return Err(NotEmpty(name));
      }
      ghost var before := vectors;
      TotalLenPick(before, name);
      if Consistent(before) {
        DestroyConsistent(before, name);
      }
      r := Ok(vectors[name].maxSize);
      vectors := vectors - {name};
    }

    /** Remove the entry covering each coordinate, ignoring unknown vectors
        and uncovered offsets, without touching any link record. Used to
        roll back a failed group insert. */
    method ForceRemove(links: seq<Link>)
      requires Valid()
      modifies this
      ensures Valid() && vectors == RemoveLinks(old(vectors), links).0
    {
      var i := 0;
      while i < |links|
        invariant 0 <= i <= |links|
        invariant StoresValid(vectors)
        invariant RemoveLinks(vectors, links[i..]).0 == RemoveLinks(old(vectors), links).0
      {
        var l := links[i];
        assert links[i..][1..] == links[i + 1..];
        if l.vector in vectors {
          var removed := vectors[l.vector].Remove(l.index);
          vectors := vectors[l.vector := removed.0];
        }
        i := i + 1;
      }
    }

    /** Insert a group of entries, all or nothing. Each entry stores its
        own vector's name and the full list of the group's coordinates; on
        the first refusal every entry this call added is removed again and
        the refusal is reported. */
    method InsertEntries(entries: seq<Insertion<T>>) returns (r: Result<(), Error>)
      requires Valid()
      modifies this
      ensures Valid()
      ensures InsertGroup(old(vectors), entries).Ok? ==>
                r == Ok(()) && vectors == InsertGroup(old(vectors), entries).value
      ensures InsertGroup(old(vectors), entries).Err? ==>
                r == Err(InsertGroup(old(vectors), entries).error) && vectors == old(vectors)
      ensures old(Consistent(vectors)) ==> Consistent(vectors)
    {
      ghost var start := vectors;
      var references := References(entries);
      var backtrack: seq<Link> := [];
      var i := 0;
      while i < |entries|
        invariant 0 <= i <= |entries|
        invariant StoresValid(vectors)
        invariant Extends(start, vectors, backtrack)
        invariant InsertEach(vectors, entries[i..], references) == InsertGroup(start, entries)
      {
        InsertEachAt(vectors, entries, i, references);
        var it := entries[i];
        if it.vector !in vectors {
          Rollback(start, backtrack);
          return Err(UnknownVector(it.vector));
        }
        var entry := Wrap(it, references);
        var inserted := vectors[it.vector].Insert(entry);
        if inserted.Err? {
          Rollback(start, backtrack);
          return Err(InsertFailed(it.vector, inserted.error));
        }
        ExtendsInsert(start, vectors, backtrack, it.vector, entry, inserted.value);
        vectors := vectors[it.vector := inserted.value];
        backtrack := backtrack + [Link(it.vector, it.index)];
        i := i + 1;
      }
      assert entries[i..] == [];
      if Consistent(start) {
        InsertGroupConsistent(start, entries);
      }
      r := Ok(());
    }

    /** Undo the entries recorded in `backtrack`, restoring `start`. */
    method Rollback(ghost start: Vectors<T>, backtrack: seq<Link>)
      requires Valid() && Extends(start, vectors, backtrack)
      modifies this
      ensures Valid() && vectors == start
    {
      RollbackRestores(start, vectors, backtrack);
      ForceRemove(backtrack);
    }

    /** Insert a single entry, in a group of its own. */
    method InsertEntry(vector: string, data: T, index: nat, size: nat) returns (r: Result<(), Error>)
      requires Valid()
      modifies this
      ensures Valid()
      ensures InsertGroup(old(vectors), [Insertion(vector, data, index, size)]).Ok? ==>
                r == Ok(()) && vectors == InsertGroup(old(vectors), [Insertion(vector, data, index, size)]).value
      ensures InsertGroup(old(vectors), [Insertion(vector, data, index, size)]).Err? ==>
                r == Err(InsertGroup(old(vectors), [Insertion(vector, data, index, size)]).error)
                && vectors == old(vectors)
      ensures old(Consistent(vectors)) ==> Consistent(vectors)
    {
      r := InsertEntries([Insertion(vector, data, index, size)]);
    }

    /** Detach the entry covering `index` of `vector` from its group: its
        record becomes its own coordinate alone, and every other member of
        the old record gets the old record without that coordinate. The
        caller guarantees that every coordinate of the old record is
        covered by an entry. */
    method UnlinkEntry(vector: string, index: nat) returns (r: Result<(), Error>)
      requires Valid() && UnlinkResolves(vectors, vector, index)
      modifies this
      ensures Valid()
      ensures Unlink(old(vectors), vector, index).Err? ==>
                r == Err(Unlink(old(vectors), vector, index).error) && vectors == old(vectors)
      ensures Unlink(old(vectors), vector, index).Ok? ==>
                r == Ok(()) && vectors == Unlink(old(vectors), vector, index).value
      ensures old(Consistent(vectors)) ==> Consistent(vectors)
    {
      if vector !in vectors {
        return Err(UnknownVector(vector));
      }
      var found := vectors[vector].Get(index);
      if found.None? {
        return Err(EntryNotFound(vector, index));
      }
      var e := found.value;
      ghost var before := vectors;
      UnlinkOk(before, vector, index);
      if Consistent(before) {
        UnlinkConsistent(before, vector, index);
      }
      DetachStep(before, vector, index, e);
      var self := Link(vector, e.index);
      var newLinked := Without(e.entry.linked, self);
      vectors := vectors[vector := vectors[vector].Replace(index, e.entry.(linked := [self]))];
      WriteLinks(newLinked, newLinked);
      r := Ok(());
    }

    /** Give every entry covering a coordinate of `links` the link record
        `linked`, one coordinate at a time. */
    method WriteLinks(links: seq<Link>, linked: seq<Link>)
      requires Valid() && LinksResolve(vectors, links)
      modifies this
      ensures Valid() && vectors == Relink(old(vectors), links, linked)
    {
      var j := 0;
      while j < |links|
        invariant 0 <= j <= |links|
        invariant StoresValid(vectors) && LinksResolve(vectors, links[j..])
        invariant Relink(vectors, links[j..], linked) == Relink(old(vectors), links, linked)
      {
        RelinkCons(vectors, links[j..], linked);
        assert links[j..][1..] == links[j + 1..];
        var l := links[j];
        var v := vectors[l.vector];
        var x := v.Get(l.index).value;
        vectors := vectors[l.vector := v.Replace(l.index, x.entry.(linked := linked))];
        j := j + 1;
      }
      assert links[j..] == [];
    }

    /** The entry covering `index` of `vector`, if any (`get_entry`). */
    function GetEntry(vector: string, index: nat): (r: Option<Entry<T>>)
      reads this
      requires Valid()
      ensures r == Lookup(vectors, vector, index)
    {
      Lookup(vectors, vector, index)
    }

    /** The group of the entry covering `index` of `vector`: one slot per
        coordinate of its record, in record order, each the entry covering
        that coordinate. */
    method GetEntries(vector: string, index: nat) returns (r: Result<seq<Option<Entry<T>>>, Error>)
      requires Valid()
      ensures GroupOf(vectors, vector, index).Err? ==> r == Err(GroupOf(vectors, vector, index).error)
      ensures GroupOf(vectors, vector, index).Ok? ==>
                && r.Ok?
                && |r.value| == |GroupOf(vectors, vector, index).value|
                && forall i :: 0 <= i < |r.value| ==>
                     r.value[i] == Lookup(vectors, GroupOf(vectors, vector, index).value[i].vector,
                                          GroupOf(vectors, vector, index).value[i].index)
    {
      if vector !in vectors {
        return Err(UnknownVector(vector));
      }
      var found := vectors[vector].Get(index);
      if found.None? {
        return Err(EntryNotFound(vector, index));
      }
      var linked := found.value.entry.linked;
      var results: seq<Option<Entry<T>>> := [];
      var i := 0;
      while i < |linked|
        invariant 0 <= i <= |linked| && |results| == i
        invariant forall j :: 0 <= j < i ==> results[j] == Lookup(vectors, linked[j].vector, linked[j].index)
      {
        results := results + [GetEntry(linked[i].vector, linked[i].index)];
        i := i + 1;
      }
      r := Ok(results);
    }

    /** Remove the group of the entry covering `index` of `vector`,
        returning one slot per coordinate of its record, in record order:
        the entry removed there, or `None` when nothing was. */
    method RemoveEntries(vector: string, index: nat) returns (r: Result<seq<Option<Entry<T>>>, Error>)
      requires Valid()
      modifies this
      ensures Valid()
      ensures GroupOf(old(vectors), vector, index).Err? ==>
                r == Err(GroupOf(old(vectors), vector, index).error) && vectors == old(vectors)
      ensures GroupOf(old(vectors), vector, index).Ok? ==>
                var removal := RemoveLinks(old(vectors), GroupOf(old(vectors), vector, index).value);
                && r == Ok(removal.1)
                && vectors == removal.0
                && TotalLen(vectors) == old(TotalLen(vectors)) - CountSome(removal.1)
      ensures old(Consistent(vectors)) ==> Consistent(vectors)
    {
      if vector !in vectors {
        return Err(UnknownVector(vector));
      }
      var found := vectors[vector].Get(index);
      if found.None? {
        return Err(EntryNotFound(vector, index));
      }
      var linked := found.value.entry.linked;
      ghost var before := vectors;
      var results := RemoveEach(linked);
      RemoveLinksLen(before, linked);
      if Consistent(before) {
        RemoveGroupConsistent(before, vector, index);
      }
      r := Ok(results);
    }

    /** Remove the entry covering each coordinate of `links`, in order,
        collecting what each removal took out (`None` for a coordinate with
        no vector or no entry). */
    method RemoveEach(links: seq<Link>) returns (results: seq<Option<Entry<T>>>)
      requires Valid()
      modifies this
      ensures Valid() && (vectors, results) == RemoveLinks(old(vectors), links)
    {
      results := [];
      var i := 0;
      assert links[i..] == links;
      while i < |links|
        invariant 0 <= i <= |links|
        invariant StoresValid(vectors)
        invariant RemoveLinks(vectors, links[i..]).0 == RemoveLinks(old(vectors), links).0
        invariant results + RemoveLinks(vectors, links[i..]).1 == RemoveLinks(old(vectors), links).1
      {
        var l := links[i];
        RemoveLinksCons(vectors, links[i..]);
        assert links[i..][0] == l && links[i..][1..] == links[i + 1..];
        ghost var step := RemoveOne(vectors, l);
        ghost var tail := RemoveLinks(step.0, links[i + 1..]);
        AppendAssoc(results, [step.1], tail.1);
        if l.vector in vectors {
          var removed := vectors[l.vector].Remove(l.index);
          vectors := vectors[l.vector := removed.0];
          results := results + [removed.1];
        } else {
          results := results + [None];
        }
        i := i + 1;
      }
      assert results + [] == results;
    }

    /** Number of vectors. */
    function VectorCount(): (c: nat)
      reads this
      ensures c == 0 <==> vectors == map[]
    {
      |vectors|
    }

    /** Whether a vector with this name exists. */
    function VectorExists(vector: string): (b: bool)
      reads this
      ensures b <==> LenVector(vector).Some? && MaxSizeVector(vector).Some?
    {
      vector in vectors
    }

    /** Number of entries in the named vector, if it exists. */
    function LenVector(vector: string): (r: Option<nat>)
      reads this
      ensures r.Some? <==> vector in vectors
      ensures r.Some? ==> r.value == |vectors[vector].entries|
    {
      if vector in vectors then Some(vectors[vector].Len()) else None
    }

    /** Capacity of the named vector, if it exists. */
    function MaxSizeVector(vector: string): (r: Option<nat>)
      reads this
      ensures r.Some? <==> vector in vectors
      ensures r.Some? ==> r.value == vectors[vector].maxSize
    {
      if vector in vectors then Some(vectors[vector].maxSize) else None
    }

    /** Total number of entries over all vectors, summed in whatever order
        the names come out. */
    method Len() returns (n: nat)
      ensures n == TotalLen(vectors)
    {
      var rest := vectors;
      n := 0;
      while rest != map[]
        invariant n + TotalLen(rest) == TotalLen(vectors)
        decreases |rest|
      {
        var name :| name in rest;
        TotalLenPick(rest, name);
        n := n + rest[name].Len();
        rest := rest - {name};
      }
    }
  }
}
