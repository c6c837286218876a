/**
  The group invariant of a MultiVector and what each operation does to it.

  Every stored entry carries the link record of its group. The registry is
  consistent when every entry names its own vector, its own coordinate is in
  its record, the record has no repeats, and every coordinate of the record
  is the start offset of an entry whose record is the same list. Under that
  invariant, group insert keeps it, unlink splits one group into a singleton
  and the remaining members, and group removal takes out exactly the
  members, in record order.
*/
module Groups {
  import opened Wrappers
  import opened Bumpy
  import opened Registry

  /** Coordinate `l` is the start offset of an entry whose record is `linked`. */
  ghost predicate Resolves<T>(vs: Vectors<T>, l: Link, linked: seq<Link>) {
    && l.vector in vs
    && l.index in vs[l.vector].entries
    && vs[l.vector].entries[l.index].entry.linked == linked
  }

  /** Entry `e`, stored in vector `n`, is a well-formed member of its group. */
  ghost predicate MemberConsistent<T>(vs: Vectors<T>, n: string, e: Entry<T>) {
    && e.entry.vector == n
    && Link(n, e.index) in e.entry.linked
    && NoDuplicates(e.entry.linked)
    && forall l :: l in e.entry.linked ==> Resolves(vs, l, e.entry.linked)
  }

  /** The entry stored under start offset `k` of vector `n`, if any, is a
      well-formed member of its group. */
  ghost predicate MemberOk<T>(vs: Vectors<T>, n: string, k: nat) {
    n in vs && k in vs[n].entries ==> MemberConsistent(vs, n, vs[n].entries[k])
  }

  /** Every stored entry is a well-formed member of its group. The
      invariant is instantiated only where a proof names a coordinate. */
  ghost predicate Consistent<T>(vs: Vectors<T>) {
    forall n, k {:trigger MemberOk(vs, n, k)} :: MemberOk(vs, n, k)
  }

  /** Every coordinate of `links` is the start offset of a stored entry. */
  ghost predicate AtStarts<T>(vs: Vectors<T>, links: seq<Link>) {
    forall l :: l in links ==> l.vector in vs && l.index in vs[l.vector].entries
  }

  lemma {:induction false} StartsResolve<T>(vs: Vectors<T>, links: seq<Link>)
    requires StoresValid(vs) && AtStarts(vs, links)
    ensures LinksResolve(vs, links)
  {
    forall l | l in links ensures l.vector in vs && vs[l.vector].Get(l.index).Some? {
      assert l.index in vs[l.vector].entries;
    }
  }

  /** The record of a consistent member lists start offsets, itself included. */
  lemma {:induction false} MemberRecord<T>(vs: Vectors<T>, n: string, k: nat)
    requires StoresValid(vs) && Consistent(vs) && n in vs && k in vs[n].entries
    ensures var e := vs[n].entries[k];
            && e.index == k && e.entry.vector == n
            && Link(n, k) in e.entry.linked && NoDuplicates(e.entry.linked)
            && AtStarts(vs, e.entry.linked)
            && forall l :: l in e.entry.linked ==> Resolves(vs, l, e.entry.linked)
  {
    var e := vs[n].entries[k];
    assert MemberOk(vs, n, k);
    forall l | l in e.entry.linked ensures l.vector in vs && l.index in vs[l.vector].entries {
      assert Resolves(vs, l, e.entry.linked);
    }
  }

  /** Two members sharing a coordinate share their whole record: groups
      are disjoint. */
  lemma {:induction false} RecordsShared<T>(vs: Vectors<T>, n: string, k: nat, l: Link, linked: seq<Link>)
    requires StoresValid(vs) && Consistent(vs) && n in vs && k in vs[n].entries
    requires l in vs[n].entries[k].entry.linked && Resolves(vs, l, linked)
    ensures vs[n].entries[k].entry.linked == linked
  {
    MemberRecord(vs, n, k);
  }

  // ---------------------------------------------------------------------
  // Group insert

  /** A successful group insert stores every item at its own coordinate,
      under its own vector's name, with the full ordered list of the call's
      coordinates as its record; entries stored before are untouched and the
      total count grows by the number of items. An empty group changes
      nothing. */
  lemma {:induction false} InsertGroupEffect<T>(vs: Vectors<T>, items: seq<Insertion<T>>)
    requires StoresValid(vs) && InsertGroup(vs, items).Ok?
    ensures var vs' := InsertGroup(vs, items).value;
            && vs'.Keys == vs.Keys
            && (forall i :: 0 <= i < |items| ==>
                  Lookup(vs', items[i].vector, items[i].index)
                    == Some(BumpyEntry(MultiEntry(items[i].vector, items[i].data, References(items)),
                                       items[i].index, items[i].size)))
            && (forall n, k :: n in vs && k in vs[n].entries ==>
                  k in vs'[n].entries && vs'[n].entries[k] == vs[n].entries[k])
            && TotalLen(vs') == TotalLen(vs) + |items|
            && (items == [] ==> vs' == vs)
  {
    var refs := References(items);
    var vs' := InsertGroup(vs, items).value;
    InsertEachExtends(vs, vs, [], items, refs);
    InsertEachPlaces(vs, items, refs);
    InsertEachLen(vs, items, refs);
    forall n, k | n in vs && k in vs[n].entries
      ensures k in vs'[n].entries && vs'[n].entries[k] == vs[n].entries[k]
    {
      assert StoreExtends(n, vs[n], vs'[n], [] + refs);
    }
  }

  /** Group insert succeeds exactly when its items are insertable. */
  lemma {:induction false} InsertGroupOkIff<T>(vs: Vectors<T>, items: seq<Insertion<T>>)
    requires StoresValid(vs)
    ensures InsertGroup(vs, items).Ok? <==> Insertable(vs, items)
  {
    if InsertGroup(vs, items).Ok? {
      SucceedsInsertable(vs, items, References(items));
    }
    if Insertable(vs, items) {
      InsertableSucceeds(vs, items, References(items));
    }
  }

  /** Group insert keeps the registry consistent. */
  lemma {:induction false} InsertGroupConsistent<T>(vs: Vectors<T>, items: seq<Insertion<T>>)
    requires StoresValid(vs) && Consistent(vs) && InsertGroup(vs, items).Ok?
    ensures Consistent(InsertGroup(vs, items).value)
  {
    var refs := References(items);
    var vs' := InsertGroup(vs, items).value;
    InsertEachExtends(vs, vs, [], items, refs);
    assert [] + refs == refs;
    assert Extends(vs, vs', refs);
    InsertedPlaced(vs, items);
    forall n, k ensures MemberOk(vs', n, k) {
      if n in vs' && k in vs'[n].entries {
        assert StoreExtends(n, vs[n], vs'[n], refs);
        if k in vs[n].entries {
          OldMemberStays(vs, vs', refs, n, k);
        } else {
          NewMemberConsistent(vs, vs', refs, n, k);
        }
      }
    }
  }

  /** A member stored before the insert is still a consistent member. */
  lemma {:induction false} OldMemberStays<T>(vs: Vectors<T>, vs': Vectors<T>, refs: seq<Link>, n: string, k: nat)
    requires StoresValid(vs) && Consistent(vs) && Extends(vs, vs', refs)
    requires n in vs && k in vs[n].entries
    ensures n in vs' && k in vs'[n].entries && MemberConsistent(vs', n, vs'[n].entries[k])
  {
    assert StoreExtends(n, vs[n], vs'[n], refs);
    var e := vs[n].entries[k];
    assert vs'[n].entries[k] == e;
    assert MemberOk(vs, n, k);
    forall l | l in e.entry.linked ensures Resolves(vs', l, e.entry.linked) {
      assert Resolves(vs, l, e.entry.linked);
      assert StoreExtends(l.vector, vs[l.vector], vs'[l.vector], refs);
    }
  }

  /** Every coordinate of `refs` is the start offset of an entry carrying
      `refs` as its record and its own vector's name. */
  ghost predicate GroupPlaced<T>(vs: Vectors<T>, refs: seq<Link>) {
    forall l :: l in refs ==>
      Resolves(vs, l, refs) && vs[l.vector].entries[l.index].entry.vector == l.vector
  }

  /** The items of a successful group insert are placed as a group. */
  lemma {:induction false} InsertedPlaced<T>(vs: Vectors<T>, items: seq<Insertion<T>>)
    requires StoresValid(vs) && InsertGroup(vs, items).Ok?
    ensures GroupPlaced(InsertGroup(vs, items).value, References(items))
  {
    var refs := References(items);
    var vs' := InsertGroup(vs, items).value;
    InsertEachPlaces(vs, items, refs);
    forall l | l in refs
      ensures Resolves(vs', l, refs) && vs'[l.vector].entries[l.index].entry.vector == l.vector
    {
      var j :| 0 <= j < |refs| && refs[j] == l;
      assert vs'[items[j].vector].entries[items[j].index] == Wrap(items[j], refs);
    }
  }

  /** A member added by the insert is a consistent member. */
  lemma {:induction false} NewMemberConsistent<T>(vs: Vectors<T>, vs': Vectors<T>, refs: seq<Link>, n: string, k: nat)
    requires StoresValid(vs') && Extends(vs, vs', refs) && GroupPlaced(vs', refs)
    requires n in vs' && k in vs'[n].entries && k !in vs[n].entries
    ensures MemberConsistent(vs', n, vs'[n].entries[k])
  {
    assert StoreExtends(n, vs[n], vs'[n], refs);
    assert Link(n, k) in refs;
    assert Resolves(vs', Link(n, k), refs);
    assert vs'[n].entries[k].index == k;
  }

  /** Removing a group right after inserting it gives back the registry as
      it was before the insert, and returns the items in insertion order. */
  lemma {:induction false} InsertThenRemove<T>(vs: Vectors<T>, items: seq<Insertion<T>>)
    requires StoresValid(vs) && InsertGroup(vs, items).Ok?
    ensures var vs' := InsertGroup(vs, items).value;
            var refs := References(items);
            && RemoveLinks(vs', refs).0 == vs
            && |RemoveLinks(vs', refs).1| == |items|
            && (forall i :: 0 <= i < |items| ==> RemoveLinks(vs', refs).1[i] == Some(Wrap(items[i], refs)))
            && (forall i :: 0 <= i < |items| ==> GroupOf(vs', items[i].vector, items[i].index) == Ok(refs))
  {
    var refs := References(items);
    var vs' := InsertGroup(vs, items).value;
    InsertEachExtends(vs, vs, [], items, refs);
    assert [] + refs == refs;
    RollbackRestores(vs, vs', refs);
    InsertEachPlaces(vs, items, refs);
    assert AtStarts(vs', refs) by {
      forall l | l in refs ensures l.vector in vs' && l.index in vs'[l.vector].entries {
        assert AddedAt(vs, vs', l);
      }
    }
    RemoveLinksAtStarts(vs', refs);
  }

  // ---------------------------------------------------------------------
  // Removal of a group

  /** Removing along distinct start offsets returns exactly the entries
      stored there, in order, and removes exactly those. */
  lemma {:induction false} RemoveLinksAtStarts<T>(vs: Vectors<T>, links: seq<Link>)
    requires StoresValid(vs) && NoDuplicates(links) && AtStarts(vs, links)
    ensures var r := RemoveLinks(vs, links);
            && (forall i :: 0 <= i < |links| ==>
                  r.1[i] == Some(vs[links[i].vector].entries[links[i].index]))
            && (forall n :: n in vs ==> r.0[n].maxSize == vs[n].maxSize)
            && (forall n, k :: n in vs ==>
                  (k in r.0[n].entries <==> k in vs[n].entries && Link(n, k) !in links))
            && (forall n, k :: n in vs && k in r.0[n].entries ==> r.0[n].entries[k] == vs[n].entries[k])
  {
    RemovedSlots(vs, links);
    RemainingStores(vs, links);
  }

  /** The first removal, at a start offset, takes out exactly that entry,
      and the remaining coordinates are still start offsets afterwards. */
  lemma {:induction false} RemoveFirst<T>(vs: Vectors<T>, links: seq<Link>)
    requires StoresValid(vs) && NoDuplicates(links) && AtStarts(vs, links) && links != []
    ensures var l := links[0];
            var removed := vs[l.vector].Remove(l.index);
            && l.vector in vs && l.index in vs[l.vector].entries
            && removed.1 == Some(vs[l.vector].entries[l.index])
            && removed.0.entries.Keys == vs[l.vector].entries.Keys - {l.index}
            && NoDuplicates(links[1..]) && l !in links[1..]
            && AtStarts(vs[l.vector := removed.0], links[1..])
            && RemoveLinks(vs, links)
                 == (RemoveLinks(vs[l.vector := removed.0], links[1..]).0,
                     [removed.1] + RemoveLinks(vs[l.vector := removed.0], links[1..]).1)
  {
    var l := links[0];
    assert l in links;
    var removed := vs[l.vector].Remove(l.index);
    var vs1 := vs[l.vector := removed.0];
    NoDuplicatesTail(links);
    forall x | x in links[1..] ensures x.vector in vs1 && x.index in vs1[x.vector].entries {
      assert x in links && x != l;
    }
  }

  /** A coordinate of a non-empty list is its head or in its tail. */
  lemma {:induction false} HeadOrTail(links: seq<Link>)
    requires links != []
    ensures forall x :: x in links <==> x == links[0] || x in links[1..]
  {
    assert links == [links[0]] + links[1..];
  }

  /** The slots removal returns along distinct start offsets. */
  lemma {:induction false} RemovedSlots<T>(vs: Vectors<T>, links: seq<Link>)
    requires StoresValid(vs) && NoDuplicates(links) && AtStarts(vs, links)
    ensures forall i :: 0 <= i < |links| ==>
              RemoveLinks(vs, links).1[i] == Some(vs[links[i].vector].entries[links[i].index])
    decreases |links|
  {
    if links != [] {
      RemoveFirst(vs, links);
      var l := links[0];
      var removed := vs[l.vector].Remove(l.index);
      var vs1 := vs[l.vector := removed.0];
      var rest := links[1..];
      RemovedSlots(vs1, rest);
      var r1 := RemoveLinks(vs1, rest).1;
      var slots := RemoveLinks(vs, links).1;
      assert slots == [removed.1] + r1;
      forall i | 0 <= i < |links|
        ensures slots[i] == Some(vs[links[i].vector].entries[links[i].index])
      {
        if i > 0 {
          var x := links[i];
          assert x == rest[i - 1];
          assert x != l by {
            assert NoDuplicates(links);
          }
          assert slots[i] == r1[i - 1];
          RemoveKeepsOther(vs, l, x);
        }
      }
    }
  }

  /** Removing the entry starting at `l` keeps the entry starting at any
      other coordinate `x`. */
  lemma {:induction false} RemoveKeepsOther<T>(vs: Vectors<T>, l: Link, x: Link)
    requires StoresValid(vs) && l.vector in vs && l.index in vs[l.vector].entries
    requires x.vector in vs && x.index in vs[x.vector].entries && x != l
    ensures var vs1 := vs[l.vector := vs[l.vector].Remove(l.index).0];
            x.index in vs1[x.vector].entries && vs1[x.vector].entries[x.index] == vs[x.vector].entries[x.index]
  {
    var removed := vs[l.vector].Remove(l.index);
    if x.vector == l.vector {
      assert removed.1 == Some(vs[l.vector].entries[l.index]);
      assert x.index in removed.0.entries;
    }
  }

  /** The stores removal leaves along distinct start offsets. */
  lemma {:induction false} RemainingStores<T>(vs: Vectors<T>, links: seq<Link>)
    requires StoresValid(vs) && NoDuplicates(links) && AtStarts(vs, links)
    ensures var r := RemoveLinks(vs, links).0;
            && (forall n :: n in vs ==> r[n].maxSize == vs[n].maxSize)
            && (forall n, k :: n in vs ==>
                  (k in r[n].entries <==> k in vs[n].entries && Link(n, k) !in links))
            && (forall n, k :: n in vs && k in r[n].entries ==> r[n].entries[k] == vs[n].entries[k])
    decreases |links|
  {
    if links != [] {
      RemoveFirst(vs, links);
      var l := links[0];
      var removed := vs[l.vector].Remove(l.index);
      var vs1 := vs[l.vector := removed.0];
      var rest := links[1..];
      RemainingStores(vs1, rest);
      assert RemoveLinks(vs, links).0 == RemoveLinks(vs1, rest).0;
      RemoveKeys(vs, l);
      HeadOrTail(links);
    }
  }

  /** Removing the entry starting at `l` takes out exactly that start
      offset. */
  lemma {:induction false} RemoveKeys<T>(vs: Vectors<T>, l: Link)
    requires StoresValid(vs) && l.vector in vs && l.index in vs[l.vector].entries
    ensures var vs1 := vs[l.vector := vs[l.vector].Remove(l.index).0];
            forall n, k :: n in vs ==> (k in vs1[n].entries <==> k in vs[n].entries && Link(n, k) != l)
  {
    var removed := vs[l.vector].Remove(l.index);
    var vs1 := vs[l.vector := removed.0];
    assert removed.1 == Some(vs[l.vector].entries[l.index]);
    forall n, k | n in vs
      ensures k in vs1[n].entries <==> k in vs[n].entries && Link(n, k) != l
    {
      if n == l.vector {
        assert vs1[n] == removed.0;
        assert k in removed.0.entries.Keys <==> k in vs[n].entries.Keys - {l.index};
      } else {
        assert vs1[n] == vs[n];
      }
    }
  }

  /** `CountSome` of a sequence of `Some` slots is its length. */
  lemma {:induction false} CountSomeAll<X>(s: seq<Option<X>>)
    requires forall i :: 0 <= i < |s| ==> s[i].Some?
    ensures CountSome(s) == |s|
    decreases |s|
  {
    if s != [] {
      CountSomeAll(s[1..]);
    }
  }

  /** On a consistent registry, removing the group of any member returns
      exactly its members, in record order, lowers the total count by the
      group's size, leaves every other entry as it was and keeps the
      registry consistent. */
  lemma {:induction false} RemoveGroupConsistent<T>(vs: Vectors<T>, vector: string, index: nat)
    requires StoresValid(vs) && Consistent(vs)
    requires GroupOf(vs, vector, index).Ok?
    ensures var links := GroupOf(vs, vector, index).value;
            var r := RemoveLinks(vs, links);
            && (forall n :: n in r.0 <==> n in vs) && |r.1| == |links|
            && (forall i :: 0 <= i < |links| ==>
                  && links[i].vector in vs && links[i].index in vs[links[i].vector].entries
                  && r.1[i] == Some(vs[links[i].vector].entries[links[i].index])
                  && r.1[i].value.entry.linked == links)
            && CountSome(r.1) == |links|
            && TotalLen(r.0) == TotalLen(vs) - |links|
            && (forall n, k :: n in vs && k in vs[n].entries && Link(n, k) !in links ==>
                  k in r.0[n].entries && r.0[n].entries[k] == vs[n].entries[k])
            && Consistent(r.0)
  {
    var e := vs[vector].Get(index).value;
    assert GroupOf(vs, vector, index) == Ok(vs[vector].entries[e.index].entry.linked);
    RemoveRecordSlots(vs, vector, e.index);
    RemoveRecordKeeps(vs, vector, e.index);
  }

  /** The slots and the count of removing the record of the member at
      start offset `k` of vector `n`. */
  lemma {:induction false} RemoveRecordSlots<T>(vs: Vectors<T>, n: string, k: nat)
    requires StoresValid(vs) && Consistent(vs) && n in vs && k in vs[n].entries
    ensures var links := vs[n].entries[k].entry.linked;
            var r := RemoveLinks(vs, links);
            && (forall m :: m in r.0 <==> m in vs) && |r.1| == |links|
            && (forall i :: 0 <= i < |links| ==>
                  && links[i].vector in vs && links[i].index in vs[links[i].vector].entries
                  && r.1[i] == Some(vs[links[i].vector].entries[links[i].index])
                  && r.1[i].value.entry.linked == links)
            && CountSome(r.1) == |links|
            && TotalLen(r.0) == TotalLen(vs) - |links|
  {
    var links := vs[n].entries[k].entry.linked;
    MemberRecord(vs, n, k);
    RemovedSlots(vs, links);
    var r := RemoveLinks(vs, links);
    forall i | 0 <= i < |links|
      ensures && links[i].vector in vs && links[i].index in vs[links[i].vector].entries
              && r.1[i] == Some(vs[links[i].vector].entries[links[i].index])
              && r.1[i].value.entry.linked == links
    {
      assert links[i] in links;
      assert Resolves(vs, links[i], links);
    }
    CountSomeAll(r.1);
    RemoveLinksLen(vs, links);
  }

  /** Removing the record of the member at start offset `k` of vector `n`
      leaves every entry outside it in place and the registry consistent. */
  lemma {:induction false} RemoveRecordKeeps<T>(vs: Vectors<T>, n: string, k: nat)
    requires StoresValid(vs) && Consistent(vs) && n in vs && k in vs[n].entries
    ensures var links := vs[n].entries[k].entry.linked;
            var r := RemoveLinks(vs, links).0;
            && (forall m, j :: m in vs && j in vs[m].entries && Link(m, j) !in links ==>
                  m in r && j in r[m].entries && r[m].entries[j] == vs[m].entries[j])
            && Consistent(r)
  {
    var links := vs[n].entries[k].entry.linked;
    MemberRecord(vs, n, k);
    RemainingStores(vs, links);
    var r := RemoveLinks(vs, links).0;
    forall m, j ensures MemberOk(r, m, j) {
      if m in r && j in r[m].entries {
        RemainingMember(vs, r, links, m, j);
      }
    }
  }

  /** A member outside the removed group keeps a record that points only
      outside the group, so it stays a consistent member. */
  lemma {:induction false} RemainingMember<T>(vs: Vectors<T>, vs': Vectors<T>, links: seq<Link>, n: string, k: nat)
    requires StoresValid(vs) && Consistent(vs)
    requires forall l :: l in links ==> Resolves(vs, l, links)
    requires vs'.Keys == vs.Keys
    requires forall m, j :: m in vs ==>
               (j in vs'[m].entries <==> j in vs[m].entries && Link(m, j) !in links)
    requires forall m, j :: m in vs && j in vs'[m].entries ==> vs'[m].entries[j] == vs[m].entries[j]
    requires n in vs' && k in vs'[n].entries
    ensures MemberConsistent(vs', n, vs'[n].entries[k])
  {
    var x := vs[n].entries[k];
    MemberRecord(vs, n, k);
    assert Link(n, k) !in links;
    forall l | l in x.entry.linked ensures Resolves(vs', l, x.entry.linked) {
      assert Resolves(vs, l, x.entry.linked);
      assert l !in links by {
        assert l in links ==> Resolves(vs, l, links);
      }
    }
  }

  /** On a consistent registry every slot of `get_entries` is the member at
      that coordinate, and it carries the same record. */
  lemma {:induction false} GetGroupConsistent<T>(vs: Vectors<T>, vector: string, index: nat)
    requires StoresValid(vs) && Consistent(vs)
    requires GroupOf(vs, vector, index).Ok?
    ensures var links := GroupOf(vs, vector, index).value;
            forall i :: 0 <= i < |links| ==>
              && Lookup(vs, links[i].vector, links[i].index).Some?
              && Lookup(vs, links[i].vector, links[i].index).value.entry.linked == links
              && Lookup(vs, links[i].vector, links[i].index).value.entry.vector == links[i].vector
              && Lookup(vs, links[i].vector, links[i].index).value.index == links[i].index
  {
    var e := vs[vector].Get(index).value;
    var links := e.entry.linked;
    MemberRecord(vs, vector, e.index);
    forall i | 0 <= i < |links|
      ensures && Lookup(vs, links[i].vector, links[i].index).Some?
              && Lookup(vs, links[i].vector, links[i].index).value.entry.linked == links
              && Lookup(vs, links[i].vector, links[i].index).value.entry.vector == links[i].vector
              && Lookup(vs, links[i].vector, links[i].index).value.index == links[i].index
    {
      var l := links[i];
      assert l in links && Resolves(vs, l, links);
      MemberRecord(vs, l.vector, l.index);
    }
  }

  // ---------------------------------------------------------------------
  // Unlink

  /** What relinking does to each entry, when every coordinate is a start. */
  lemma {:induction false} RelinkAt<T>(vs: Vectors<T>, links: seq<Link>, linked: seq<Link>, n: string, k: nat)
    requires StoresValid(vs) && AtStarts(vs, links) && LinksResolve(vs, links)
    requires n in vs && k in vs[n].entries
    ensures var r := Relink(vs, links, linked);
            n in r && k in r[n].entries &&
            r[n].entries[k] == if Link(n, k) in links then WithLinked(vs[n].entries[k], linked)
                               else vs[n].entries[k]
    decreases |links|
  {
    if links != [] {
      var l := links[0];
      assert l in links;
      var v := vs[l.vector];
      var e := v.Get(l.index).value;
      var vs1 := vs[l.vector := v.Replace(l.index, e.entry.(linked := linked))];
      assert SameLayouts(vs, vs1);
      ResolveSameLayouts(vs, vs1, links[1..]);
      assert AtStarts(vs1, links[1..]) by {
        forall x | x in links[1..] ensures x.vector in vs1 && x.index in vs1[x.vector].entries {
          assert x in links;
        }
      }
      RelinkAt(vs1, links[1..], linked, n, k);
      assert Relink(vs, links, linked) == Relink(vs1, links[1..], linked);
      var x := vs[n].entries[k];
      assert vs1[n].entries[k] == if Link(n, k) == l then WithLinked(x, linked) else x by {
        if n == l.vector {
          assert v.Get(l.index) == Some(v.entries[l.index]);
        }
      }
      HeadOrTail(links);
    }
  }

  /** `vs'` is `vs` with the entry at coordinate `self` given the record
      `[self]`, every entry at a coordinate of `rest` given the record
      `rest`, and nothing else changed: same vectors, same spans, same data
      and vector names. */
  ghost predicate Detached<T>(vs: Vectors<T>, vs': Vectors<T>, self: Link, rest: seq<Link>) {
    && SameLayouts(vs, vs')
    && forall n, k :: n in vs && k in vs[n].entries ==>
         && n in vs' && k in vs'[n].entries
         && vs'[n].entries[k] ==
              WithLinked(vs[n].entries[k],
                         if Link(n, k) == self then [self]
                         else if Link(n, k) in rest then rest
                         else vs[n].entries[k].entry.linked)
  }

  /** Unlink on a consistent registry: the detached entry's record becomes
      the singleton of its own start coordinate, every other member of its
      old group gets the old record with that coordinate filtered out, and
      nothing else changes: no data, vector name, offset or size, and no
      other entry. */
  lemma {:induction false} UnlinkEffect<T>(vs: Vectors<T>, vector: string, index: nat)
    requires StoresValid(vs) && Consistent(vs)
    requires vector in vs && vs[vector].Get(index).Some?
    ensures UnlinkResolves(vs, vector, index) && Unlink(vs, vector, index).Ok?
    ensures var e := vs[vector].Get(index).value;
            var self := Link(vector, e.index);
            var rest := Without(e.entry.linked, self);
            Detached(vs, Unlink(vs, vector, index).value, self, rest)
  {
    var e := vs[vector].Get(index).value;
    MemberRecord(vs, vector, e.index);
    StartsResolve(vs, e.entry.linked);
    UnlinkOk(vs, vector, index);
    DetachEffect(vs, vector, index, e);
  }

  /** The successful case of unlink, on a member whose record lists start
      offsets. */
  lemma {:induction false} DetachEffect<T>(vs: Vectors<T>, vector: string, index: nat, e: Entry<T>)
    requires StoresValid(vs) && vector in vs && vs[vector].Get(index) == Some(e)
    requires AtStarts(vs, e.entry.linked) && LinksResolve(vs, e.entry.linked)
    ensures Detached(vs, Detach(vs, vector, index, e), Link(vector, e.index),
                     Without(e.entry.linked, Link(vector, e.index)))
  {
    var self := Link(vector, e.index);
    var rest := Without(e.entry.linked, self);
    var vs1 := vs[vector := vs[vector].Replace(index, e.entry.(linked := [self]))];
    DetachFirst(vs, vector, index, e);
    var vs' := Detach(vs, vector, index, e);
    forall n, k | n in vs && k in vs[n].entries
      ensures && n in vs' && k in vs'[n].entries
              && vs'[n].entries[k] ==
                   WithLinked(vs[n].entries[k],
                              if Link(n, k) == self then [self]
                              else if Link(n, k) in rest then rest
                              else vs[n].entries[k].entry.linked)
    {
      RelinkAt(vs1, rest, rest, n, k);
      assert vs[n].entries[k].index == k;
    }
  }

  /** The first step of unlink, giving the detached entry its singleton
      record, keeps the other coordinates of the old record at start
      offsets, and the rest of unlink relinks those. */
  lemma {:induction false} DetachFirst<T>(vs: Vectors<T>, vector: string, index: nat, e: Entry<T>)
    requires StoresValid(vs) && vector in vs && vs[vector].Get(index) == Some(e)
    requires AtStarts(vs, e.entry.linked) && LinksResolve(vs, e.entry.linked)
    ensures var self := Link(vector, e.index);
            var rest := Without(e.entry.linked, self);
            var vs1 := vs[vector := vs[vector].Replace(index, e.entry.(linked := [self]))];
            && StoresValid(vs1) && AtStarts(vs1, rest) && LinksResolve(vs1, rest)
            && Detach(vs, vector, index, e) == Relink(vs1, rest, rest)
  {
    var self := Link(vector, e.index);
    var rest := Without(e.entry.linked, self);
    var vs1 := vs[vector := vs[vector].Replace(index, e.entry.(linked := [self]))];
    assert SameLayouts(vs, vs1);
    forall x | x in rest ensures x.vector in vs1 && x.index in vs1[x.vector].entries {
      assert x in e.entry.linked;
    }
    ResolveSameLayouts(vs, vs1, rest);
  }

  /** Unlink keeps a consistent registry consistent: the detached entry
      forms a group of its own and the other members form a group of one
      fewer. */
  lemma {:induction false} UnlinkConsistent<T>(vs: Vectors<T>, vector: string, index: nat)
    requires StoresValid(vs) && Consistent(vs)
    requires vector in vs && vs[vector].Get(index).Some?
    ensures UnlinkResolves(vs, vector, index) && Unlink(vs, vector, index).Ok?
    ensures Consistent(Unlink(vs, vector, index).value)
  {
    UnlinkEffect(vs, vector, index);
    var e := vs[vector].Get(index).value;
    var self := Link(vector, e.index);
    var vs' := Unlink(vs, vector, index).value;
    MemberRecord(vs, vector, e.index);
    forall n, k ensures MemberOk(vs', n, k) {
      if n in vs' && k in vs'[n].entries {
        DetachedMember(vs, vs', e.entry.linked, self, n, k);
      }
    }
  }

  /** Each entry of the registry left by unlink is a consistent member:
      the detached entry of itself, the other members of the old group of
      the remaining ones, and every other entry of its unchanged group. */
  lemma {:induction false} DetachedMember<T>(vs: Vectors<T>, vs': Vectors<T>, group: seq<Link>, self: Link, n: string, k: nat)
    requires StoresValid(vs) && Consistent(vs)
    requires self in group && NoDuplicates(group) && forall l :: l in group ==> Resolves(vs, l, group)
    requires Detached(vs, vs', self, Without(group, self))
    requires n in vs' && k in vs'[n].entries
    ensures MemberConsistent(vs', n, vs'[n].entries[k])
  {
    MemberRecord(vs, n, k);
    if Link(n, k) == self {
      assert vs'[n].entries[k] == WithLinked(vs[n].entries[k], [self]);
    } else if Link(n, k) in Without(group, self) {
      DetachedRest(vs, vs', group, self, n, k);
    } else {
      DetachedOther(vs, vs', group, self, n, k);
    }
  }

  /** A surviving member of the old group is a member of the group of the
      remaining coordinates. */
  lemma {:induction false} DetachedRest<T>(vs: Vectors<T>, vs': Vectors<T>, group: seq<Link>, self: Link, n: string, k: nat)
    requires StoresValid(vs) && Consistent(vs)
    requires self in group && NoDuplicates(group) && forall l :: l in group ==> Resolves(vs, l, group)
    requires Detached(vs, vs', self, Without(group, self))
    requires n in vs && k in vs[n].entries && Link(n, k) != self && Link(n, k) in Without(group, self)
    ensures n in vs' && k in vs'[n].entries && MemberConsistent(vs', n, vs'[n].entries[k])
  {
    var rest := Without(group, self);
    MemberRecord(vs, n, k);
    assert vs'[n].entries[k] == WithLinked(vs[n].entries[k], rest);
    forall l | l in rest ensures Resolves(vs', l, rest) {
      assert l in group && l != self;
      assert Resolves(vs, l, group);
    }
  }

  /** An entry outside the old group keeps its record, and no coordinate of
      that record was touched. */
  lemma {:induction false} DetachedOther<T>(vs: Vectors<T>, vs': Vectors<T>, group: seq<Link>, self: Link, n: string, k: nat)
    requires StoresValid(vs) && Consistent(vs)
    requires self in group && NoDuplicates(group) && forall l :: l in group ==> Resolves(vs, l, group)
    requires Detached(vs, vs', self, Without(group, self))
    requires n in vs && k in vs[n].entries && Link(n, k) != self && Link(n, k) !in Without(group, self)
    ensures n in vs' && k in vs'[n].entries && MemberConsistent(vs', n, vs'[n].entries[k])
  {
    var rest := Without(group, self);
    MemberRecord(vs, n, k);
    var x := vs[n].entries[k];
    assert vs'[n].entries[k] == x;
    forall l | l in x.entry.linked ensures Resolves(vs', l, x.entry.linked) {
      assert Resolves(vs, l, x.entry.linked);
      assert l !in group by {
        assert l in group ==> Resolves(vs, l, group);
      }
    }
  }

  /** After unlinking a member of an N-entry group, removing the group at
      the detached entry removes exactly one entry, and removing it at any
      surviving member removes exactly N - 1. */
  lemma {:induction false} UnlinkThenRemove<T>(vs: Vectors<T>, vector: string, index: nat)
    requires StoresValid(vs) && Consistent(vs)
    requires vector in vs && vs[vector].Get(index).Some?
    ensures UnlinkResolves(vs, vector, index) && Unlink(vs, vector, index).Ok?
    ensures var e := vs[vector].Get(index).value;
            var vs' := Unlink(vs, vector, index).value;
            && GroupOf(vs', vector, index) == Ok([Link(vector, e.index)])
            && CountSome(RemoveLinks(vs', [Link(vector, e.index)]).1) == 1
            && forall l :: l in e.entry.linked && l != Link(vector, e.index) ==>
                 && GroupOf(vs', l.vector, l.index).Ok?
                 && |GroupOf(vs', l.vector, l.index).value| == |e.entry.linked| - 1
                 && CountSome(RemoveLinks(vs', GroupOf(vs', l.vector, l.index).value).1)
                      == |e.entry.linked| - 1
  {
    UnlinkEffect(vs, vector, index);
    UnlinkConsistent(vs, vector, index);
    var e := vs[vector].Get(index).value;
    var group := e.entry.linked;
    var self := Link(vector, e.index);
    var rest := Without(group, self);
    var vs' := Unlink(vs, vector, index).value;
    MemberRecord(vs, vector, e.index);
    assert vs'[vector].entries[e.index] == WithLinked(e, [self]);
    GroupAtCovered(vs', vector, index, e.index);
    forall l | l in group && l != self
      ensures && GroupOf(vs', l.vector, l.index).Ok?
              && |GroupOf(vs', l.vector, l.index).value| == |group| - 1
              && CountSome(RemoveLinks(vs', GroupOf(vs', l.vector, l.index).value).1) == |group| - 1
    {
      SiblingAfterUnlink(vs, vs', group, self, l);
    }
  }

  /** After unlink, the group of a surviving member is the old record
      without the detached coordinate, one entry shorter. */
  lemma {:induction false} SiblingAfterUnlink<T>(vs: Vectors<T>, vs': Vectors<T>, group: seq<Link>, self: Link, l: Link)
    requires StoresValid(vs) && StoresValid(vs') && Consistent(vs')
    requires self in group && NoDuplicates(group) && Resolves(vs, l, group) && l in group && l != self
    requires Detached(vs, vs', self, Without(group, self))
    ensures GroupOf(vs', l.vector, l.index) == Ok(Without(group, self))
    ensures |Without(group, self)| == |group| - 1
    ensures CountSome(RemoveLinks(vs', Without(group, self)).1) == |group| - 1
  {
    var rest := Without(group, self);
    assert l in rest;
    assert vs[l.vector].Valid();
    assert vs'[l.vector].entries[l.index] == WithLinked(vs[l.vector].entries[l.index], rest);
    GroupAtCovered(vs', l.vector, l.index, l.index);
  }

  /** The group of any offset covered by a stored entry is that entry's
      record, and removing it removes one entry per coordinate. */
  lemma {:induction false} GroupAtCovered<T>(vs: Vectors<T>, n: string, i: nat, k: nat)
    requires StoresValid(vs) && Consistent(vs)
    requires n in vs && k in vs[n].entries && Covers(vs[n].entries[k], i)
    ensures GroupOf(vs, n, i) == Ok(vs[n].entries[k].entry.linked)
    ensures CountSome(RemoveLinks(vs, vs[n].entries[k].entry.linked).1) == |vs[n].entries[k].entry.linked|
  {
    vs[n].CoveredOnce(i, k, vs[n].Get(i).value.index);
    RemoveGroupConsistent(vs, n, i);
  }

  // ---------------------------------------------------------------------
  // Registry lifecycle

  /** Adding an empty vector under a new name keeps the registry consistent. */
  lemma {:induction false} CreateConsistent<T>(vs: Vectors<T>, name: string, maxSize: nat)
    requires Consistent(vs) && name !in vs
    ensures Consistent(vs[name := New(maxSize)])
  {
    var vs' := vs[name := New(maxSize)];
    forall n, k ensures MemberOk(vs', n, k) {
      if n in vs' && k in vs'[n].entries {
        assert n != name && MemberOk(vs, n, k);
        forall l | l in vs[n].entries[k].entry.linked ensures Resolves(vs', l, vs[n].entries[k].entry.linked) {
          assert Resolves(vs, l, vs[n].entries[k].entry.linked);
        }
      }
    }
  }

  /** Dropping an empty vector keeps the registry consistent: no record can
      point into it. */
  lemma {:induction false} DestroyConsistent<T>(vs: Vectors<T>, name: string)
    requires Consistent(vs) && name in vs && vs[name].Len() == 0
    ensures Consistent(vs - {name})
  {
    var vs' := vs - {name};
    assert vs[name].entries == map[];
    forall n, k ensures MemberOk(vs', n, k) {
      if n in vs' && k in vs'[n].entries {
        assert MemberOk(vs, n, k);
        forall l | l in vs[n].entries[k].entry.linked ensures Resolves(vs', l, vs[n].entries[k].entry.linked) {
          assert Resolves(vs, l, vs[n].entries[k].entry.linked);
        }
      }
    }
  }
}
