/**
 The table that gives kernel objects to user space by handle, and grows.
 Source: IOFWUserObjectExporter.cpp.
 */
module ExportLedger {

  datatype Option<T> = None | Some(value: T)

  // One call of addObject: the object and its cleanup function, if any.
  datatype Entry = Entry(obj: nat, cleanup: Option<nat>)

  // The calls of addObject so far, how often the object of each was released and
  // its cleanup function called for it, and the call each live handle is from.
  datatype Ledger = Ledger(added: seq<Entry>, releases: seq<nat>, cleanups: seq<nat>, table: map<nat, nat>) {

    ghost predicate Live(k: nat) {
      exists h :: h in table && table[h] == k
    }

    function CleanupCalls(k: nat): nat
      requires k < |added|
    {
      if added[k].cleanup.Some? then 1 else 0
    }

    // A live object has not been released. One that is not live has been
    // released once, after one call of its cleanup function if it has one.
    ghost predicate Ok() {
      && |releases| == |cleanups| == |added|
      && (forall h :: h in table ==> table[h] < |added|)
      && (forall h, h' :: h in table && h' in table && table[h] == table[h'] ==> h == h')
      && forall k :: 0 <= k < |added| ==>
           releases[k] == (if Live(k) then 0 else 1) && cleanups[k] == (if Live(k) then 0 else CleanupCalls(k))
    }

    function Add(h: nat, e: Entry): Ledger {
      Ledger(added + [e], releases + [0], cleanups + [0], table[h := |added|])
    }

    // The object of handle h is released, after its cleanup function is called.
    function Remove(h: nat): Ledger
      requires h in table && table[h] < |added| == |releases| == |cleanups|
    {
      Finish(h, CleanupCalls(table[h]))
    }

    // The object of handle h is released, and calls cleanup calls are made.
    function Finish(h: nat, calls: nat): Ledger
      requires h in table && table[h] < |added| == |releases| == |cleanups|
    {
      var k := table[h];
      Ledger(added, releases[k := releases[k] + 1], cleanups[k := cleanups[k] + calls], table - {h})
    }

    // The two arrays hold the live entries.
    ghost predicate Matches(objects: seq<Option<nat>>, fns: seq<Option<nat>>) {
      && |objects| == |fns|
      && (forall h :: h in table <==> 1 <= h <= |objects| && objects[h - 1].Some?)
      && forall h :: h in table ==>
           && table[h] < |added|
           && objects[h - 1] == Some(added[table[h]].obj)
           && fns[h - 1] == added[table[h]].cleanup
    }

    lemma MatchesAdd(objects: seq<Option<nat>>, fns: seq<Option<nat>>, i: nat, e: Entry)
      requires Matches(objects, fns) && i < |objects| && objects[i].None?
      ensures i + 1 !in table && Add(i + 1, e).Matches(objects[i := Some(e.obj)], fns[i := e.cleanup])
    {
    }

    lemma MatchesRemove(objects: seq<Option<nat>>, fns: seq<Option<nat>>, i: nat)
      requires Ok() && Matches(objects, fns) && i < |objects| && objects[i].Some?
      ensures i + 1 in table && table[i + 1] < |added| == |releases| == |cleanups|
      ensures added[table[i + 1]] == Entry(objects[i].value, fns[i])
      ensures Remove(i + 1).Matches(objects[i := None], fns[i := None])
    {
    }

    lemma MatchesLengths(objects: seq<Option<nat>>, fns: seq<Option<nat>>)
      requires Matches(objects, fns)
      ensures |objects| == |fns|
    {
    }

    lemma MatchesSkip(objects: seq<Option<nat>>, fns: seq<Option<nat>>, i: nat)
      requires Matches(objects, fns) && i < |objects| == |fns| && objects[i].None?
      ensures Matches(objects[i := None], fns[i := None])
    {
    }

    lemma MatchesNone(objects: seq<Option<nat>>, fns: seq<Option<nat>>)
      requires Matches(objects, fns) && forall i :: 0 <= i < |objects| ==> objects[i].None?
      ensures table == map[]
    {
    }

    lemma RemoveKeeps(h: nat)
      requires h in table && table[h] < |added| == |releases| == |cleanups|
      ensures Remove(h).added == added
    {
    }

    // A live object has been neither released nor cleaned up.
    lemma NothingYet(h: nat)
      requires Ok() && h in table
      ensures table[h] < |added| == |releases| == |cleanups|
      ensures releases[table[h]] == 0 && cleanups[table[h]] == 0
    {
      assert Live(table[h]);
    }

    lemma MatchesGrow(objects: seq<Option<nat>>, fns: seq<Option<nat>>, n: nat)
      requires Matches(objects, fns)
      ensures Matches(objects + Empty(n), fns + Empty(n))
    {
    }

    lemma AddOk(h: nat, e: Entry)
      requires Ok() && h !in table
      ensures Add(h, e).Ok()
    {
      var now := Add(h, e);
      forall k | 0 <= k < |now.added|
        ensures now.Live(k) <==> k == |added| || Live(k)
      {
        if k == |added| {
          assert now.table[h] == k;
        } else if Live(k) {
          var h' :| h' in table && table[h'] == k;
          assert now.table[h'] == k;
        }
      }
      assert forall k :: 0 <= k < |added| ==> now.CleanupCalls(k) == CleanupCalls(k);
      assert !Live(|added|);
    }

    lemma RemoveOk(h: nat)
      requires Ok() && h in table
      ensures table[h] < |added| == |releases| == |cleanups|
      ensures Remove(h).Ok()
    {
      var now := Remove(h);
      var gone := table[h];
      assert Live(gone);
      forall k | 0 <= k < |added|
        ensures now.Live(k) <==> Live(k) && k != gone
      {
        if Live(k) && k != gone {
          var h' :| h' in table && table[h'] == k;
          assert h' in now.table && now.table[h'] == k;
        }
      }
      assert forall k :: 0 <= k < |added| ==> now.CleanupCalls(k) == CleanupCalls(k);
    }
  }

  function Count(slots: seq<Option<nat>>): (n: nat)
    ensures n <= |slots|
  {
    if slots == [] then 0 else (if slots[0].Some? then 1 else 0) + Count(slots[1..])
  }

  lemma {:induction false} CountUpdate(slots: seq<Option<nat>>, i: nat, v: Option<nat>)
    requires i < |slots|
    ensures Count(slots[i := v])
         == Count(slots) - (if slots[i].Some? then 1 else 0) + (if v.Some? then 1 else 0)
  {
    if i == 0 {
      assert slots[0 := v][1..] == slots[1..];
    } else {
      assert slots[i := v][1..] == slots[1..][i - 1 := v];
      CountUpdate(slots[1..], i - 1, v);
    }
  }

  // A table that is not full has a free slot.
  lemma {:induction false} FreeSlot(slots: seq<Option<nat>>)
    requires forall i :: 0 <= i < |slots| ==> slots[i].Some?
    ensures Count(slots) == |slots|
  {
    if slots != [] {
      FreeSlot(slots[1..]);
    }
  }

  function Empty(n: nat): (slots: seq<Option<nat>>)
    ensures |slots| == n && forall i :: 0 <= i < n ==> slots[i] == None
  {
    seq(n, i => None)
  }

  lemma {:induction false} CountEmpty(n: nat)
    ensures Count(Empty(n)) == 0
  {
    if n > 0 {
      assert Empty(n)[1..] == Empty(n - 1);
      CountEmpty(n - 1);
    }
  }

  lemma {:induction false} CountGrows(slots: seq<Option<nat>>, n: nat)
    ensures Count(slots + Empty(n)) == Count(slots)
    decreases slots
  {
    hide Empty;
    if slots == [] {
      assert slots + Empty(n) == Empty(n);
      CountEmpty(n);
    } else {
      assert (slots + Empty(n))[1..] == slots[1..] + Empty(n);
      CountGrows(slots[1..], n);
    }
  }
}

module ObjectExporter {
  import opened ExportLedger

  const LIMIT: nat := 0xFFFE

  class Exporter {
    var fCapacity: nat
    var fObjectCount: nat
    var fObjects: array?<Option<nat>>
    var fCleanupFunctions: array?<Option<nat>>
    ghost var ledger: Ledger

    ghost predicate Valid()
      reads this, fObjects, fCleanupFunctions
    {
      && ledger.Ok()
      && (fObjects == null <==> fCleanupFunctions == null)
      && (fObjects == null ==> fCapacity == 0 && fObjectCount == 0 && ledger.table == map[])
      && (fObjects != null ==>
            && fObjects != fCleanupFunctions && 8 <= fCapacity <= LIMIT
            && fObjects.Length == fCapacity == fCleanupFunctions.Length
            && fObjectCount == Count(fObjects[..])
            && ledger.Matches(fObjects[..], fCleanupFunctions[..]))
    }

    constructor ()
      ensures Valid() && ledger == Ledger([], [], [], map[])
    {
      fCapacity, fObjectCount, fObjects, fCleanupFunctions := 0, 0, null, null;
      ledger := Ledger([], [], [], map[]);
    }

    // The first arrays.
    method Create()
      requires Valid() && fObjects == null
      modifies this`fCapacity, this`fObjects, this`fCleanupFunctions
      ensures Valid() && fObjects != null && fresh(fObjects) && fresh(fCleanupFunctions)
    {
      hide Count, Empty, Ledger.Ok;
      fCapacity := 8;
      fObjects := new Option<nat>[fCapacity](i => None);
      fCleanupFunctions := new Option<nat>[fCapacity](i => None);
      assert fObjects[..] == Empty(8);
      CountEmpty(8);
    }

    // Arrays half as large again, up to the limit.
    method Grow() returns (ok: bool)
      requires Valid() && fObjects != null
      modifies this`fCapacity, this`fObjects, this`fCleanupFunctions
      ensures Valid() && fObjects != null
      ensures ok <==> old(fCapacity) < LIMIT
      ensures ok ==> fCapacity > old(fCapacity) && fresh(fObjects) && fresh(fCleanupFunctions)
      ensures fCapacity == if old(fCapacity + fCapacity / 2) > LIMIT then LIMIT else old(fCapacity + fCapacity / 2)
      ensures !ok ==> fObjects == old(fObjects) && fCleanupFunctions == old(fCleanupFunctions)
                      && fCapacity == old(fCapacity)
    {
      hide Count, Empty, Ledger.Ok, Ledger.Matches;
      var newCapacity := fCapacity + fCapacity / 2;
      if newCapacity > LIMIT {
        newCapacity := LIMIT;
      }
      if newCapacity == fCapacity {
        return false;
      }
      var newObjects := Copied(fObjects, newCapacity);
      var newCleanupFunctions := Copied(fCleanupFunctions, newCapacity);
      CountGrows(fObjects[..], newCapacity - fCapacity);
      ledger.MatchesGrow(fObjects[..], fCleanupFunctions[..], newCapacity - fCapacity);
      fObjects := newObjects;
      fCleanupFunctions := newCleanupFunctions;
      fCapacity := newCapacity;
      ok := true;
    }

    method Copied(a: array<Option<nat>>, n: nat) returns (b: array<Option<nat>>)
      requires a.Length <= n
      ensures fresh(b) && b[..] == a[..] + Empty(n - a.Length)
    {
      b := new Option<nat>[n](i => None);
      forall i | 0 <= i < a.Length {
        b[i] := a[i];
      }
    }

    // The new handle, or none when the table has reached its limit.
    method AddObject(obj: nat, cleanup: Option<nat>) returns (handle: Option<nat>)
      requires Valid()
      modifies this, fObjects, fCleanupFunctions
      ensures Valid()
      ensures handle.None? <==> old(fObjectCount) == LIMIT
      ensures handle.None? ==> ledger == old(ledger)
      ensures handle.Some? ==>
                && handle.value > 0 && handle.value !in old(ledger.table)
                && (forall h :: 1 <= h < handle.value ==> h in old(ledger.table))
                && ledger.added == old(ledger.added) + [Entry(obj, cleanup)]
                && ledger.releases == old(ledger.releases) + [0] && ledger.cleanups == old(ledger.cleanups) + [0]
                && ledger.table == old(ledger.table)[handle.value := |old(ledger.added)|]
    {
      if fObjects == null {
        Create();
      }
      var ok := true;
      if fObjectCount == fCapacity {
        ok := Grow();
      }
      handle := None;
      if ok {
        handle := Insert(obj, cleanup);
      }
    }

    method Insert(obj: nat, cleanup: Option<nat>) returns (handle: Option<nat>)
      requires Valid() && fObjects != null && fCleanupFunctions != null && fObjectCount < fCapacity
      modifies this`fObjectCount, this`ledger, fObjects, fCleanupFunctions
      ensures Valid()
      ensures handle.Some? && handle.value > 0 && handle.value !in old(ledger.table)
      ensures forall h :: 1 <= h < handle.value ==> h in old(ledger.table)
      ensures ledger == old(ledger).Add(handle.value, Entry(obj, cleanup))
    {
      hide Count, Ledger.Ok, Ledger.Matches;
      LiveHandles();
      var index := 0;
      while index < fCapacity && fObjects[index].Some?
        invariant 0 <= index <= fCapacity
        invariant forall i :: 0 <= i < index ==> fObjects[i].Some?
      {
        index := index + 1;
      }
      if index == fCapacity {
        FreeSlot(fObjects[..]);
        assert false;
      }
      CountUpdate(fObjects[..], index, Some(obj));
      ledger.MatchesAdd(fObjects[..], fCleanupFunctions[..], index, Entry(obj, cleanup));
      ledger.AddOk(index + 1, Entry(obj, cleanup));
      ghost var objects, cleanups := fObjects[..], fCleanupFunctions[..];
      fObjects[index] := Some(obj);
      fCleanupFunctions[index] := cleanup;
      assert fObjects[..] == objects[index := Some(obj)];
      assert fCleanupFunctions[..] == cleanups[index := cleanup];
      fObjectCount := fObjectCount + 1;
      ledger := ledger.Add(index + 1, Entry(obj, cleanup));
      handle := Some(index + 1);
    }

    // Frees a handle; anything that is not a live handle is ignored.
    method RemoveObject(handle: nat)
      requires Valid()
      modifies this, fObjects, fCleanupFunctions
      ensures Valid()
      ensures handle !in old(ledger.table) ==> ledger == old(ledger)
      // one release, one call of the entry's own cleanup function if it has one,
      // and none of anybody else's
      ensures handle in old(ledger.table) ==>
                var k := old(ledger.table)[handle];
                && ledger.table == old(ledger.table) - {handle} && ledger.added == old(ledger.added)
                && k < |ledger.added| == |ledger.releases| == |ledger.cleanups|
                && ledger.releases == old(ledger.releases)[k := 1] && old(ledger.releases)[k] == 0
                && ledger.cleanups == old(ledger.cleanups)[k := if ledger.added[k].cleanup.Some? then 1 else 0]
                && old(ledger.cleanups)[k] == 0
    {
      hide Count, Ledger.Ok, Ledger.Matches;
      if handle in ledger.table {
        ledger.NothingYet(handle);
      }
      LiveHandles();
      if handle == 0 {
        return;
      }
      var index := handle - 1;
      var obj: Option<nat>, cleanupFunction: Option<nat> := None, None;
      if fObjects != null && index < fCapacity {
        if fObjects[index].Some? {
          CountUpdate(fObjects[..], index, None);
          ledger.MatchesRemove(fObjects[..], fCleanupFunctions[..], index);
          ledger.RemoveOk(handle);
          ghost var objects, cleanups := fObjects[..], fCleanupFunctions[..];
          obj := fObjects[index];
          fObjects[index] := None;
          cleanupFunction := fCleanupFunctions[index];
          fCleanupFunctions[index] := None;
          assert fObjects[..] == objects[index := None];
          assert fCleanupFunctions[..] == cleanups[index := None];
          fObjectCount := fObjectCount - 1;
        }
      }
      if obj.Some? {
        CleanUpAndRelease(handle, obj.value, cleanupFunction);
      }
    }

    lemma LiveHandles()
      requires Valid()
      ensures forall h :: h in ledger.table <==>
                fObjects != null && 1 <= h <= fObjects.Length && fObjects[h - 1].Some?
      ensures fObjects != null ==> ledger.Matches(fObjects[..], fCleanupFunctions[..])
    {
    }

    // The cleanup function is called on the object, then the object is released.
    method CleanUpAndRelease(handle: nat, obj: nat, cleanupFunction: Option<nat>)
      requires handle in ledger.table && ledger.table[handle] < |ledger.added| == |ledger.releases| == |ledger.cleanups|
      requires ledger.added[ledger.table[handle]] == Entry(obj, cleanupFunction)
      modifies this`ledger
      ensures ledger == old(ledger).Remove(handle)
    {
      ghost var calls := 0;
      if cleanupFunction.Some? {
        calls := calls + 1;
      }
      ledger := ledger.Finish(handle, calls);
    }

    method LookupObject(handle: nat) returns (obj: Option<nat>)
      requires Valid()
      ensures obj == if handle in ledger.table then Some(ledger.added[ledger.table[handle]].obj) else None
    {
      if handle == 0 {
        return None;
      }
      var index := handle - 1;
      obj := None;
      if fObjects != null && index < fCapacity {
        obj := fObjects[index];
      }
    }

    // The first handle of an object, 0 for one without a handle.
    method LookupHandle(obj: nat) returns (handle: nat)
      requires Valid()
      ensures handle != 0 ==> handle in ledger.table && ledger.added[ledger.table[handle]].obj == obj
      ensures forall h :: h in ledger.table && (handle == 0 || h < handle) ==> ledger.added[ledger.table[h]].obj != obj
    {
      var index := 0;
      while index < fCapacity
        invariant 0 <= index <= fCapacity
        invariant forall i :: 0 <= i < index && fObjects != null ==> fObjects[i] != Some(obj)
      {
        if fObjects[index] == Some(obj) {
          return index + 1;
        }
        index := index + 1;
      }
      handle := 0;
    }

    // Destroys the table; every live object is cleaned up and released.
    method RemoveAllObjects()
      requires Valid()
      modifies this
      ensures Valid() && ledger.table == map[] && ledger.added == old(ledger.added)
      ensures forall k :: 0 <= k < |ledger.added| ==>
                && ledger.releases[k] == 1
                && ledger.cleanups[k] == if ledger.added[k].cleanup.Some? then 1 else 0
    {
      if fObjects != null {
        var objects, cleanupFunctions := fObjects[..], fCleanupFunctions[..];
        fObjects, fCleanupFunctions, fObjectCount, fCapacity := null, null, 0, 0;
        ReleaseAll(objects, cleanupFunctions);
      }
      assert forall k :: 0 <= k < |ledger.added| ==> !ledger.Live(k);
    }

    // The entries from index on; the others are gone.
    static function From(entries: seq<Option<nat>>, index: nat): (rest: seq<Option<nat>>)
      requires index <= |entries|
    {
      Empty(index) + entries[index..]
    }

    method ReleaseAll(objects: seq<Option<nat>>, cleanupFunctions: seq<Option<nat>>)
      requires ledger.Ok() && ledger.Matches(objects, cleanupFunctions)
      modifies this`ledger
      ensures ledger.Ok() && ledger.table == map[] && ledger.added == old(ledger.added)
    {
      hide Ledger.Ok, Ledger.Matches, Ledger.Remove;
      assert |objects| == |cleanupFunctions| by { ledger.MatchesLengths(objects, cleanupFunctions); }
      assert From(objects, 0) == objects && From(cleanupFunctions, 0) == cleanupFunctions;
      var index := 0;
      while index < |objects|
        invariant 0 <= index <= |objects|
        invariant ledger.Ok() && ledger.added == old(ledger.added)
        invariant ledger.Matches(From(objects, index), From(cleanupFunctions, index))
      {
        if objects[index].Some? {
          ledger.MatchesRemove(From(objects, index), From(cleanupFunctions, index), index);
          ledger.RemoveOk(index + 1);
          ledger.RemoveKeeps(index + 1);
          CleanUpAndRelease(index + 1, objects[index].value, cleanupFunctions[index]);
        } else {
          ledger.MatchesSkip(From(objects, index), From(cleanupFunctions, index), index);
        }
        assert From(objects, index)[index := None] == From(objects, index + 1);
        assert From(cleanupFunctions, index)[index := None] == From(cleanupFunctions, index + 1);
        index := index + 1;
      }
      ledger.MatchesNone(From(objects, index), From(cleanupFunctions, index));
    }
  }
}
