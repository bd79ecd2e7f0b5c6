/**
 Tables of handles: the capabilities and the open files of a task. A table is a list that
 is searched from the front; new handles come from a counter.
 */
module HandleTables {
  import opened Wrappers

  datatype Slot<T> = Slot(handle: nat, item: T)

  datatype Table<T> = Table(next: nat, slots: seq<Slot<T>>) {

    /** The position of the first slot with a handle, or the number of slots. */
    function Position(handle: nat): (i: nat)
      ensures i <= |slots|
      ensures i < |slots| ==> slots[i].handle == handle
      ensures forall j | 0 <= j < i :: slots[j].handle != handle
    {
      PositionFrom(slots, handle, 0)
    }

    function Get(handle: nat): Option<T> {
      var i := Position(handle);
      if i < |slots| then Some(slots[i].item) else None
    }

    /** Takes a handle from the counter, without using it. */
    function Reserve(): Table<T> {
      this.(next := next + 1)
    }

    /** Takes a handle from the counter for a new last slot. */
    function Insert(item: T): Table<T> {
      Table(next + 1, slots + [Slot(next, item)])
    }

    function Delete(handle: nat): Table<T> {
      var i := Position(handle);
      if i < |slots| then this.(slots := slots[..i] + slots[i + 1..]) else this
    }

    /** Changes what a handle stands for. */
    function Replace(handle: nat, item: T): Table<T> {
      var i := Position(handle);
      if i < |slots| then this.(slots := slots[i := Slot(handle, item)]) else this
    }

    /** Handles are in increasing order, and below the counter. */
    ghost predicate Valid() {
      && (forall i, j | 0 <= i < j < |slots| :: slots[i].handle < slots[j].handle)
      && forall i | 0 <= i < |slots| :: slots[i].handle < next
    }

    ghost function Map(): map<nat, T> {
      map h | h in Handles() :: slots[Position(h)].item
    }

    ghost function Handles(): (s: set<nat>)
      ensures forall h | h in s :: Position(h) < |slots|
    {
      set i | 0 <= i < |slots| :: slots[i].handle
    }
  }

  function PositionFrom<T>(slots: seq<Slot<T>>, handle: nat, from: nat): (i: nat)
    requires from <= |slots|
    ensures from <= i <= |slots|
    ensures i < |slots| ==> slots[i].handle == handle
    ensures forall j | from <= j < i :: slots[j].handle != handle
    decreases |slots| - from
  {
    if from == |slots| || slots[from].handle == handle then from else PositionFrom(slots, handle, from + 1)
  }

  /** Looking up a handle by going through the slots is looking it up in the map. */
  lemma {:induction false} GetIsLookup<T>(t: Table<T>, handle: nat)
    ensures t.Get(handle) == if handle in t.Map() then Some(t.Map()[handle]) else None
  {
  }

  ghost predicate Gives<T>(t: Table<T>, m: map<nat, T>) {
    forall h :: t.Get(h) == if h in m then Some(m[h]) else None
  }

  lemma {:induction false} GivesIsMap<T>(t: Table<T>, m: map<nat, T>)
    requires Gives(t, m)
    ensures t.Map() == m
  {
  }

  /** A handle that is at a position is there only. */
  lemma {:induction false} SlotGet<T>(t: Table<T>, i: nat)
    requires t.Valid() && i < |t.slots|
    ensures t.Get(t.slots[i].handle) == Some(t.slots[i].item)
  {
  }

  lemma {:induction false} InsertGet<T>(t: Table<T>, item: T, h: nat)
    requires t.Valid()
    ensures t.Insert(item).Get(h) == if h == t.next then Some(item) else t.Get(h)
  {
    var t' := t.Insert(item);
    if h == t.next {
      SlotGet(t', |t.slots|);
    } else if t.Position(h) < |t.slots| {
      assert t'.slots[t.Position(h)] == t.slots[t.Position(h)];
      SlotGet(t', t.Position(h));
    } else {
      assert forall i | 0 <= i < |t'.slots| :: t'.slots[i].handle != h;
    }
  }

  lemma {:induction false} DeletedSlots<T>(t: Table<T>, handle: nat)
    requires t.Valid()
    ensures var t', k := t.Delete(handle), t.Position(handle);
            && t'.Valid() && t'.next == t.next
            && (k == |t.slots| ==> t' == t)
            && (k < |t.slots| ==> |t'.slots| == |t.slots| - 1)
            && forall i | 0 <= i < |t'.slots| :: t'.slots[i] == t.slots[if i < k then i else i + 1]
  {
  }

  lemma {:induction false} DeleteGet<T>(t: Table<T>, handle: nat, h: nat)
    requires t.Valid()
    ensures t.Delete(handle).Valid()
    ensures t.Delete(handle).Get(h) == if h == handle then None else t.Get(h)
  {
    var t', k, i := t.Delete(handle), t.Position(handle), t.Position(h);
    DeletedSlots(t, handle);
    hide Table<T>.Delete, PositionFrom;
    if k < |t.slots| {
      if h != handle && i < |t.slots| {
        var j := if i < k then i else i - 1;
        assert t'.slots[j] == t.slots[i];
        SlotGet(t', j);
      } else {
        forall j | 0 <= j < |t'.slots| ensures t'.slots[j].handle != h {
          var j0 := if j < k then j else j + 1;
          assert t'.slots[j] == t.slots[j0] && t.slots[j0].handle != h;
        }
        NoSlotGet(t', h);
      }
    }
  }

  lemma {:induction false} NoSlotGet<T>(t: Table<T>, h: nat)
    requires forall i | 0 <= i < |t.slots| :: t.slots[i].handle != h
    ensures t.Get(h) == None
  {
  }

  lemma {:induction false} ReplaceGet<T>(t: Table<T>, handle: nat, item: T, h: nat)
    requires t.Valid()
    ensures t.Replace(handle, item).Valid()
    ensures t.Replace(handle, item).Get(h) == if h == handle && t.Get(h).Some? then Some(item) else t.Get(h)
  {
    var t' := t.Replace(handle, item);
    assert forall i | 0 <= i < |t'.slots| :: t'.slots[i].handle == t.slots[i].handle;
    if t.Position(h) < |t.slots| {
      SlotGet(t', t.Position(h));
    }
  }

  /** A new handle was not in the table; the other handles keep their items. */
  lemma {:induction false} InsertIsUpdate<T>(t: Table<T>, item: T)
    requires t.Valid()
    ensures t.Insert(item).Valid() && t.Get(t.next) == None
    ensures t.Insert(item).Map() == t.Map()[t.next := item]
  {
    hide Table<T>.Get, Table<T>.Map, Table<T>.Insert;
    forall h ensures t.Insert(item).Get(h)
                     == if h in t.Map()[t.next := item] then Some(t.Map()[t.next := item][h]) else None {
      InsertGet(t, item, h);
      GetIsLookup(t, h);
    }
    GivesIsMap(t.Insert(item), t.Map()[t.next := item]);
    InsertKeepsValid(t, item);
  }

  lemma {:induction false} InsertKeepsValid<T>(t: Table<T>, item: T)
    requires t.Valid()
    ensures t.Insert(item).Valid() && t.Get(t.next) == None
  {
  }

  /** Deleting a handle removes it from the map, and only it. */
  lemma {:induction false} DeleteIsRemoval<T>(t: Table<T>, handle: nat)
    requires t.Valid()
    ensures t.Delete(handle).Valid() && t.Delete(handle).next == t.next
    ensures t.Delete(handle).Map() == t.Map() - {handle}
  {
    hide Table<T>.Get, Table<T>.Map;
    DeleteGet(t, handle, 0);
    forall h ensures t.Delete(handle).Get(h)
                     == if h in t.Map() - {handle} then Some((t.Map() - {handle})[h]) else None {
      DeleteGet(t, handle, h);
      GetIsLookup(t, h);
    }
    GivesIsMap(t.Delete(handle), t.Map() - {handle});
  }

  /** Changing the item of a handle changes the map there, and only there. */
  lemma {:induction false} ReplaceIsUpdate<T>(t: Table<T>, handle: nat, item: T)
    requires t.Valid()
    ensures t.Replace(handle, item).Valid() && t.Replace(handle, item).next == t.next
    ensures t.Replace(handle, item).Map() == if t.Get(handle).Some? then t.Map()[handle := item] else t.Map()
  {
    hide Table<T>.Get, Table<T>.Map;
    var m := if t.Get(handle).Some? then t.Map()[handle := item] else t.Map();
    ReplaceGet(t, handle, item, 0);
    forall h ensures t.Replace(handle, item).Get(h) == if h in m then Some(m[h]) else None {
      ReplaceGet(t, handle, item, h);
      GetIsLookup(t, h);
      GetIsLookup(t, handle);
    }
    GivesIsMap(t.Replace(handle, item), m);
  }

  datatype Change<T> = Insert(item: T) | Reserve | Delete(handle: nat) | Replace(handle: nat, item: T)

  function Apply<T>(t: Table<T>, op: Change<T>): Table<T> {
    match op
    case Insert(item) => t.Insert(item)
    case Reserve => t.Reserve()
    case Delete(handle) => t.Delete(handle)
    case Replace(handle, item) => t.Replace(handle, item)
  }

  function ApplyAll<T>(t: Table<T>, ops: seq<Change<T>>): Table<T>
    decreases |ops|
  {
    if ops == [] then t else ApplyAll(Apply(t, ops[0]), ops[1..])
  }

  lemma {:induction false} ApplyKeepsValid<T>(t: Table<T>, op: Change<T>, h: nat)
    requires t.Valid() && h < t.next && t.Get(h) == None
    ensures Apply(t, op).Valid() && Apply(t, op).next >= t.next
    ensures Apply(t, op).Get(h) == None
  {
    match op
    case Insert(item) => InsertGet(t, item, h);
    case Reserve =>
    case Delete(handle) => DeleteGet(t, handle, h);
    case Replace(handle, item) => ReplaceGet(t, handle, item, h);
  }

  /** A handle that was deleted means nothing ever after. */
  lemma {:induction false} DeletedForever<T>(t: Table<T>, handle: nat, ops: seq<Change<T>>)
    requires t.Valid() && handle < t.next
    ensures ApplyAll(t.Delete(handle), ops).Valid()
    ensures ApplyAll(t.Delete(handle), ops).Get(handle) == None
  {
    DeleteGet(t, handle, handle);
    GoneForever(t.Delete(handle), handle, ops);
  }

  lemma {:induction false} GoneForever<T>(t: Table<T>, handle: nat, ops: seq<Change<T>>)
    requires t.Valid() && handle < t.next && t.Get(handle) == None
    ensures ApplyAll(t, ops).Valid() && ApplyAll(t, ops).Get(handle) == None
    decreases |ops|
  {
    hide Apply, Table<T>.Valid, Table<T>.Get;
    if ops != [] {
      ApplyKeepsValid(t, ops[0], handle);
      GoneForever(Apply(t, ops[0]), handle, ops[1..]);
    }
  }
}
