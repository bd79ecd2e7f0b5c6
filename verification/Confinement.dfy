/**
 Where capabilities can be: what was granted at the start bounds what anyone holds or maps
 later, and a capability that can only be handed on never has two holders.
 */
module Confinement {
  import opened Wrappers
  import opened HandleTables
  import opened Capabilities
  import opened Sequences
  import opened Tasks
  import opened TaskTree
  import Scheduling
  import Pages

  /** A capability given out at the start, and to whom. */
  datatype Grant = Grant(cap: Capability, holder: TaskId)

  function Holds(s: System, id: TaskId, handle: nat): Option<Held> {
    if id in s.tasks then s.tasks[id].caps.Get(handle) else None
  }

  /** `id` is `above`, or was made by a descendant of it. */
  ghost predicate Descends(ancestry: map<TaskId, TaskId>, id: TaskId, above: TaskId)
    decreases id
  {
    id == above || (id in ancestry && ancestry[id] < id && Descends(ancestry, ancestry[id], above))
  }

  /** The holder has it from the first holder, by way of parents and children, cut down at most. */
  ghost predicate Rightful(s: System, grants: seq<Grant>, id: TaskId, held: Held) {
    && held.origin < |grants|
    && Derives(held.cap, grants[held.origin].cap)
    && Descends(s.ancestry, id, grants[held.origin].holder)
  }

  ghost predicate AllRightful(s: System, grants: seq<Grant>) {
    forall id, h | Holds(s, id, h).Some? :: Rightful(s, grants, id, Holds(s, id, h).value)
  }

  /** No two handles in the system stand for the same linear capability. */
  ghost predicate OneHolder(s: System) {
    forall id, h, id', h' | Holds(s, id, h).Some? && Holds(s, id', h').Some?
                            && Holds(s, id, h).value.origin == Holds(s, id', h').value.origin
                            && Linear(Holds(s, id, h).value.cap) ::
      id == id' && h == h'
  }

  ghost predicate Tables(s: System) {
    forall id | id in s.tasks :: s.tasks[id].caps.Valid()
  }

  /** Who made whom is on record: every task but the first was made by an older one. */
  ghost predicate Recorded(s: System) {
    && INIT < s.nextPid
    && (INIT in s.tasks ==> s.tasks[INIT].parent == None)
    && (forall id | id in s.tasks && id != INIT ::
          id in s.ancestry && s.tasks[id].parent == Some(s.ancestry[id]))
    && forall id | id in s.ancestry :: s.ancestry[id] < id < s.nextPid
  }

  ghost predicate Confined(s: System, grants: seq<Grant>) {
    AllRightful(s, grants) && OneHolder(s) && Tables(s) && Recorded(s)
  }

  /** Every physical range that was mapped lies in one that was granted. */
  ghost predicate Bounded(s: System, grants: seq<Grant>) {
    forall i | 0 <= i < |s.physical| :: Granted(grants, s.physical[i].0, s.physical[i].1)
  }

  ghost predicate Granted(grants: seq<Grant>, from: nat, to: nat) {
    exists g :: 0 <= g < |grants| && grants[g].cap.ctype.MapPhysical?
                && grants[g].cap.ctype.from <= from && to <= grants[g].cap.ctype.to
  }

  // ---- Changing what one handle stands for

  /** Handles only go away, except that `handle` of `id` may now stand for `held`. */
  ghost predicate OnlyNew(s: System, s': System, id: TaskId, handle: nat, held: Option<Held>) {
    forall x, h :: Holds(s', x, h) == Holds(s, x, h) || Holds(s', x, h) == None
                   || (x == id && h == handle && Holds(s', x, h) == held)
  }

  lemma {:induction false} StaysConfined(s: System, s': System, grants: seq<Grant>, id: TaskId, handle: nat,
                                         held: Option<Held>)
    requires Confined(s, grants) && Tables(s') && Recorded(s')
    requires OnlyNew(s, s', id, handle, held)
    requires forall x, above | Descends(s.ancestry, x, above) :: Descends(s'.ancestry, x, above)
    requires held.Some? ==> Rightful(s', grants, id, held.value)
    requires held.Some? && Linear(held.value.cap) ==>
               forall x, h | Holds(s', x, h).Some? && Holds(s', x, h).value.origin == held.value.origin ::
                 x == id && h == handle
    ensures Confined(s', grants)
  {
    hide Holds, Derives, Descends;
    forall x, h | Holds(s', x, h).Some? ensures Rightful(s', grants, x, Holds(s', x, h).value) {
      if Holds(s', x, h) == Holds(s, x, h) {
        assert Rightful(s, grants, x, Holds(s, x, h).value);
      }
    }
    forall x, h, x', h' | Holds(s', x, h).Some? && Holds(s', x', h').Some?
                          && Holds(s', x, h).value.origin == Holds(s', x', h').value.origin
                          && Linear(Holds(s', x, h).value.cap)
      ensures x == x' && h == h'
    {
      SamePerms(s', grants, x, h, x', h');
    }
  }

  /** Handles with the same origin carry the same permissions. */
  lemma {:induction false} SamePerms(s: System, grants: seq<Grant>, x: TaskId, h: nat, x': TaskId, h': nat)
    requires AllRightful(s, grants)
    requires Holds(s, x, h).Some? && Holds(s, x', h').Some?
    requires Holds(s, x, h).value.origin == Holds(s, x', h').value.origin
    ensures Holds(s, x, h).value.cap.perms == Holds(s, x', h').value.cap.perms
  {
  }

  lemma {:induction false} SetCapsHolds(s: System, id: TaskId, caps: Table<Held>, x: TaskId, h: nat)
    requires id in s.tasks
    ensures Holds(SetCaps(s, id, caps), x, h) == if x == id then caps.Get(h) else Holds(s, x, h)
  {
  }

  lemma {:induction false} SetCapsKeeps(s: System, id: TaskId, caps: Table<Held>)
    requires id in s.tasks && Tables(s) && Recorded(s) && caps.Valid()
    ensures Tables(SetCaps(s, id, caps)) && Recorded(SetCaps(s, id, caps))
  {
  }

  /** Taking a handle from a table. */
  lemma {:induction false} DeleteStaysConfined(s: System, grants: seq<Grant>, id: TaskId, handle: nat)
    requires Confined(s, grants) && id in s.tasks
    ensures Confined(SetCaps(s, id, s.tasks[id].caps.Delete(handle)), grants)
    ensures Holds(SetCaps(s, id, s.tasks[id].caps.Delete(handle)), id, handle) == None
  {
    hide Derives, Descends, Table<Held>.Delete, Table<Held>.Get, OneHolder, AllRightful, Table<Held>.Valid;
    var caps := s.tasks[id].caps;
    var s' := SetCaps(s, id, caps.Delete(handle));
    forall x, h
      ensures Holds(s', x, h) == Holds(s, x, h) || Holds(s', x, h) == None
    {
      SetCapsHolds(s, id, caps.Delete(handle), x, h);
      DeleteGet(caps, handle, h);
    }
    DeleteGet(caps, handle, handle);
    SetCapsKeeps(s, id, caps.Delete(handle));
    StaysConfined(s, s', grants, id, handle, None);
  }

  /** Adding a rightful capability that no one else holds, or that more than one may hold. */
  lemma {:induction false} InsertStaysConfined(s: System, grants: seq<Grant>, id: TaskId, held: Held, room: bool)
    requires Confined(s, grants) && id in s.tasks && Rightful(s, grants, id, held)
    requires Linear(held.cap) ==> forall x, h | Holds(s, x, h).Some? :: Holds(s, x, h).value.origin != held.origin
    ensures Confined(SetCaps(s, id, InsertOrFail(s.tasks[id].caps, held, room).0), grants)
  {
    hide Derives, Descends, Table<Held>.Insert, Table<Held>.Get, OneHolder, AllRightful, Table<Held>.Valid, Holds;
    var caps := s.tasks[id].caps;
    var caps' := InsertOrFail(caps, held, room).0;
    var s' := SetCaps(s, id, caps');
    InsertedOrFailed(caps, held, room);
    forall x, h
      ensures Holds(s', x, h) == if room && x == id && h == caps.next then Some(held) else Holds(s, x, h)
    {
      SetCapsHolds(s, id, caps', x, h);
      SetCapsHolds(s, id, caps, x, h);
      assert SetCaps(s, id, caps).tasks == s.tasks;
      SameHolds(s, SetCaps(s, id, caps), x, h);
    }
    SetCapsKeeps(s, id, caps');
    StaysConfined(s, s', grants, id, caps.next, if room then Some(held) else None);
  }

  lemma {:induction false} SameHolds(s: System, s': System, x: TaskId, h: nat)
    requires s'.tasks == s.tasks
    ensures Holds(s', x, h) == Holds(s, x, h)
  {
  }

  lemma {:induction false} InsertedOrFailed(caps: Table<Held>, held: Held, room: bool)
    requires caps.Valid()
    ensures InsertOrFail(caps, held, room).0.Valid()
    ensures forall h :: InsertOrFail(caps, held, room).0.Get(h)
                        == if room && h == caps.next then Some(held) else caps.Get(h)
  {
    forall h ensures InsertOrFail(caps, held, room).0.Get(h)
                     == if room && h == caps.next then Some(held) else caps.Get(h) {
      InsertGet(caps, held, h);
    }
  }

  // ---- The steps

  /** Nothing about tables and ancestry differs, except that tasks may have gone. */
  ghost predicate SameTables(s: System, s': System) {
    && s'.ancestry == s.ancestry && s'.nextPid == s.nextPid
    && forall id | id in s'.tasks ::
         id in s.tasks && s'.tasks[id].caps == s.tasks[id].caps && s'.tasks[id].parent == s.tasks[id].parent
  }

  lemma {:induction false} SameTablesStaysConfined(s: System, s': System, grants: seq<Grant>)
    requires Confined(s, grants) && SameTables(s, s')
    ensures Confined(s', grants)
  {
    hide Descends, Derives, Table<Held>.Get, Table<Held>.Valid, OneHolder, AllRightful;
    assert Tables(s') && Recorded(s');
    StaysConfined(s, s', grants, 0, 0, None);
  }

  lemma {:induction false} SwitchSameTables(s: System)
    requires s.current in s.tasks
    ensures SameTables(s, Switch(s))
  {
  }

  lemma {:induction false} CloneStaysConfined(s: System, grants: seq<Grant>, handle: nat, room: bool)
    requires Confined(s, grants) && s.current in s.tasks
    ensures Confined(SetCaps(s, s.current, Clone(s.tasks[s.current].caps, handle, room).0), grants)
  {
    hide Derives, Descends, Table<Held>.Get, Table<Held>.Valid, OneHolder, Tables, Recorded, InsertOrFail;
    var caps := s.tasks[s.current].caps;
    match caps.Get(handle) {
      case None => SameTablesStaysConfined(s, SetCaps(s, s.current, caps), grants);
      case Some(held) =>
        assert Holds(s, s.current, handle) == Some(held);
        if Duplicate in held.cap.perms {
          InsertStaysConfined(s, grants, s.current, held, room);
        } else {
          SameTablesStaysConfined(s, SetCaps(s, s.current, caps), grants);
        }
    }
  }

  lemma {:induction false} RestrictStaysConfined(s: System, grants: seq<Grant>, handle: nat, a: nat, b: nat)
    requires Confined(s, grants) && s.current in s.tasks
    ensures Confined(SetCaps(s, s.current, Restrict(s.tasks[s.current].caps, handle, a, b).0), grants)
  {
    var caps := s.tasks[s.current].caps;
    var (caps', result) := Restrict(caps, handle, a, b);
    if result.Ok? {
      var held := caps.Get(handle).value;
      assert Holds(s, s.current, handle) == Some(held);
      assert Rightful(s, grants, s.current, held);
      ReplaceStaysConfined(s, grants, handle, held.(cap := held.cap.(ctype := MapPhysical(a, b))));
    } else {
      assert caps' == caps;
      SameTablesStaysConfined(s, SetCaps(s, s.current, caps), grants);
    }
  }

  lemma {:induction false} ReplaceStaysConfined(s: System, grants: seq<Grant>, handle: nat, held: Held)
    requires Confined(s, grants) && s.current in s.tasks
    requires Holds(s, s.current, handle).Some? && Rightful(s, grants, s.current, held)
    requires held.origin == Holds(s, s.current, handle).value.origin
    requires held.cap.perms == Holds(s, s.current, handle).value.cap.perms
    ensures Confined(SetCaps(s, s.current, s.tasks[s.current].caps.Replace(handle, held)), grants)
  {
    hide Derives, Descends, Table<Held>.Get, Table<Held>.Valid, Table<Held>.Replace, AllRightful;
    var id, caps := s.current, s.tasks[s.current].caps;
    var s' := SetCaps(s, id, caps.Replace(handle, held));
    forall x, h
      ensures Holds(s', x, h) == if x == id && h == handle then Some(held) else Holds(s, x, h)
    {
      ReplaceGet(caps, handle, held, h);
    }
    ReplaceGet(caps, handle, held, 0);
    SetCapsKeeps(s, id, caps.Replace(handle, held));
    StaysConfined(s, s', grants, id, handle, Some(held));
  }

  lemma {:induction false} GiveStaysConfined(s: System, grants: seq<Grant>, proc: TaskId, held: Held, room: bool)
    requires Confined(s, grants) && Rightful(s, grants, s.current, held)
    requires Linear(held.cap) ==> forall x, h | Holds(s, x, h).Some? :: Holds(s, x, h).value.origin != held.origin
    ensures Confined(GiveTo(s, proc, held, room).s, grants)
  {
    hide Derives, Table<Held>.Get, Table<Held>.Valid, OneHolder, AllRightful, Tables, InsertOrFail;
    if proc in s.tasks && s.tasks[proc].parent == Some(s.current) {
      assert Rightful(s, grants, proc, held);
      InsertStaysConfined(s, grants, proc, held, room);
    }
  }

  lemma {:induction false} ShareTransferStaysConfined(s: System, grants: seq<Grant>, proc: TaskId, handle: nat,
                                                      transfer: bool, room: bool)
    requires s.current in s.tasks && Confined(s, grants)
    ensures Confined(ShareTransfer(s, proc, handle, transfer, room).s, grants)
  {
    hide Derives, Descends, Table<Held>.Get, Table<Held>.Delete, Table<Held>.Valid, Recorded, GiveTo;
    var caps := s.tasks[s.current].caps;
    if proc != 0 && proc != s.current && caps.Get(handle).Some? {
      var held := caps.Get(handle).value;
      assert Holds(s, s.current, handle) == Some(held);
      if transfer {
        var s1 := SetCaps(s, s.current, caps.Delete(handle));
        DeleteStaysConfined(s, grants, s.current, handle);
        if Linear(held.cap) {
          forall x, h | Holds(s1, x, h).Some? ensures Holds(s1, x, h).value.origin != held.origin {
            SetCapsHolds(s, s.current, caps.Delete(handle), x, h);
            DeleteGet(caps, handle, h);
            assert Holds(s, x, h) == Holds(s1, x, h);
          }
        }
        assert Rightful(s1, grants, s.current, held);
        GiveStaysConfined(s1, grants, proc, held, room);
      } else if Shareable in held.cap.perms {
        GiveStaysConfined(s, grants, proc, held, room);
      }
    }
  }

  lemma {:induction false} DescendsMore(anc: map<TaskId, TaskId>, id: TaskId, parent: TaskId, x: TaskId,
                                        above: TaskId)
    requires id !in anc && Descends(anc, x, above)
    ensures Descends(anc[id := parent], x, above)
    decreases x
  {
    if x != above {
      DescendsMore(anc, id, parent, anc[x], above);
    }
  }

  lemma {:induction false} SpawnStaysConfined(s: System, grants: seq<Grant>)
    requires s.current in s.tasks && Confined(s, grants)
    ensures Confined(SpawnChild(s).s, grants)
  {
    hide Derives, Descends, OneHolder, AllRightful, Table<Held>.Valid;
    var s' := SpawnChild(s).s;
    if s' != s {
      forall x, h ensures Holds(s', x, h) == Holds(s, x, h) {
        EmptyTable(h);
      }
      EmptyTable(0);
      forall x, above | Descends(s.ancestry, x, above) ensures Descends(s'.ancestry, x, above) {
        DescendsMore(s.ancestry, s.nextPid, s.current, x, above);
      }
      StaysConfined(s, s', grants, 0, 0, None);
    }
  }

  lemma {:induction false} EmptyTable(h: nat)
    ensures Table<Held>.Table(0, []).Valid() && Table<Held>.Table(0, []).Get(h) == None
  {
  }

  /** Every step keeps capabilities confined. */
  lemma {:induction false} StepStaysConfined(s: System, op: Op, grants: seq<Grant>)
    requires Enabled(s, op) && Confined(s, grants)
    ensures Confined(Step(s, op), grants)
  {
    hide Confined, Switch, Clone, Restrict, SpawnChild, ShareTransfer, SetCaps;
    var task := s.tasks[s.current];
    match op
    case Yield => SwitchSameTables(s); SameTablesStaysConfined(s, Switch(s), grants);
    case Idle => SwitchSameTables(s); SameTablesStaysConfined(s, Switch(s), grants);
    case Exit =>
      var s1 := s.(tasks := s.tasks[s.current := task.(state := Dying)]);
      SwitchSameTables(s1);
      SameTablesStaysConfined(s, Switch(s1), grants);
    case Spawn => SpawnStaysConfined(s, grants);
    case Exec(proc, fd, program) => SameTablesStaysConfined(s, Step(s, op), grants);
    case CapClone(handle, room) => CloneStaysConfined(s, grants, handle, room);
    case CapRestrict(handle, a, b) => RestrictStaysConfined(s, grants, handle, a, b);
    case CapDrop(handle) =>
      if task.caps.Get(handle).Some? {
        DeleteStaysConfined(s, grants, s.current, handle);
      } else {
        UnchangedCaps(s, grants);
      }
    case CapShare(proc, handle, room) => ShareTransferStaysConfined(s, grants, proc, handle, false, room);
    case CapTransfer(proc, handle, room) => ShareTransferStaysConfined(s, grants, proc, handle, true, room);
    case MapPhys(from, to) => SameTablesStaysConfined(s, Step(s, op), grants);
    case FileOpen => SameTablesStaysConfined(s, Step(s, op), grants);
    case FileClose(fd) => SameTablesStaysConfined(s, Step(s, op), grants);
  }

  lemma {:induction false} UnchangedCaps(s: System, grants: seq<Grant>)
    requires Confined(s, grants) && s.current in s.tasks
    ensures Confined(SetCaps(s, s.current, s.tasks[s.current].caps), grants)
  {
    SameTablesStaysConfined(s, SetCaps(s, s.current, s.tasks[s.current].caps), grants);
  }

  /** What a capability of the current task covers was granted. */
  lemma {:induction false} CoveredIsGranted(s: System, grants: seq<Grant>, from: nat, to: nat)
    requires Confined(s, grants) && s.current in s.tasks
    requires MayMapPhys(CapsOf(s.tasks[s.current].caps), from, to)
    ensures Granted(grants, from, to)
  {
    var caps := s.tasks[s.current].caps;
    var i :| 0 <= i < |CapsOf(caps)| && Covers(CapsOf(caps)[i].ctype, from, to);
    var held := caps.slots[i].item;
    SlotGet(caps, i);
    assert Holds(s, s.current, caps.slots[i].handle) == Some(held);
    assert Rightful(s, grants, s.current, held);
    assert Covers(grants[held.origin].cap.ctype, from, to);
  }

  /** What a step maps was granted. */
  lemma {:induction false} StepStaysBounded(s: System, op: Op, grants: seq<Grant>)
    requires Enabled(s, op) && Confined(s, grants) && Bounded(s, grants)
    ensures Bounded(Step(s, op), grants)
  {
    if op.MapPhys? && Step(s, op) != s {
      CoveredIsGranted(s, grants, op.from, op.to);
    } else {
      SamePhysical(s, op);
    }
  }

  lemma {:induction false} SamePhysical(s: System, op: Op)
    requires Enabled(s, op)
    ensures op.MapPhys? || Step(s, op).physical == s.physical
  {
  }

  /**
   Over every run: a capability anyone holds is one that was granted, cut down at most, and
   came to its holder from the first one through parents and their children; one that is
   linear has a single holder; and all that was mapped had been granted.
   */
  lemma {:induction false} ConfinedForever(s: System, ops: seq<Op>, grants: seq<Grant>)
    requires Scheduling.Legal(s, ops) && Confined(s, grants) && Bounded(s, grants)
    ensures var s' := Scheduling.Run(s, ops); Confined(s', grants) && Bounded(s', grants)
    decreases |ops|
  {
    hide Confined, Bounded, Step;
    if ops != [] {
      StepStaysConfined(s, ops[0], grants);
      StepStaysBounded(s, ops[0], grants);
      ConfinedForever(Step(s, ops[0]), ops[1..], grants);
    }
  }

  // ---- Transfers and handles that are gone

  /** Every byte of a frame lies in a physical range that was granted. */
  ghost predicate FrameGranted(grants: seq<Grant>, frame: nat) {
    exists g :: 0 <= g < |grants| && grants[g].cap.ctype.MapPhysical?
                && grants[g].cap.ctype.from <= frame * Pages.PAGE_SIZE
                && frame * Pages.PAGE_SIZE + Pages.PAGE_SIZE - 1 <= grants[g].cap.ctype.to
  }

  /**
   In every reachable state: the frames that the current task can get mapped, those of a
   range that one of its capabilities covers, were granted at the start.
   */
  lemma {:induction false} FramesAreGranted(s: System, ops: seq<Op>, grants: seq<Grant>, from: nat, len: nat,
                                            frames: seq<nat>)
    requires Scheduling.Legal(s, ops) && Confined(s, grants) && Bounded(s, grants)
    requires var t := Scheduling.Run(s, ops);
             && t.current in t.tasks && len > 0
             && MayMapPhys(CapsOf(t.tasks[t.current].caps), from, from + len - 1)
    requires forall k | 0 <= k < |frames| ::
               from <= frames[k] * Pages.PAGE_SIZE && (frames[k] + 1) * Pages.PAGE_SIZE <= from + len
    ensures forall k | 0 <= k < |frames| :: FrameGranted(grants, frames[k])
  {
    var t := Scheduling.Run(s, ops);
    ConfinedForever(s, ops, grants);
    var to := from + len - 1;
    CoveredIsGranted(t, grants, from, to);
    var g :| 0 <= g < |grants| && grants[g].cap.ctype.MapPhysical?
             && grants[g].cap.ctype.from <= from && to <= grants[g].cap.ctype.to;
    forall k | 0 <= k < |frames| ensures FrameGranted(grants, frames[k]) {
      assert grants[g].cap.ctype.from <= frames[k] * Pages.PAGE_SIZE;
    }
  }

  /**
   A transfer takes the capability from the giver even when it fails; when it succeeds the
   target has it under a new handle, and nothing else changes hands.
   */
  lemma {:induction false} TransferMoves(s: System, proc: TaskId, handle: nat, room: bool, x: TaskId, h: nat)
    requires Tables(s) && proc != 0 && proc != s.current && Holds(s, s.current, handle).Some?
    ensures var reply := ShareTransfer(s, proc, handle, true, room);
            && (reply.result.Ok? <==> room && proc in s.tasks && s.tasks[proc].parent == Some(s.current))
            && Holds(reply.s, x, h)
               == if x == s.current && h == handle then None
                  else if reply.result.Ok? && x == proc && h == s.tasks[proc].caps.next
                  then Holds(s, s.current, handle)
                  else Holds(s, x, h)
  {
    hide Table<Held>.Get, Table<Held>.Insert, Table<Held>.Delete, Table<Held>.Valid;
    var caps := s.tasks[s.current].caps;
    var held := caps.Get(handle).value;
    DeleteGet(caps, handle, h);
    if proc in s.tasks {
      InsertedOrFailed(s.tasks[proc].caps, held, room);
    }
  }

  /** A handle of a task that is past its use; the task may have gone as well. */
  ghost predicate Gone(s: System, id: TaskId, handle: nat) {
    && id < s.nextPid
    && (id in s.tasks ==> handle < s.tasks[id].caps.next && s.tasks[id].caps.Get(handle) == None)
  }

  lemma {:induction false} StepKeepsGone(s: System, op: Op, id: TaskId, handle: nat)
    requires Enabled(s, op) && Tables(s) && Gone(s, id, handle)
    ensures Gone(Step(s, op), id, handle)
  {
    hide Table<Held>.Get, Table<Held>.Insert, Table<Held>.Delete, Table<Held>.Replace, Table<Held>.Valid, CapsOf;
    forall t: Table<Held>, held | t.Valid() && handle < t.next && t.Get(handle) == None
      ensures t.Insert(held).Get(handle) == None && t.Insert(held).next == t.next + 1
    {
      InsertGet(t, held, handle);
      NextAfterInsert(t, held);
    }
    forall t: Table<Held>, h, held | t.Valid() && t.Get(handle) == None
      ensures t.Replace(h, held).Get(handle) == None && t.Replace(h, held).next == t.next
    {
      ReplaceGet(t, h, held, handle);
      ReplaceIsUpdate(t, h, held);
    }
    forall t: Table<Held>, h | t.Valid() && t.Get(handle) == None
      ensures t.Delete(h).Valid() && t.Delete(h).Get(handle) == None && t.Delete(h).next == t.next
    {
      DeleteGet(t, h, handle);
      DeletedSlots(t, h);
    }
    forall t: Table<Held> ensures t.Reserve().Get(handle) == t.Get(handle) {
      SlotsDecide(t, t.Reserve(), handle);
    }
  }

  lemma {:induction false} NextAfterInsert(t: Table<Held>, held: Held)
    ensures t.Insert(held).next == t.next + 1
  {
  }

  lemma {:induction false} SlotsDecide(t: Table<Held>, t': Table<Held>, handle: nat)
    requires t'.slots == t.slots
    ensures t'.Get(handle) == t.Get(handle)
  {
  }

  /** A capability handle that no longer resolves never does again, for that task. */
  lemma {:induction false} HandleGoneForever(s: System, ops: seq<Op>, grants: seq<Grant>, id: TaskId, handle: nat)
    requires Scheduling.Legal(s, ops) && Confined(s, grants) && Gone(s, id, handle)
    ensures Holds(Scheduling.Run(s, ops), id, handle) == None
    decreases |ops|
  {
    hide Step, AllRightful, OneHolder, Recorded, Table<Held>.Get;
    if ops != [] {
      StepStaysConfined(s, ops[0], grants);
      StepKeepsGone(s, ops[0], id, handle);
      HandleGoneForever(Step(s, ops[0]), ops[1..], grants, id, handle);
    }
  }

  // ---- The start

  function Slots(caps: seq<Capability>): (slots: seq<Slot<Held>>)
    ensures |slots| == |caps|
    ensures forall i | 0 <= i < |caps| :: slots[i] == Slot(i, Held(caps[i], i))
    decreases |caps|
  {
    if caps == [] then []
    else Slots(caps[..|caps| - 1]) + [Slot(|caps| - 1, Held(caps[|caps| - 1], |caps| - 1))]
  }

  /** Task 1 idles; task 2, the init process, waits, and is given some capabilities. */
  function Boot(caps: seq<Capability>): System {
    var init := Task(None, [2], Sleepy, Table(0, []), NO_FILES, 0);
    var initproc := NewTask(INIT).(caps := Table(|caps|, Slots(caps)));
    System(map[INIT := init, 2 := initproc], [2], INIT, 3, map[2 := INIT], [])
  }

  ghost function Grants(caps: seq<Capability>): (grants: seq<Grant>)
    ensures |grants| == |caps|
    ensures forall i | 0 <= i < |caps| :: grants[i] == Grant(caps[i], 2)
    decreases |caps|
  {
    if caps == [] then [] else Grants(caps[..|caps| - 1]) + [Grant(caps[|caps| - 1], 2)]
  }

  /** The start meets every invariant, if no granted physical range is empty. */
  lemma {:induction false} BootIsConfined(caps: seq<Capability>)
    requires forall i | 0 <= i < |caps| && caps[i].ctype.MapPhysical? :: caps[i].ctype.from <= caps[i].ctype.to
    ensures Inv(Boot(caps)) && Confined(Boot(caps), Grants(caps)) && Bounded(Boot(caps), Grants(caps))
  {
    var s := Boot(caps);
    assert Listed(s, INIT) && Younger(s, INIT) && Listed(s, 2) && Younger(s, 2);
    EmptyTable(0);
    forall id, h: nat | Holds(s, id, h).Some?
      ensures id == 2 && h < |caps| && Holds(s, id, h) == Some(Held(caps[h], h))
    {
      EmptyTable(h);
    }
  }
}
