/**
 What each system call on tasks, capabilities and files does, told from what the caller
 holds, and what no run of calls can do.
 */
module SystemCalls {
  import opened Wrappers
  import opened HandleTables
  import opened Capabilities
  import opened Sequences
  import opened Tasks
  import opened TaskTree
  import opened Confinement
  import opened Scheduling
  import Descriptors

  // ---- What a task may do

  /** A handle of the task stands for a capability of this kind. */
  ghost predicate HasKind(s: System, id: TaskId, kind: CapabilityType) {
    exists h: nat :: Holds(s, id, h).Some? && Holds(s, id, h).value.cap.ctype == kind
  }

  /** A handle of the task stands for a physical range that goes from `from` or before to `to` or beyond. */
  ghost predicate HasRange(s: System, id: TaskId, from: nat, to: nat) {
    exists h: nat :: Spans(Holds(s, id, h), from, to)
  }

  predicate Spans(held: Option<Held>, from: nat, to: nat) {
    && held.Some? && held.value.cap.ctype.MapPhysical?
    && held.value.cap.ctype.from <= from && to <= held.value.cap.ctype.to
  }

  /** Going through the slots finds what some handle stands for. */
  lemma {:induction false} SlotHolds(s: System, id: TaskId, i: nat)
    requires Tables(s) && id in s.tasks && i < |s.tasks[id].caps.slots|
    ensures var slot := s.tasks[id].caps.slots[i]; Holds(s, id, slot.handle) == Some(slot.item)
  {
    SlotGet(s.tasks[id].caps, i);
  }

  lemma {:induction false} HoldsSlot(s: System, id: TaskId, h: nat) returns (i: nat)
    requires Holds(s, id, h).Some?
    ensures i < |s.tasks[id].caps.slots| && Holds(s, id, h) == Some(s.tasks[id].caps.slots[i].item)
  {
    i := s.tasks[id].caps.Position(h);
  }

  /** The three checks that search the table of the caller. */
  lemma {:induction false} MayExactly(s: System, id: TaskId, from: nat, to: nat)
    requires Tables(s) && id in s.tasks
    ensures MaySpawn(s.tasks[id].caps) <==> HasKind(s, id, ProcessSpawn)
    ensures MayMapVirt(CapsOf(s.tasks[id].caps)) <==> HasKind(s, id, MapVirtualToRam)
    ensures MayMapPhys(CapsOf(s.tasks[id].caps), from, to) <==> HasRange(s, id, from, to)
  {
    hide Holds;
    var t := s.tasks[id].caps;
    var caps := CapsOf(t);
    forall i | 0 <= i < |t.slots|
      ensures caps[i].ctype == ProcessSpawn ==> HasKind(s, id, ProcessSpawn)
      ensures caps[i].ctype == MapVirtualToRam ==> HasKind(s, id, MapVirtualToRam)
      ensures Covers(caps[i].ctype, from, to) ==> HasRange(s, id, from, to)
    {
      SlotHolds(s, id, i);
      assert Covers(caps[i].ctype, from, to) ==> Spans(Holds(s, id, t.slots[i].handle), from, to);
    }
    forall h: nat | Holds(s, id, h).Some?
      ensures exists i :: 0 <= i < |t.slots| && caps[i] == Holds(s, id, h).value.cap
    {
      var i := HoldsSlot(s, id, h);
      assert caps[i] == t.slots[i].item.cap;
    }
  }

  /** A kind of capability that was not granted is held by no one, after any run. */
  lemma {:induction false} NeverGranted(s: System, ops: seq<Op>, grants: seq<Grant>, kind: CapabilityType, id: TaskId)
    requires Legal(s, ops) && Confined(s, grants) && Bounded(s, grants)
    requires !kind.MapPhysical? && forall g | g in grants :: g.cap.ctype != kind
    ensures !HasKind(Run(s, ops), id, kind)
  {
    hide Run, Legal, OneHolder, Tables, Recorded, Bounded, Holds, Descends;
    ConfinedForever(s, ops, grants);
    var t := Run(s, ops);
    forall h: nat | Holds(t, id, h).Some? ensures Holds(t, id, h).value.cap.ctype != kind {
      assert Rightful(t, grants, id, Holds(t, id, h).value);
      assert grants[Holds(t, id, h).value.origin] in grants;
    }
  }

  // ---- The scheduler

  /** A task that yields waits behind all others; task 1 only runs when no one waits, and never waits itself. */
  lemma {:induction false} YieldOutcome(s: System, op: Op)
    requires Inv(s) && Enabled(s, op) && (op.Yield? || op.Idle?)
    ensures Step(s, op)
            == if s.queue == [] then s
               else s.(current := s.queue[0],
                       queue := s.queue[1..] + if s.current == 1 then [] else [s.current])
  {
    hide Family, Started, Runnable;
    if s.queue != [] && s.current != INIT {
      assert (s.queue + [s.current])[1..] == s.queue[1..] + [s.current];
    }
  }

  // ---- Starting tasks

  /** A task may spawn another exactly when it holds a capability for it; else nothing happens. */
  lemma {:induction false} SpawnOutcome(s: System)
    requires Tables(s) && s.current in s.tasks
    ensures SpawnChild(s).result
            == if HasKind(s, s.current, ProcessSpawn) then Ok(s.nextPid) else Err(WrongCapability)
    ensures !HasKind(s, s.current, ProcessSpawn) ==> SpawnChild(s).s == s
  {
    hide HasKind;
    MayExactly(s, s.current, 0, 0);
  }

  /** The child is a new task of its own: it has nothing, waits for a program, and only its parent is told. */
  lemma {:induction false} SpawnedChild(s: System)
    requires Inv(s) && SpawnChild(s).result.Ok?
    ensures var s', id := SpawnChild(s).s, SpawnChild(s).result.value;
            && id !in s.tasks && id !in s.queue
            && s'.tasks.Keys == s.tasks.Keys + {id}
            && s'.tasks[id] == Task(Some(s.current), [], User, Table(0, []), Table(1, []), 0)
            && s'.tasks[s.current] == s.tasks[s.current].(children := s.tasks[s.current].children + [id])
            && (forall x | x in s.tasks && x != s.current :: s'.tasks[x] == s.tasks[x])
            && s' == s.(tasks := s'.tasks, nextPid := id + 1, ancestry := s.ancestry[id := s.current])
  {
  }

  /** A step registers at most one task, the next one, and only if the caller may spawn it. */
  lemma {:induction false} StepRegisters(s: System, op: Op)
    requires Enabled(s, op)
    ensures s.nextPid <= Step(s, op).nextPid
    ensures forall id | id in Step(s, op).tasks :: id in s.tasks || (id == s.nextPid < Step(s, op).nextPid)
    ensures !MaySpawn(s.tasks[s.current].caps) ==> Step(s, op).nextPid == s.nextPid
  {
    hide MaySpawn, Clone, Restrict, Discard, CapsOf, Without, InsertOrFail, Table<Held>.Get, Table<Held>.Delete;
  }

  /** A task that is no longer registered never is again. */
  lemma {:induction false} GoneTask(s: System, ops: seq<Op>, id: TaskId)
    requires Legal(s, ops) && id < s.nextPid && id !in s.tasks
    ensures id !in Run(s, ops).tasks
    decreases |ops|
  {
    hide Step;
    if ops != [] {
      StepRegisters(s, ops[0]);
      GoneTask(Step(s, ops[0]), ops[1..], id);
    }
  }

  /** Where no one was granted the capability to spawn, there are never more tasks than at the start. */
  lemma {:induction false} NobodySpawns(s: System, ops: seq<Op>, grants: seq<Grant>)
    requires Legal(s, ops) && Confined(s, grants) && Bounded(s, grants)
    requires forall g | g in grants :: g.cap.ctype != ProcessSpawn
    ensures Run(s, ops).tasks.Keys <= s.tasks.Keys && Run(s, ops).nextPid == s.nextPid
    decreases |ops|
  {
    hide Step, Bounded, HasKind, AllRightful, OneHolder, Recorded, Tables;
    if ops != [] {
      NeverGranted(s, [], grants, ProcessSpawn, s.current);
      ConfinedTables(s, grants);
      MayExactly(s, s.current, 0, 0);
      StepRegisters(s, ops[0]);
      StepStaysConfined(s, ops[0], grants);
      StepStaysBounded(s, ops[0], grants);
      NobodySpawns(Step(s, ops[0]), ops[1..], grants);
    }
  }

  lemma {:induction false} ConfinedTables(s: System, grants: seq<Grant>)
    requires Confined(s, grants)
    ensures Tables(s)
  {
  }

  /** As the system starts, with an init process that has no capabilities, no other task is ever made. */
  lemma {:induction false} OnlyTwoTasks(ops: seq<Op>)
    requires Legal(Boot([]), ops)
    ensures Run(Boot([]), ops).tasks.Keys <= {1, 2}
  {
    hide Step, Confined, Bounded;
    BootIsConfined([]);
    NobodySpawns(Boot([]), ops, Grants([]));
  }

  /** A task that exits is taken out once the head of the queue runs, or task 1. */
  lemma {:induction false} ExitSwitches(s: System)
    requires Inv(s) && s.current != INIT
    ensures var s' := Step(s, Exit);
            var dying := s.tasks[s.current := s.tasks[s.current].(state := Dying)];
            && s'.tasks == Remove(s.(tasks := dying), s.current).tasks
            && (if s.queue == [] then s'.current == INIT && s'.queue == [] else s.queue == [s'.current] + s'.queue)
            && s' == s.(tasks := s'.tasks, queue := s'.queue, current := s'.current)
  {
    hide Family, Started, Runnable, Without;
    var s1 := s.(tasks := s.tasks[s.current := s.tasks[s.current].(state := Dying)]);
    NextIsRegistered(s1);
  }

  /** A task that exits is gone, from its parent's list too. */
  lemma {:induction false} ExitOutcome(s: System)
    requires Inv(s) && s.current != INIT
    ensures var s' := Step(s, Exit);
            && s'.tasks.Keys == s.tasks.Keys - {s.current}
            && (forall id | id in s'.tasks ::
                  && s'.tasks[id] == s.tasks[id].(children := s'.tasks[id].children)
                  && forall c :: c in s'.tasks[id].children <==> c in s.tasks[id].children && c != s.current)
  {
    hide Step, Registered, Queued, Started, Runnable;
    ExitSwitches(s);
    ExitKeepsInv(s);
    var s' := Step(s, Exit);
    forall id | id in s'.tasks
      ensures forall c :: c in s'.tasks[id].children <==> c in s.tasks[id].children && c != s.current
    {
      assert Listed(s, id) && Listed(s', id);
      assert forall c :: IsChild(s', c, id) <==> IsChild(s, c, id) && c != s.current;
    }
  }

  /** The program of a child that has none yet can be started, from a descriptor that is open; this once. */
  lemma {:induction false} ExecOutcome(s: System, proc: TaskId, fd: nat, program: Program)
    requires Inv(s)
    ensures var r := ExecProgram(s, proc, fd, program);
            var child := proc in s.tasks[s.current].children && s.tasks[proc].entry == 0;
            var open := fd in s.tasks[s.current].files.Map();
            && (r.result.Ok? <==> child && open && program.Image?)
            && (r.result == Err(WrongParameters) <==> proc == 0)
            && (r.result == Err(WrongProcess) <==> proc != 0 && !child)
            && (r.result == Err(WrongDescriptor) <==> child && !open)
            && (r.result == Err(NoMemory) <==> child && open && program.Unreadable?)
            && (r.result == Err(FsNotExecutable) <==> child && open && program.NotElf?)
            && r.s == if !r.result.Ok? then s
                      else s.(tasks := s.tasks[proc := s.tasks[proc].(entry := program.entry)],
                              queue := s.queue + [proc])
  {
    assert Listed(s, s.current);
    assert proc in s.tasks[s.current].children <==> IsChild(s, proc, s.current);
    GetIsLookup(s.tasks[s.current].files, fd);
  }

  lemma {:induction false} ExecOnlyOnce(s: System, proc: TaskId, fd: nat, program: Program, more: Program)
    requires Inv(s) && s.current != INIT && Runs(s, proc, fd, program) && program.entry != 0
    ensures ExecProgram(ExecProgram(s, proc, fd, program).s, proc, fd, more).result == Err(WrongProcess)
  {
  }

  // ---- Capabilities

  /** Only capabilities differ. */
  ghost predicate SameBesidesCaps(s: System, s': System) {
    && s' == s.(tasks := s'.tasks) && s'.tasks.Keys == s.tasks.Keys
    && forall id | id in s.tasks :: s'.tasks[id] == s.tasks[id].(caps := s'.tasks[id].caps)
  }

  /** The next handle of a task is one that it does not use yet. */
  lemma {:induction false} NextIsUnused(s: System, id: TaskId)
    requires Tables(s) && id in s.tasks
    ensures Holds(s, id, s.tasks[id].caps.next) == None
  {
  }

  /** A clone needs the permission to duplicate; the copy has a handle that was not in use. */
  lemma {:induction false} CloneOutcome(s: System, handle: nat, room: bool, x: TaskId, h: nat)
    requires Tables(s) && Enabled(s, CapClone(handle, room))
    ensures var s', r := Step(s, CapClone(handle, room)), Clone(s.tasks[s.current].caps, handle, room).1;
            var held := Holds(s, s.current, handle);
            && (r.Ok? <==> held.Some? && Duplicate in held.value.cap.perms && room)
            && (r.Ok? ==> Holds(s, s.current, r.value) == None)
            && (r == Err(WrongCapability) <==> held == None)
            && (r == Err(WrongCapabilityPerms) <==> held.Some? && Duplicate !in held.value.cap.perms)
            && (r == Err(NoMemory) <==> held.Some? && Duplicate in held.value.cap.perms && !room)
            && SameBesidesCaps(s, s')
            && Holds(s', x, h) == if r.Ok? && x == s.current && h == r.value then held else Holds(s, x, h)
  {
    hide Table<Held>.Get, Table<Held>.Insert, Table<Held>.Valid;
    var caps := s.tasks[s.current].caps;
    NextIsUnused(s, s.current);
    match caps.Get(handle)
    case None =>
    case Some(held) => InsertedOrFailed(caps, held, room);
  }

  /** Only a physical range can be restricted, to a part of it that is not empty; nothing else about it changes. */
  lemma {:induction false} RestrictOutcome(s: System, handle: nat, a: nat, b: nat, x: TaskId, h: nat)
    requires Tables(s) && Enabled(s, CapRestrict(handle, a, b))
    ensures var s', r := Step(s, CapRestrict(handle, a, b)), Restrict(s.tasks[s.current].caps, handle, a, b).1;
            var held := Holds(s, s.current, handle);
            && (r.Ok? <==> a <= b < 0x10_0000_0000_0000 && Spans(held, a, b))
            && (r == Err(WrongCapability) <==> held == None)
            && (r == Err(NotImplemented) <==> held.Some? && held.value.cap.ctype == MapVirtualToRam)
            && (r.Ok? || r.error in {WrongCapability, NotImplemented, WrongParameters})
            && SameBesidesCaps(s, s')
            && Holds(s', x, h)
               == if r.Ok? && x == s.current && h == handle then
                    Some(Held(Capability(held.value.cap.perms, MapPhysical(a, b)), held.value.origin))
                  else Holds(s, x, h)
  {
    hide Table<Held>.Get, Table<Held>.Replace, Table<Held>.Valid;
    var caps := s.tasks[s.current].caps;
    var (_, r) := Restrict(caps, handle, a, b);
    if r.Ok? {
      var held := caps.Get(handle).value;
      ReplaceGet(caps, handle, held.(cap := held.cap.(ctype := MapPhysical(a, b))), h);
    }
  }

  /** Dropping a capability takes its handle from the caller, and nothing else. */
  lemma {:induction false} DropOutcome(s: System, handle: nat, x: TaskId, h: nat)
    requires Tables(s) && Enabled(s, CapDrop(handle))
    ensures var s', r := Step(s, CapDrop(handle)), Discard(s.tasks[s.current].caps, handle).1;
            && r == (if Holds(s, s.current, handle).Some? then Ok(()) else Err(WrongCapability))
            && SameBesidesCaps(s, s')
            && Holds(s', x, h) == if x == s.current && h == handle then None else Holds(s, x, h)
  {
    hide Table<Held>.Get, Table<Held>.Delete, Table<Held>.Valid;
    DeleteGet(s.tasks[s.current].caps, handle, h);
  }

  /** A shared capability stays with its holder, and a child has it under a handle that was not in use. */
  lemma {:induction false} ShareOutcome(s: System, proc: TaskId, handle: nat, room: bool, x: TaskId, h: nat)
    requires Tables(s) && Enabled(s, CapShare(proc, handle, room))
    ensures var reply, held := ShareTransfer(s, proc, handle, false, room), Holds(s, s.current, handle);
            var child := proc != s.current && IsChild(s, proc, s.current);
            var shareable := held.Some? && Shareable in held.value.cap.perms;
            && Step(s, CapShare(proc, handle, room)) == reply.s
            && (reply.result.Ok? <==> proc != 0 && child && shareable && room)
            && (reply.result == Err(WrongParameters) <==> proc == 0)
            && (reply.result == Err(WrongCapability) <==> proc != 0 && proc != s.current && held == None)
            && (reply.result == Err(WrongCapabilityPerms) <==>
                  proc != 0 && proc != s.current && held.Some? && !shareable)
            && (reply.result == Err(WrongProcess) <==> proc != 0 && (proc == s.current || (shareable && !child)))
            && (reply.result == Err(NoMemory) <==> proc != 0 && child && shareable && !room)
            && SameBesidesCaps(s, reply.s)
            && (reply.result.Ok? ==> Holds(s, proc, s.tasks[proc].caps.next) == None)
            && Holds(reply.s, x, h)
               == if reply.result.Ok? && x == proc && h == s.tasks[proc].caps.next then held else Holds(s, x, h)
  {
    hide Table<Held>.Get, Table<Held>.Insert, Table<Held>.Valid;
    if proc in s.tasks && Holds(s, s.current, handle).Some? {
      InsertedOrFailed(s.tasks[proc].caps, Holds(s, s.current, handle).value, room);
      NextIsUnused(s, proc);
    }
  }

  /** The refusals of a transfer; the capability is gone when it was looked up, whatever comes after. */
  lemma {:induction false} TransferRefusals(s: System, proc: TaskId, handle: nat, room: bool)
    requires Tables(s) && Enabled(s, CapTransfer(proc, handle, room))
    ensures var reply, held := ShareTransfer(s, proc, handle, true, room), Holds(s, s.current, handle);
            var child := proc != s.current && IsChild(s, proc, s.current);
            && Step(s, CapTransfer(proc, handle, room)) == reply.s
            && (reply.result.Ok? <==> proc != 0 && held.Some? && child && room)
            && (reply.result == Err(WrongParameters) <==> proc == 0)
            && (reply.result == Err(WrongCapability) <==> proc != 0 && proc != s.current && held == None)
            && (reply.result == Err(WrongProcess) <==> proc != 0 && (proc == s.current || (held.Some? && !child)))
            && (reply.result == Err(NoMemory) <==> proc != 0 && held.Some? && child && !room)
            && SameBesidesCaps(s, reply.s)
            && (proc == 0 || proc == s.current || held == None ==> reply.s == s)
  {
    hide Table<Held>.Get, Table<Held>.Insert, Table<Held>.Valid, Table<Held>.Delete;
  }

  /** A physical range is mapped exactly when a capability of the caller spans it. */
  lemma {:induction false} MapPhysOutcome(s: System, from: nat, to: nat)
    requires Tables(s) && Enabled(s, MapPhys(from, to))
    ensures Step(s, MapPhys(from, to))
            == if HasRange(s, s.current, from, to) then s.(physical := s.physical + [(from, to)]) else s
  {
    MayExactly(s, s.current, from, to);
  }

  // ---- Files

  /** Only the files of the current task differ. */
  ghost predicate SameBesidesFiles(s: System, s': System)
    requires s.current in s.tasks
  {
    && s' == s.(tasks := s'.tasks) && s'.tasks.Keys == s.tasks.Keys
    && forall id | id in s.tasks ::
         s'.tasks[id] == if id == s.current then s.tasks[id].(files := s'.tasks[id].files) else s.tasks[id]
  }

  /** A file that is opened has a descriptor that was not in use; closing takes that one only. */
  lemma {:induction false} FileOutcome(s: System, fd: nat)
    requires Descriptors.FileTables(s) && s.current in s.tasks && s.current != INIT
    ensures var files := s.tasks[s.current].files;
            && files.next !in files.Map()
            && SameBesidesFiles(s, Step(s, FileOpen)) && SameBesidesFiles(s, Step(s, FileClose(fd)))
            && Step(s, FileOpen).tasks[s.current].files.Map() == files.Map()[files.next := ()]
            && Step(s, FileClose(fd)).tasks[s.current].files.Map() == files.Map() - {fd}
  {
    hide Table<()>.Get, Table<()>.Insert, Table<()>.Delete, Table<()>.Valid, Table<()>.Map;
    var files := s.tasks[s.current].files;
    assert files.Valid();
    InsertIsUpdate(files, ());
    GetIsLookup(files, files.next);
    DeleteIsRemoval(files, fd);
  }
}
