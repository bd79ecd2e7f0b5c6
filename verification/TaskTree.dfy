/** What every step keeps of the task tree and the run queue. */
module TaskTree {
  import opened Wrappers
  import opened HandleTables
  import opened Capabilities
  import opened Sequences
  import opened Tasks

  predicate IsChild(s: System, c: TaskId, id: TaskId) {
    c in s.tasks && s.tasks[c].parent == Some(id)
  }

  /** A task's list of children says, without repetition, which registered tasks name it as parent. */
  ghost predicate Listed(s: System, id: TaskId) {
    && id in s.tasks
    && NoDuplicates(s.tasks[id].children)
    && forall c :: c in s.tasks[id].children <==> IsChild(s, c, id)
  }

  /** Every task but the first was made by an older one. */
  ghost predicate Younger(s: System, id: TaskId) {
    && id in s.tasks
    && if id == INIT then s.tasks[id].parent == None
       else s.tasks[id].parent.Some? && 0 < s.tasks[id].parent.value < id
  }

  ghost predicate Family(s: System) {
    forall id | id in s.tasks :: Listed(s, id) && Younger(s, id)
  }

  /** Task 1 is there; ids come from the counter; only the current task may be on its way out. */
  ghost predicate Registered(s: System) {
    && s.current in s.tasks
    && INIT in s.tasks && s.tasks[INIT].state == Sleepy
    && (forall id | id in s.tasks :: 0 < id < s.nextPid)
    && (forall id | id in s.tasks && id != INIT && id != s.current :: s.tasks[id].state == User)
    && (s.current != INIT ==> s.tasks[s.current].state != Sleepy)
  }

  /** The queue holds other tasks than the current one and task 1, each once. */
  ghost predicate Queued(s: System) {
    && NoDuplicates(s.queue)
    && forall q | q in s.queue :: q in s.tasks && q != INIT && q != s.current
  }

  predicate Active(s: System, id: TaskId) {
    id == s.current || id in s.queue
  }

  /** A task that runs or waits to run has a program, or was started by task 1. */
  ghost predicate Started(s: System) {
    forall id | id in s.tasks && id != INIT && Active(s, id) && s.tasks[id].entry == 0 ::
      s.tasks[id].parent == Some(INIT)
  }

  /** A task that has a program runs, or waits to run. */
  ghost predicate Runnable(s: System) {
    forall id | id in s.tasks && id != INIT && s.tasks[id].entry != 0 :: Active(s, id)
  }

  /** Between steps the current task is not dying. */
  ghost predicate Settled(s: System) {
    s.current in s.tasks && (s.current == INIT || s.tasks[s.current].state == User)
  }

  ghost predicate Inv(s: System) {
    Family(s) && Registered(s) && Queued(s) && Started(s) && Runnable(s) && Settled(s)
  }

  lemma {:induction false} WithoutIsRemoval(ids: seq<TaskId>, id: TaskId)
    requires NoDuplicates(ids)
    ensures NoDuplicates(Without(ids, id))
    ensures forall x :: x in Without(ids, id) <==> x in ids && x != id
    decreases |ids|
  {
    if ids != [] {
      var rest := ids[1..];
      assert ids == [ids[0]] + rest && ids[0] !in rest;
      WithoutIsRemoval(rest, id);
      if ids[0] != id {
        NoDuplicatesConcat([ids[0]], Without(rest, id));
      }
    }
  }

  lemma {:induction false} RemoveKeepsFamily(s: System, id: TaskId)
    requires Family(s) && id in s.tasks && id != INIT
    ensures Family(Remove(s, id))
  {
    assert Younger(s, id);
    forall x | x in Remove(s, id).tasks ensures Listed(Remove(s, id), x) && Younger(Remove(s, id), x) {
      assert Listed(s, x) && Younger(s, x);
      RemoveKeepsListed(s, id, x);
    }
  }

  lemma {:induction false} RemoveKeepsListed(s: System, id: TaskId, x: TaskId)
    requires id in s.tasks && x in s.tasks && x != id && Listed(s, x) && Younger(s, id) && id != INIT
    ensures Listed(Remove(s, id), x)
  {
    var s', p := Remove(s, id), s.tasks[id].parent.value;
    assert forall c :: IsChild(s', c, x) <==> IsChild(s, c, x) && c != id;
    if x == p {
      WithoutIsRemoval(s.tasks[p].children, id);
    } else {
      assert s'.tasks[x].children == s.tasks[x].children;
      assert !IsChild(s, id, x);
    }
  }

  lemma {:induction false} AddKeepsFamily(s: System, id: TaskId, task: Task)
    requires Family(s) && id !in s.tasks && task.children == []
    requires task.parent.Some? && 0 < task.parent.value < id && task.parent.value in s.tasks
    requires forall x | x in s.tasks :: x < id
    ensures Family(Add(s, id, task))
  {
    var s' := Add(s, id, task);
    forall x | x in s'.tasks ensures Listed(s', x) && Younger(s', x) {
      if x != id {
        assert Listed(s, x) && Younger(s, x);
        AddKeepsListed(s, id, task, x);
      } else {
        forall c ensures !IsChild(s', c, id) {
          if c in s.tasks { assert Younger(s, c); }
        }
      }
    }
  }

  lemma {:induction false} AddKeepsListed(s: System, id: TaskId, task: Task, x: TaskId)
    requires id !in s.tasks && Listed(s, x) && x != id
    requires task.parent.Some? && task.parent.value in s.tasks && task.parent.value != id
    ensures Listed(Add(s, id, task), x)
  {
    var s', p := Add(s, id, task), task.parent.value;
    assert forall c :: IsChild(s', c, x) <==> IsChild(s, c, x) || (c == id && x == p);
    if x == p {
      assert !IsChild(s, id, x);
      NoDuplicatesConcat(s.tasks[p].children, [id]);
    }
  }

  /** Only the tables of tasks, their programs and auxiliary state differ. */
  ghost predicate SameShape(s: System, s': System) {
    && s'.tasks.Keys == s.tasks.Keys
    && s'.current == s.current && s'.nextPid == s.nextPid
    && forall id | id in s.tasks ::
         && s'.tasks[id].parent == s.tasks[id].parent
         && s'.tasks[id].children == s.tasks[id].children
         && s'.tasks[id].state == s.tasks[id].state
  }

  lemma {:induction false} SameShapeKeepsInv(s: System, s': System)
    requires Inv(s) && SameShape(s, s') && s'.queue == s.queue
    requires forall id | id in s.tasks :: s'.tasks[id].entry == s.tasks[id].entry
    ensures Inv(s')
  {
  }

  /** The unwraps of the switch never fail, whatever the state of the current task. */
  lemma {:induction false} NextIsRegistered(s: System)
    requires Registered(s) && Queued(s)
    ensures Next(s) in s.tasks
    ensures Next(s) == s.current <==> s.queue == [] && (s.current == INIT || s.tasks[s.current].state == User)
  {
  }

  /** What is left of the queue, and the task that was at its head. */
  lemma {:induction false} SwitchedQueue(s: System)
    requires Registered(s) && Queued(s) && Next(s) != s.current
    ensures var queue := if Requeued(s) == [] then [] else Requeued(s)[1..];
            && NoDuplicates(queue) && Next(s) !in queue
            && (Next(s) == INIT || Next(s) in s.queue)
            && (forall q | q in queue :: q in s.tasks && q != INIT)
            && (forall q | q in queue :: q in s.queue || (q == s.current && s.tasks[q].state == User))
            && (forall q | q in s.queue :: q == Next(s) || q in queue)
            && (s.current != INIT && s.tasks[s.current].state == User ==> s.current in queue)
  {
    var all := Requeued(s);
    if all != [] {
      assert all == [all[0]] + all[1..];
      forall q | q in all ensures q == all[0] || q in all[1..] {}
      forall q | q in all[1..] ensures q != all[0] {}
    }
  }

  lemma {:induction false} SwitchKeepsInv(s: System)
    requires Family(s) && Registered(s) && Queued(s) && Started(s) && Runnable(s)
    ensures Inv(Switch(s))
  {
    hide Remove, NoDuplicates, Family, Started, Runnable, Inv;
    NextIsRegistered(s);
    if Next(s) == s.current {
      SwitchedToItself(s);
    } else {
      SwitchedQueue(s);
      var queue := if Requeued(s) == [] then [] else Requeued(s)[1..];
      var s2 := s.(queue := queue, current := Next(s));
      if s.tasks[s.current].state == Dying {
        SwitchedDying(s, s2);
      } else {
        SwitchedAlive(s, s2);
      }
    }
  }

  lemma {:induction false} SwitchedToItself(s: System)
    requires Family(s) && Registered(s) && Queued(s) && Started(s) && Runnable(s)
    requires Next(s) == s.current
    ensures Inv(s.(queue := if Requeued(s) == [] then [] else Requeued(s)[1..]))
  {
    hide Family;
    NextIsRegistered(s);
    var s' := s.(queue := if Requeued(s) == [] then [] else Requeued(s)[1..]);
    assert s'.queue == [];
    FamilyOfTasks(s, s');
    assert forall id :: Active(s', id) <==> Active(s, id);
  }

  lemma {:induction false} SwitchedAlive(s: System, s2: System)
    requires Family(s) && Registered(s) && Started(s) && Runnable(s)
    requires s.tasks[s.current].state != Dying
    requires s2 == s.(queue := s2.queue, current := s2.current)
    requires s2.current in s.tasks && s2.current != s.current
    requires NoDuplicates(s2.queue) && s2.current !in s2.queue
    requires forall q | q in s2.queue :: q in s.tasks && q != INIT && (q in s.queue || q == s.current)
    requires forall q | q in s.queue :: q == s2.current || q in s2.queue
    requires s2.current == INIT || s2.current in s.queue
    requires s.current != INIT ==> s.current in s2.queue
    ensures Inv(s2)
  {
    hide Family, NoDuplicates;
    FamilyOfTasks(s, s2);
    assert forall id | Active(s2, id) && id != INIT :: Active(s, id);
  }

  lemma {:induction false} FamilyOfTasks(s: System, s': System)
    requires Family(s) && s'.tasks == s.tasks
    ensures Family(s')
  {
  }

  lemma {:induction false} SwitchedDying(s: System, s2: System)
    requires Family(s) && Registered(s) && Started(s) && Runnable(s)
    requires s.tasks[s.current].state == Dying
    requires s2 == s.(queue := s2.queue, current := s2.current)
    requires s2.current in s.tasks && s2.current != s.current
    requires NoDuplicates(s2.queue) && s2.current !in s2.queue
    requires forall q | q in s2.queue :: q in s.queue && q in s.tasks && q != INIT && q != s.current
    requires forall q | q in s.queue :: q == s2.current || q in s2.queue
    requires s2.current == INIT || s2.current in s.queue
    ensures Inv(Remove(s2, s.current))
  {
    hide Family, Remove, Without, NoDuplicates;
    var from, s' := s.current, Remove(s2, s.current);
    FamilyOfTasks(s, s2);
    RemoveKeepsFamily(s2, from);
    RemoveKeepsOthers(s2, from);
    assert forall id | Active(s', id) && id != INIT :: Active(s, id);
  }

  /** The other tasks are registered as before; at most their parent's list of children is shorter. */
  lemma {:induction false} RemoveKeepsOthers(s: System, id: TaskId)
    requires id in s.tasks
    ensures var s' := Remove(s, id);
            && s'.tasks.Keys == s.tasks.Keys - {id}
            && (forall x | x in s'.tasks ::
                  s'.tasks[x].state == s.tasks[x].state && s'.tasks[x].parent == s.tasks[x].parent
                  && s'.tasks[x].entry == s.tasks[x].entry)
            && s' == s.(tasks := s'.tasks)
  {
  }

  /** Running a program whose entry is address 0 leaves the task looking as if it had not been started. */
  predicate ZeroEntry(op: Op) {
    op.Exec? && op.program == Image(0)
  }

  lemma {:induction false} SpawnKeepsInv(s: System)
    requires Inv(s) && s.current != INIT
    ensures Inv(SpawnChild(s).s)
  {
    if MaySpawn(s.tasks[s.current].caps) {
      var id := s.nextPid;
      var s' := SpawnChild(s).s;
      assert Younger(s, s.current) && Listed(s, s.current);
      AddKeepsFamily(s, id, NewTask(s.current));
      assert s'.tasks == Add(s, id, NewTask(s.current)).tasks;
      FamilyOfTasks(Add(s, id, NewTask(s.current)), s');
    }
  }

  /** A program that can be run is one that this task has not been given yet, and is not queued. */
  predicate Runs(s: System, proc: TaskId, fd: nat, program: Program)
    requires s.current in s.tasks
  {
    program.Image? && ExecProgram(s, proc, fd, program).result.Ok?
  }

  lemma {:induction false} ExecTarget(s: System, proc: TaskId, fd: nat, program: Program)
    requires Inv(s) && s.current != INIT && Runs(s, proc, fd, program)
    ensures proc in s.tasks && proc != INIT && !Active(s, proc)
    ensures s.tasks[proc].parent == Some(s.current) && s.tasks[proc].entry == 0
  {
  }

  /** Running a program keeps the invariant, if its entry is not address 0. */
  lemma {:induction false} ExecKeepsInv(s: System, proc: TaskId, fd: nat, program: Program)
    requires Inv(s) && s.current != INIT && Runs(s, proc, fd, program) && program.entry != 0
    ensures Inv(ExecProgram(s, proc, fd, program).s)
  {
    var s' := ExecProgram(s, proc, fd, program).s;
    ExecTarget(s, proc, fd, program);
    NoDuplicatesConcat(s.queue, [proc]);
    assert s'.queue[|s.queue|] == proc && Active(s', proc);
    forall id | id in s'.tasks ensures Listed(s', id) && Younger(s', id) {
      assert Listed(s, id) && Younger(s, id);
      assert forall c :: IsChild(s', c, id) <==> IsChild(s, c, id);
    }
    forall id | id in s'.tasks && id != INIT && id != proc ensures Active(s', id) <==> Active(s, id) {}
  }

  lemma {:induction false} GiveKeepsShape(s: System, proc: TaskId, held: Held, room: bool)
    requires Inv(s)
    ensures Inv(GiveTo(s, proc, held, room).s)
  {
    SameShapeKeepsInv(s, GiveTo(s, proc, held, room).s);
  }

  lemma {:induction false} SetCapsKeepsInv(s: System, id: TaskId, caps: Table<Held>)
    requires Inv(s) && id in s.tasks
    ensures Inv(SetCaps(s, id, caps))
  {
    SameShapeKeepsInv(s, SetCaps(s, id, caps));
  }

  lemma {:induction false} ShareTransferKeepsInv(s: System, proc: TaskId, handle: nat, transfer: bool, room: bool)
    requires Inv(s)
    ensures Inv(ShareTransfer(s, proc, handle, transfer, room).s)
  {
    var caps := s.tasks[s.current].caps;
    if proc != 0 && proc != s.current && caps.Get(handle).Some? {
      var held := caps.Get(handle).value;
      SetCapsKeepsInv(s, s.current, caps.Delete(handle));
      GiveKeepsShape(SetCaps(s, s.current, caps.Delete(handle)), proc, held, room);
      GiveKeepsShape(s, proc, held, room);
    }
  }

  lemma {:induction false} ExitKeepsInv(s: System)
    requires Inv(s) && s.current != INIT
    ensures Inv(Step(s, Exit))
  {
    var s1 := s.(tasks := s.tasks[s.current := s.tasks[s.current].(state := Dying)]);
    forall id | id in s1.tasks ensures Listed(s1, id) && Younger(s1, id) {
      assert Listed(s, id) && Younger(s, id);
      assert forall c :: IsChild(s1, c, id) <==> IsChild(s, c, id);
    }
    assert forall id | Active(s1, id) :: Active(s, id);
    SwitchKeepsInv(s1);
  }

  lemma {:induction false} StepKeepsInv(s: System, op: Op)
    requires Inv(s) && Enabled(s, op) && !ZeroEntry(op)
    ensures Inv(Step(s, op))
  {
    hide Family, Queued, Started, SameShape, Switch, Clone, Restrict, Discard, GiveTo, Add;
    match op
    case Yield => SwitchKeepsInv(s);
    case Idle => SwitchKeepsInv(s);
    case Exit => ExitKeepsInv(s);
    case Spawn => SpawnKeepsInv(s);
    case Exec(proc, fd, program) =>
      if Runs(s, proc, fd, program) { ExecKeepsInv(s, proc, fd, program); }
    case CapClone(handle, room) => SetCapsKeepsInv(s, s.current, Clone(s.tasks[s.current].caps, handle, room).0);
    case CapRestrict(handle, a, b) => SetCapsKeepsInv(s, s.current, Restrict(s.tasks[s.current].caps, handle, a, b).0);
    case CapDrop(handle) => SetCapsKeepsInv(s, s.current, Discard(s.tasks[s.current].caps, handle).0);
    case CapShare(proc, handle, room) => ShareTransferKeepsInv(s, proc, handle, false, room);
    case CapTransfer(proc, handle, room) => ShareTransferKeepsInv(s, proc, handle, true, room);
    case MapPhys(from, to) => AuxiliaryKeepsInv(s, Step(s, op));
    case FileOpen => SetFilesKeepsInv(s, s.tasks[s.current].files.Insert(()));
    case FileClose(fd) => SetFilesKeepsInv(s, s.tasks[s.current].files.Delete(fd));
  }

  lemma {:induction false} AuxiliaryKeepsInv(s: System, s': System)
    requires Inv(s) && s' == s.(physical := s'.physical)
    ensures Inv(s')
  {
  }

  lemma {:induction false} SetFilesKeepsInv(s: System, files: Table<()>)
    requires Inv(s)
    ensures Inv(SetFiles(s, s.current, files))
  {
    SameShapeKeepsInv(s, SetFiles(s, s.current, files));
  }
}
