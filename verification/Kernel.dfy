/**
 The registry of tasks and the system calls that change it, in place. Every operation is
 proved against the transition system of `Tasks`.
 */
module Kernel {
  import opened Wrappers
  import opened HandleTables
  import opened Capabilities
  import opened Tasks
  import opened TaskTree
  import Confinement

  class TaskContext {
    var parent: Option<TaskId>
    var children: seq<TaskId>
    var state: TaskState
    var capabilities: Table<Held>
    var files: Table<()>
    var userEntryPoint: nat

    constructor (task: Task)
      ensures Value() == task
    {
      parent, children, state := task.parent, task.children, task.state;
      capabilities, files, userEntryPoint := task.caps, task.files, task.entry;
    }

    function Value(): Task
      reads this
    {
      Task(parent, children, state, capabilities, files, userEntryPoint)
    }

    /** A new handle for a capability; the counter moves on even when the table cannot grow. */
    method InsertCapability(held: Held, room: bool) returns (r: Result<nat>)
      modifies this`capabilities
      ensures (capabilities, r) == InsertOrFail(old(capabilities), held, room)
    {
      var id := capabilities.next;
      capabilities := capabilities.(next := capabilities.next + 1);
      if !room {
        return Err(NoMemory);
      }
      capabilities := capabilities.(slots := capabilities.slots + [Slot(id, held)]);
      return Ok(id);
    }

    method DeleteCapability(handle: nat) returns (r: Result<Held>)
      modifies this`capabilities
      ensures capabilities == old(capabilities).Delete(handle)
      ensures r == match old(capabilities).Get(handle) case None => Err(WrongCapability) case Some(held) => Ok(held)
    {
      var index := capabilities.Position(handle);
      if index == |capabilities.slots| {
        return Err(WrongCapability);
      }
      r := Ok(capabilities.slots[index].item);
      capabilities := capabilities.(slots := capabilities.slots[..index] + capabilities.slots[index + 1..]);
    }

    method CloneCapability(handle: nat, room: bool) returns (r: Result<nat>)
      modifies this`capabilities
      ensures (capabilities, r) == Clone(old(capabilities), handle, room)
    {
      var held := capabilities.Get(handle);
      if held.None? {
        return Err(WrongCapability);
      }
      if Duplicate !in held.value.cap.perms {
        return Err(WrongCapabilityPerms);
      }
      r := InsertCapability(held.value, room);
    }

    method RestrictCapability(handle: nat, a: nat, b: nat) returns (r: Result<()>)
      modifies this`capabilities
      ensures (capabilities, r) == Restrict(old(capabilities), handle, a, b)
    {
      var index := capabilities.Position(handle);
      if index == |capabilities.slots| {
        return Err(WrongCapability);
      }
      var held := capabilities.slots[index].item;
      match held.cap.ctype {
        case MapPhysical(from, to) =>
          if a > b { return Err(WrongParameters); }
          if a >= PHYSICAL || b >= PHYSICAL { return Err(WrongParameters); }
          if a < from || b > to { return Err(WrongParameters); }
          var restricted := held.(cap := held.cap.(ctype := MapPhysical(a, b)));
          capabilities := capabilities.(slots := capabilities.slots[index := Slot(handle, restricted)]);
          return Ok(());
        case MapVirtualToRam => return Err(NotImplemented);
        case _ => return Err(WrongParameters);
      }
    }
  }

  class TaskRegistry {
    var tasks: map<TaskId, TaskContext>
    var executableTasks: seq<TaskId>
    var current: TaskId
    var nextPid: TaskId
    ghost var ancestry: map<TaskId, TaskId>
    ghost var physical: seq<(nat, nat)>

    /** No two ids share a context. */
    ghost predicate Separate()
      reads this
    {
      forall a, b | a in tasks && b in tasks && a != b :: tasks[a] != tasks[b]
    }

    ghost function Values(): map<TaskId, Task>
      reads this, tasks.Values
    {
      map id | id in tasks :: tasks[id].Value()
    }

    ghost function Abs(): System
      reads this, tasks.Values
    {
      System(Values(), executableTasks, current, nextPid, ancestry, physical)
    }

    ghost predicate Valid()
      reads this, tasks.Values
    {
      Separate() && Inv(Abs())
    }

    constructor ()
      ensures Separate() && Abs() == System(map[], [], 0, 2, map[], [])
    {
      tasks, executableTasks, current, nextPid := map[], [], 0, 2;
      ancestry, physical := map[], [];
    }

    /** Registers a context and tells its parent. */
    method Add(id: TaskId, ctx: TaskContext)
      requires Separate() && id !in tasks && ctx !in tasks.Values
      requires ctx.parent.Some? ==> ctx.parent.value in tasks
      modifies this`tasks, tasks.Values
      ensures Separate() && tasks == old(tasks)[id := ctx]
      ensures Abs() == Tasks.Add(old(Abs()), id, old(ctx.Value()))
    {
      var parent := ctx.parent;
      tasks := tasks[id := ctx];
      if parent.Some? {
        var p := tasks[parent.value];
        p.children := p.children + [id];
      }
    }

    /** Makes a task with the next id, and registers it. */
    method CreateChild(parent: TaskId) returns (id: TaskId)
      requires Separate() && parent in tasks && nextPid !in tasks
      modifies this`tasks, this`nextPid, this`ancestry, tasks.Values
      ensures Separate() && fresh(tasks.Values - old(tasks.Values))
      ensures id == old(nextPid) && Abs() == AddChild(old(Abs()), parent)
    {
      ghost var s := Abs();
      id := nextPid;
      nextPid := nextPid + 1;
      var child := new TaskContext(NewTask(parent));
      ancestry := ancestry[id := parent];
      assert Values() == s.tasks;
      Add(id, child);
    }

    /** Makes task 1, which is current from now on. */
    method AddInit()
      requires Separate() && Abs() == System(map[], [], 0, 2, map[], [])
      modifies this
      ensures Separate() && tasks.Keys == {INIT} && fresh(tasks.Values)
      ensures Abs() == System(map[INIT := Task(None, [], Sleepy, Table(0, []), NO_FILES, 0)], [], INIT, 2, map[], [])
    {
      assert tasks == map[] by { assert Values().Keys == tasks.Keys; }
      var task := Task(None, [], Sleepy, Table(0, []), NO_FILES, 0);
      var init := new TaskContext(task);
      Add(INIT, init);
      current := INIT;
      assert Values() == map[INIT := task];
    }

    /** What happens before the scheduler starts: task 1 is made, and the init process, which is queued. */
    method Boot()
      requires Separate() && Abs() == System(map[], [], 0, 2, map[], [])
      modifies this
      ensures Valid() && Abs() == Confinement.Boot([])
    {
      hide Inv, AddChild, Confinement.Boot, Confinement.Confined, Confinement.Bounded;
      AddInit();
      BootTasks(Abs());
      var id := CreateChild(INIT);
      ghost var values := Values();
      assert executableTasks == [];
      executableTasks := executableTasks + [id];
      assert Values() == values;
      assert Abs() == Confinement.Boot([]);
      assert Inv(Confinement.Boot([])) by { Confinement.BootIsConfined([]); }
    }

    static lemma {:induction false} BootTasks(s: System)
      requires s == System(map[INIT := Task(None, [], Sleepy, Table(0, []), NO_FILES, 0)], [], INIT, 2, map[], [])
      ensures AddChild(s, INIT).queue == [] && AddChild(s, INIT).(queue := [2]) == Confinement.Boot([])
    {
      var s' := Tasks.Add(s, 2, NewTask(INIT));
      assert s.tasks[INIT].children + [2] == [2];
      assert NewTask(INIT) == NewTask(INIT).(caps := Table(0, Confinement.Slots([])));
      assert s'.tasks == Confinement.Boot([]).tasks;
      assert s.ancestry[2 := INIT] == map[2 := INIT];
    }

    /** Takes a context out of the registry and out of its parent's list. */
    method Remove(id: TaskId)
      requires Separate() && id in tasks
      modifies this`tasks, tasks.Values
      ensures Separate() && tasks == old(tasks) - {id}
      ensures Abs() == Tasks.Remove(old(Abs()), id)
    {
      hide Without;
      ghost var s := Abs();
      var task := tasks[id];
      tasks := tasks - {id};
      assert Values() == s.tasks - {id};
      if task.parent.Some? && task.parent.value in tasks {
        var p := tasks[task.parent.value];
        var index := 0;
        while index < |p.children| && p.children[index] != id
          invariant index <= |p.children| && forall j | 0 <= j < index :: p.children[j] != id
        {
          index := index + 1;
        }
        WithoutAt(p.children, id, index);
        if index < |p.children| {
          p.children := p.children[..index] + p.children[index + 1..];
        }
        assert p.children == Without(s.tasks[task.parent.value].children, id);
        assert Values() == Tasks.Remove(s, id).tasks;
      }
    }

    static lemma {:induction false} WithoutAt(ids: seq<TaskId>, id: TaskId, index: nat)
      requires index <= |ids| && (forall j | 0 <= j < index :: ids[j] != id)
      requires index < |ids| ==> ids[index] == id
      ensures Without(ids, id) == if index < |ids| then ids[..index] + ids[index + 1..] else ids
      decreases |ids|
    {
      if ids != [] && ids[0] != id {
        var rest := ids[1..];
        WithoutAt(rest, id, index - 1);
        if index < |ids| {
          assert ids[..index] == [ids[0]] + rest[..index - 1] && ids[index + 1..] == rest[index..];
        } else {
          assert ids == [ids[0]] + rest;
        }
      }
    }

    /**
     The scheduler, and the hook that runs once the switch is done. The tasks it looks up
     are registered.
     */
    method SwitchToNextTask() returns (switched: bool)
      requires Separate() && Family(Abs()) && Registered(Abs()) && Queued(Abs()) && Started(Abs()) && Runnable(Abs())
      modifies this, tasks.Values
      ensures Valid() && Abs() == Switch(old(Abs()))
      ensures switched <==> Next(old(Abs())) != old(current)
      ensures tasks.Values <= old(tasks.Values)
    {
      hide Family, Registered, Queued, Started, Runnable, Inv, Tasks.Remove;
      ghost var s := Abs();
      CurrentIsRegistered(s);
      NextIsRegistered(s);
      SwitchKeepsInv(s);
      var from := current;
      var fromTask := tasks[from];
      if fromTask.state == User {
        executableTasks := executableTasks + [from];
      }
      var next := INIT;
      if executableTasks != [] {
        next := executableTasks[0];
        executableTasks := executableTasks[1..];
      }
      if next == from {
        assert Values() == s.tasks;
        return false;
      }
      assert next in tasks;
      current := next;
      assert Values() == s.tasks;
      if fromTask.state == Dying {
        Remove(from);
      }
      assert Abs() == Switch(s);
      return true;
    }

    static lemma {:induction false} CurrentIsTask(s: System)
      requires Inv(s)
      ensures s.current in s.tasks
    {
    }

    static lemma {:induction false} CurrentIsRegistered(s: System)
      requires Registered(s)
      ensures s.current in s.tasks
    {
    }

    method Exit()
      requires Valid() && current != INIT
      modifies this, tasks.Values
      ensures Valid() && Abs() == Step(old(Abs()), Tasks.Exit)
      ensures tasks.Values <= old(tasks.Values)
    {
      hide Family, Registered, Queued, Started, Runnable;
      ghost var s := Abs();
      TaskTree.StepKeepsInv(s, Tasks.Exit);
      var task := tasks[current];
      task.state := Dying;
      ghost var s1 := s.(tasks := s.tasks[s.current := s.tasks[s.current].(state := Dying)]);
      assert Abs() == s1;
      DyingMaySwitch(s, s1);
      var _ := SwitchToNextTask();
    }

    static lemma {:induction false} DyingMaySwitch(s: System, s1: System)
      requires Inv(s) && s.current != INIT
      requires s1 == s.(tasks := s.tasks[s.current := s.tasks[s.current].(state := Dying)])
      ensures Family(s1) && Registered(s1) && Queued(s1) && Started(s1) && Runnable(s1)
    {
      forall id | id in s1.tasks ensures TaskTree.Listed(s1, id) && Younger(s1, id) {
        assert TaskTree.Listed(s, id) && Younger(s, id);
        assert forall c :: IsChild(s1, c, id) <==> IsChild(s, c, id);
      }
      assert forall id | Active(s1, id) :: Active(s, id);
    }

    /** A new child of the current task, which no one runs yet. */
    method SpawnTask() returns (r: Result<TaskId>)
      requires Valid() && current != INIT
      modifies this, tasks.Values
      ensures Valid() && Reply(Abs(), r) == SpawnChild(old(Abs()))
      ensures fresh(tasks.Values - old(tasks.Values))
    {
      hide Family, Queued, Started, Runnable;
      ghost var s := Abs();
      SpawnKeepsInv(s);
      var task := tasks[current];
      if !MaySpawn(task.capabilities) {
        return Err(WrongCapability);
      }
      assert nextPid !in s.tasks;
      var id := CreateChild(current);
      return Ok(id);
    }

    /** Gives a program to a child that has none yet, and queues it. */
    method ExecTask(proc: TaskId, fd: nat, program: Program) returns (r: Result<()>)
      requires Valid() && current != INIT
      modifies this, tasks.Values
      ensures Separate() && Reply(Abs(), r) == ExecProgram(old(Abs()), proc, fd, program)
      ensures program != Image(0) ==> Valid()
      ensures tasks == old(tasks)
    {
      hide Family, Registered, Queued, Started, Runnable, Inv;
      ghost var s := Abs();
      CurrentIsTask(s);
      if program != Image(0) { TaskTree.StepKeepsInv(s, Exec(proc, fd, program)); }
      if proc == 0 { return Err(WrongParameters); }
      if proc !in tasks { return Err(WrongProcess); }
      var target := tasks[proc];
      if target.parent != Some(current) { return Err(WrongProcess); }
      if target.userEntryPoint != 0 { return Err(WrongProcess); }
      if tasks[current].files.Get(fd).None? { return Err(WrongDescriptor); }
      match program {
        case Unreadable => return Err(NoMemory);
        case NotElf => return Err(FsNotExecutable);
        case Image(entry) =>
          target.userEntryPoint := entry;
          executableTasks := executableTasks + [proc];
          assert Values() == s.tasks[proc := s.tasks[proc].(entry := entry)];
          return Ok(());
      }
    }

    /** The last part of sharing and transferring: a child of the current task gets the capability. */
    method GiveToChild(proc: TaskId, held: Held, room: bool) returns (r: Result<()>)
      requires Separate()
      modifies tasks.Values
      ensures Separate() && Reply(Abs(), r) == GiveTo(old(Abs()), proc, held, room)
    {
      ghost var s := Abs();
      if proc !in tasks { return Err(WrongProcess); }
      var target := tasks[proc];
      if target.parent != Some(current) { return Err(WrongProcess); }
      var inserted := target.InsertCapability(held, room);
      assert Values() == SetCaps(s, proc, target.capabilities).tasks;
      return if inserted.Ok? then Ok(()) else Err(inserted.error);
    }

    /** Hands a capability of the current task to one of its children. */
    method ProcessShareTransfer(proc: TaskId, handle: nat, transfer: bool, room: bool) returns (r: Result<()>)
      requires Valid() && current != INIT
      modifies this, tasks.Values
      ensures Valid() && Reply(Abs(), r) == ShareTransfer(old(Abs()), proc, handle, transfer, room)
      ensures tasks == old(tasks)
    {
      hide Family, Registered, Queued, Started, Runnable, Inv, GiveTo;
      ghost var s := Abs();
      CurrentIsTask(s);
      ShareTransferKeepsInv(s, proc, handle, transfer, room);
      if proc == 0 { return Err(WrongParameters); }
      if proc == current { return Err(WrongProcess); }
      var giver := tasks[current];
      var held: Held;
      if transfer {
        var taken := giver.DeleteCapability(handle);
        if taken.Err? { return Err(taken.error); }
        held := taken.value;
        assert Abs().tasks == SetCaps(s, s.current, giver.capabilities).tasks;
      } else {
        var found := giver.capabilities.Get(handle);
        if found.None? { return Err(WrongCapability); }
        if Shareable !in found.value.cap.perms { return Err(WrongCapabilityPerms); }
        held := found.value;
      }
      r := GiveToChild(proc, held, room);
    }

    // ---- Calls on the tables of the current task

    method CapabilityClone(handle: nat, room: bool) returns (r: Result<nat>)
      requires Valid() && current != INIT
      modifies tasks.Values
      ensures Valid() && Abs() == Step(old(Abs()), CapClone(handle, room))
      ensures r == Clone(old(tasks[current].capabilities), handle, room).1
    {
      hide Family, Queued, Started, Runnable, Clone;
      ghost var s := Abs();
      TaskTree.StepKeepsInv(s, CapClone(handle, room));
      r := tasks[current].CloneCapability(handle, room);
      assert Abs().tasks == Step(s, CapClone(handle, room)).tasks;
    }

    method CapabilityRestrict(handle: nat, a: nat, b: nat) returns (r: Result<()>)
      requires Valid() && current != INIT
      modifies tasks.Values
      ensures Valid() && Abs() == Step(old(Abs()), CapRestrict(handle, a, b))
      ensures r == Restrict(old(tasks[current].capabilities), handle, a, b).1
    {
      hide Family, Queued, Started, Runnable, Restrict;
      ghost var s := Abs();
      TaskTree.StepKeepsInv(s, CapRestrict(handle, a, b));
      r := tasks[current].RestrictCapability(handle, a, b);
      assert Abs().tasks == Step(s, CapRestrict(handle, a, b)).tasks;
    }

    method CapabilityDrop(handle: nat) returns (r: Result<()>)
      requires Valid() && current != INIT
      modifies tasks.Values
      ensures Valid() && Abs() == Step(old(Abs()), CapDrop(handle))
      ensures r == Discard(old(tasks[current].capabilities), handle).1
    {
      hide Family, Queued, Started, Runnable;
      ghost var s := Abs();
      TaskTree.StepKeepsInv(s, CapDrop(handle));
      var taken := tasks[current].DeleteCapability(handle);
      assert Abs().tasks == Step(s, CapDrop(handle)).tasks;
      return if taken.Ok? then Ok(()) else Err(taken.error);
    }

    /** The check before physical memory is mapped; what it lets through is recorded. */
    method CheckMapPhys(from: nat, to: nat) returns (r: Result<()>)
      requires Valid() && current != INIT
      modifies this`physical
      ensures Valid() && Abs() == Step(old(Abs()), MapPhys(from, to))
      ensures r.Ok? <==> MayMapPhys(CapsOf(tasks[current].capabilities), from, to)
      ensures r.Err? ==> r.error == WrongCapability
    {
      hide Family, Queued, Started, Runnable;
      ghost var s := Abs();
      TaskTree.StepKeepsInv(s, MapPhys(from, to));
      var slots := tasks[current].capabilities.slots;
      ghost var caps := CapsOf(tasks[current].capabilities);
      for i := 0 to |slots|
        invariant physical == old(physical)
        invariant forall j | 0 <= j < i :: !Covers(caps[j].ctype, from, to)
      {
        if Covers(slots[i].item.cap.ctype, from, to) {
          assert Covers(caps[i].ctype, from, to);
          physical := physical + [(from, to)];
          assert Values() == s.tasks;
          return Ok(());
        }
      }
      return Err(WrongCapability);
    }

    method OpenFile() returns (fd: nat)
      requires Valid() && current != INIT
      modifies tasks.Values
      ensures Valid() && Abs() == Step(old(Abs()), FileOpen)
      ensures fd == old(tasks[current].files.next)
    {
      hide Family, Queued, Started, Runnable;
      ghost var s := Abs();
      TaskTree.StepKeepsInv(s, FileOpen);
      var task := tasks[current];
      fd := task.files.next;
      task.files := task.files.(next := fd + 1);
      task.files := task.files.(slots := task.files.slots + [Slot(fd, ())]);
      assert Abs().tasks == Step(s, FileOpen).tasks;
    }

    method CloseFile(fd: nat) returns (r: Result<()>)
      requires Valid() && current != INIT
      modifies tasks.Values
      ensures Valid() && Abs() == Step(old(Abs()), FileClose(fd))
      ensures r == if old(tasks[current].files.Get(fd)).Some? then Ok(()) else Err(WrongDescriptor)
    {
      hide Family, Queued, Started, Runnable;
      ghost var s := Abs();
      TaskTree.StepKeepsInv(s, FileClose(fd));
      var task := tasks[current];
      var index := task.files.Position(fd);
      if index == |task.files.slots| {
        assert Abs().tasks == Step(s, FileClose(fd)).tasks;
        return Err(WrongDescriptor);
      }
      task.files := task.files.(slots := task.files.slots[..index] + task.files.slots[index + 1..]);
      assert Abs().tasks == Step(s, FileClose(fd)).tasks;
      return Ok(());
    }
  }
}
