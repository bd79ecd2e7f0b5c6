/**
 Tasks, their capabilities and the scheduler as a transition system: one processor, and
 every system call one step.
 */
module Tasks {
  import opened Wrappers
  import opened HandleTables
  import opened Capabilities
  import opened Sequences

  type TaskId = nat

  const INIT: TaskId := 1

  datatype TaskState = Sleepy | User | Dying

  /**
   A capability in someone's table. `origin` is auxiliary: which of the capabilities
   granted at the start it descends from.
   */
  datatype Held = Held(cap: Capability, origin: nat)

  /** A task; what its files are does not matter here. */
  datatype Task = Task(parent: Option<TaskId>, children: seq<TaskId>, state: TaskState,
                       caps: Table<Held>, files: Table<()>, entry: nat)

  /**
   `ancestry` and `physical` are auxiliary: the parent of every task there ever was, and
   the physical ranges that tasks were allowed to map.
   */
  datatype System = System(tasks: map<TaskId, Task>, queue: seq<TaskId>, current: TaskId, nextPid: TaskId,
                           ancestry: map<TaskId, TaskId>, physical: seq<(nat, nat)>)

  /** What reading the file of a program gives. */
  datatype Program = Unreadable | NotElf | Image(entry: nat)

  /** `room` says whether a table can grow. */
  datatype Op =
    | Yield
    | Idle
    | Exit
    | Spawn
    | Exec(proc: TaskId, fd: nat, program: Program)
    | CapClone(handle: nat, room: bool)
    | CapRestrict(handle: nat, a: nat, b: nat)
    | CapDrop(handle: nat)
    | CapShare(proc: TaskId, handle: nat, room: bool)
    | CapTransfer(proc: TaskId, handle: nat, room: bool)
    | MapPhys(from: nat, to: nat)
    | FileOpen
    | FileClose(fd: nat)

  // ---- The registry

  /** Registers a task and tells its parent. */
  function Add(s: System, id: TaskId, task: Task): System {
    var tasks := s.tasks[id := task];
    if task.parent.Some? && task.parent.value in tasks then
      var p := task.parent.value;
      s.(tasks := tasks[p := tasks[p].(children := tasks[p].children + [id])])
    else s.(tasks := tasks)
  }

  /** The list without the first `id`. */
  function Without(ids: seq<TaskId>, id: TaskId): seq<TaskId>
  {
    if ids == [] then []
    else if ids[0] == id then ids[1..]
    else [ids[0]] + Without(ids[1..], id)
  }

  /** Takes a task out of the registry and out of its parent's list. */
  function Remove(s: System, id: TaskId): System {
    if id !in s.tasks then s
    else
      var tasks := s.tasks - {id};
      var parent := s.tasks[id].parent;
      if parent.Some? && parent.value in tasks then
        var p := parent.value;
        s.(tasks := tasks[p := tasks[p].(children := Without(tasks[p].children, id))])
      else s.(tasks := tasks)
  }

  // ---- The scheduler

  /** The queue after the current task has been put back, if it is still to run. */
  function Requeued(s: System): seq<TaskId>
    requires s.current in s.tasks
  {
    if s.tasks[s.current].state == User then s.queue + [s.current] else s.queue
  }

  function Next(s: System): TaskId
    requires s.current in s.tasks
  {
    if Requeued(s) == [] then INIT else Requeued(s)[0]
  }

  /**
   Switches to the task at the head of the queue, or to task 1; a dying task is taken out
   of the registry once it has been switched away from.
   */
  function Switch(s: System): System
    requires s.current in s.tasks
  {
    var queue := if Requeued(s) == [] then [] else Requeued(s)[1..];
    var s1 := s.(queue := queue);
    if Next(s) == s.current then s1
    else
      var s2 := s1.(current := Next(s));
      if s.tasks[s.current].state == Dying then Remove(s2, s.current) else s2
  }

  // ---- Tables of the current task

  function SetCaps(s: System, id: TaskId, caps: Table<Held>): System
    requires id in s.tasks
  {
    s.(tasks := s.tasks[id := s.tasks[id].(caps := caps)])
  }

  function SetFiles(s: System, id: TaskId, files: Table<()>): System
    requires id in s.tasks
  {
    s.(tasks := s.tasks[id := s.tasks[id].(files := files)])
  }

  function InsertOrFail(t: Table<Held>, held: Held, room: bool): (Table<Held>, Result<nat>) {
    if room then (t.Insert(held), Ok(t.next)) else (t.Reserve(), Err(NoMemory))
  }

  function Clone(t: Table<Held>, handle: nat, room: bool): (Table<Held>, Result<nat>) {
    match t.Get(handle)
    case None => (t, Err(WrongCapability))
    case Some(held) =>
      if Duplicate !in held.cap.perms then (t, Err(WrongCapabilityPerms)) else InsertOrFail(t, held, room)
  }

  function Restrict(t: Table<Held>, handle: nat, a: nat, b: nat): (Table<Held>, Result<()>) {
    match t.Get(handle)
    case None => (t, Err(WrongCapability))
    case Some(held) =>
      match held.cap.ctype
      case MapPhysical(from, to) =>
        if a > b || a >= PHYSICAL || b >= PHYSICAL || a < from || b > to then (t, Err(WrongParameters))
        else (t.Replace(handle, held.(cap := held.cap.(ctype := MapPhysical(a, b)))), Ok(()))
      case MapVirtualToRam => (t, Err(NotImplemented))
      case _ => (t, Err(WrongParameters))
  }

  function Discard(t: Table<Held>, handle: nat): (Table<Held>, Result<()>) {
    if t.Get(handle).None? then (t, Err(WrongCapability)) else (t.Delete(handle), Ok(()))
  }

  // ---- Calls that reach another task

  datatype Reply<T> = Reply(s: System, result: Result<T>)

  /** The capability goes to the target, if that is a child of the current task. */
  function GiveTo(s: System, proc: TaskId, held: Held, room: bool): Reply<()> {
    if proc !in s.tasks || s.tasks[proc].parent != Some(s.current) then Reply(s, Err(WrongProcess))
    else
      var (caps, result) := InsertOrFail(s.tasks[proc].caps, held, room);
      Reply(SetCaps(s, proc, caps), if result.Ok? then Ok(()) else Err(result.error))
  }

  /** A capability that is transferred is taken from the giver before the target is looked at. */
  function ShareTransfer(s: System, proc: TaskId, handle: nat, transfer: bool, room: bool): Reply<()>
    requires s.current in s.tasks
  {
    var caps := s.tasks[s.current].caps;
    if proc == 0 then Reply(s, Err(WrongParameters))
    else if proc == s.current then Reply(s, Err(WrongProcess))
    else
      match caps.Get(handle)
      case None => Reply(s, Err(WrongCapability))
      case Some(held) =>
        if transfer then GiveTo(SetCaps(s, s.current, caps.Delete(handle)), proc, held, room)
        else if Shareable !in held.cap.perms then Reply(s, Err(WrongCapabilityPerms))
        else GiveTo(s, proc, held, room)
  }

  predicate MaySpawn(caps: Table<Held>) {
    exists i :: 0 <= i < |caps.slots| && caps.slots[i].item.cap.ctype == ProcessSpawn
  }

  const NO_FILES: Table<()> := Table(1, [])

  function NewTask(parent: TaskId): Task {
    Task(Some(parent), [], User, Table(0, []), NO_FILES, 0)
  }

  /** A new task, with the next id. */
  function AddChild(s: System, parent: TaskId): System {
    Add(s, s.nextPid, NewTask(parent)).(nextPid := s.nextPid + 1, ancestry := s.ancestry[s.nextPid := parent])
  }

  function SpawnChild(s: System): Reply<TaskId>
    requires s.current in s.tasks
  {
    if !MaySpawn(s.tasks[s.current].caps) then Reply(s, Err(WrongCapability))
    else Reply(AddChild(s, s.current), Ok(s.nextPid))
  }

  function ExecProgram(s: System, proc: TaskId, fd: nat, program: Program): Reply<()>
    requires s.current in s.tasks
  {
    if proc == 0 then Reply(s, Err(WrongParameters))
    else if proc !in s.tasks || s.tasks[proc].parent != Some(s.current) || s.tasks[proc].entry != 0 then
      Reply(s, Err(WrongProcess))
    else if s.tasks[s.current].files.Get(fd).None? then Reply(s, Err(WrongDescriptor))
    else
      match program
      case Unreadable => Reply(s, Err(NoMemory))
      case NotElf => Reply(s, Err(FsNotExecutable))
      case Image(entry) =>
        Reply(s.(tasks := s.tasks[proc := s.tasks[proc].(entry := entry)], queue := s.queue + [proc]), Ok(()))
  }

  function CapsOf(t: Table<Held>): (c: seq<Capability>)
    ensures |c| == |t.slots|
    ensures forall i | 0 <= i < |c| :: c[i] == t.slots[i].item.cap
    decreases |t.slots|
  {
    if t.slots == [] then [] else [t.slots[0].item.cap] + CapsOf(t.(slots := t.slots[1..]))
  }

  // ---- Steps

  /** Task 1 only idles; the others make system calls. */
  predicate Enabled(s: System, op: Op) {
    s.current in s.tasks && (op.Idle? <==> s.current == INIT)
  }

  function Step(s: System, op: Op): System
    requires Enabled(s, op)
  {
    var task := s.tasks[s.current];
    match op
    case Yield => Switch(s)
    case Idle => Switch(s)
    case Exit => Switch(s.(tasks := s.tasks[s.current := task.(state := Dying)]))
    case Spawn => SpawnChild(s).s
    case Exec(proc, fd, program) => ExecProgram(s, proc, fd, program).s
    case CapClone(handle, room) => SetCaps(s, s.current, Clone(task.caps, handle, room).0)
    case CapRestrict(handle, a, b) => SetCaps(s, s.current, Restrict(task.caps, handle, a, b).0)
    case CapDrop(handle) => SetCaps(s, s.current, Discard(task.caps, handle).0)
    case CapShare(proc, handle, room) => ShareTransfer(s, proc, handle, false, room).s
    case CapTransfer(proc, handle, room) => ShareTransfer(s, proc, handle, true, room).s
    case MapPhys(from, to) =>
      if MayMapPhys(CapsOf(task.caps), from, to) then s.(physical := s.physical + [(from, to)]) else s
    case FileOpen => SetFiles(s, s.current, task.files.Insert(()))
    case FileClose(fd) => SetFiles(s, s.current, task.files.Delete(fd))
  }
}
