/** The descriptors of open files, over runs of the whole system. */
module Descriptors {
  import opened Wrappers
  import opened HandleTables
  import opened Capabilities
  import opened Tasks
  import Scheduling
  import Confinement

  ghost predicate FileTables(s: System) {
    forall id | id in s.tasks :: s.tasks[id].files.Valid()
  }

  /** A descriptor of a task that is past its use; the task may have gone as well. */
  ghost predicate Closed(s: System, id: TaskId, fd: nat) {
    && id < s.nextPid
    && (id in s.tasks ==> fd < s.tasks[id].files.next && s.tasks[id].files.Get(fd) == None)
  }

  lemma {:induction false} StepKeepsClosed(s: System, op: Op, id: TaskId, fd: nat)
    requires Enabled(s, op) && FileTables(s) && Closed(s, id, fd)
    ensures FileTables(Step(s, op)) && Closed(Step(s, op), id, fd)
  {
    hide Table<()>.Get, Table<()>.Insert, Table<()>.Delete, Table<()>.Valid, Clone, Restrict, Discard, CapsOf,
         InsertOrFail, MaySpawn, Without;
    EmptyFiles();
    var files := s.tasks[s.current].files;
    match op
    case FileOpen =>
      assert files.Valid();
      InsertIsUpdate(files, ());
      InsertGet(files, (), fd);
      NextAfterInsert(files);
    case FileClose(other) =>
      assert files.Valid();
      DeleteIsRemoval(files, other);
      DeleteGet(files, other, fd);
    case _ =>
  }

  lemma {:induction false} NextAfterInsert(t: Table<()>)
    ensures t.Insert(()).next == t.next + 1
  {
  }

  lemma {:induction false} EmptyFiles()
    ensures NO_FILES.Valid()
  {
  }

  /** A descriptor that was closed never resolves again, for that task. */
  lemma {:induction false} ClosedForever(s: System, ops: seq<Op>, id: TaskId, fd: nat)
    requires FileTables(s) && Scheduling.Legal(s, ops) && Closed(s, id, fd)
    ensures var t := Scheduling.Run(s, ops); Closed(t, id, fd)
    decreases |ops|
  {
    hide Step, FileTables, Closed;
    if ops != [] {
      StepKeepsClosed(s, ops[0], id, fd);
      ClosedForever(Step(s, ops[0]), ops[1..], id, fd);
    }
  }

  /** Closing a descriptor that is open puts it past its use. */
  lemma {:induction false} CloseCloses(s: System, fd: nat)
    requires Enabled(s, FileClose(fd)) && FileTables(s) && s.current < s.nextPid
    requires s.tasks[s.current].files.Get(fd).Some?
    ensures Closed(Step(s, FileClose(fd)), s.current, fd)
  {
    hide Table<()>.Get, Table<()>.Delete, Table<()>.Valid;
    var files := s.tasks[s.current].files;
    assert files.Valid();
    GetBelowNext(files, fd);
    DeleteIsRemoval(files, fd);
    DeleteGet(files, fd, fd);
  }

  lemma {:induction false} GetBelowNext(t: Table<()>, fd: nat)
    requires t.Valid() && t.Get(fd).Some?
    ensures fd < t.next
  {
  }

  lemma {:induction false} BootFiles(caps: seq<Capability>)
    ensures FileTables(Confinement.Boot(caps))
  {
  }
}
