/**
 What starting a program does whose first instruction is at address 0: the task still looks
 as if it had not been started.
 */
module ZeroEntries {
  import opened Wrappers
  import opened HandleTables
  import opened Capabilities
  import opened Sequences
  import opened Tasks
  import opened TaskTree
  import opened Scheduling
  import Confinement

  /** Started again, with any program, the task is in the queue twice. */
  lemma {:induction false} ZeroEntryTwice(s: System, proc: TaskId, fd: nat, program: Program)
    requires Inv(s) && s.current != INIT && Runs(s, proc, fd, Image(0)) && program.Image?
    ensures var once := ExecProgram(s, proc, fd, Image(0)).s;
            && Enabled(once, Exec(proc, fd, program))
            && !NoDuplicates(Step(once, Exec(proc, fd, program)).queue)
  {
    ExecTarget(s, proc, fd, Image(0));
    var once := ExecProgram(s, proc, fd, Image(0)).s;
    var q := Step(once, Exec(proc, fd, program)).queue;
    assert q == s.queue + [proc] + [proc];
    assert q[|s.queue|] == q[|s.queue| + 1];
  }

  /**
   Starting a program keeps the queue right, whatever programs with other entries are
   started later, exactly when its entry is not address 0.
   */
  lemma {:induction false} ExecExactly(s: System, proc: TaskId, fd: nat, program: Program)
    requires Inv(s) && s.current != INIT && Runs(s, proc, fd, program)
    ensures var s' := ExecProgram(s, proc, fd, program).s;
            (forall ops | Legal(s', ops) && NoZeroEntry(ops) :: Queued(Run(s', ops))) <==> program.entry != 0
  {
    InvIsRegistered(s);
    hide Inv;
    var s' := ExecProgram(s, proc, fd, program).s;
    if program.entry != 0 {
      ExecKeepsInv(s, proc, fd, program);
      forall ops | Legal(s', ops) && NoZeroEntry(ops) ensures Queued(Run(s', ops)) {
        RunKeepsInv(s', ops);
        InvIsRegistered(Run(s', ops));
      }
    } else {
      var op := Exec(proc, fd, Image(1));
      ZeroEntryTwice(s, proc, fd, Image(1));
      OneStep(s', op);
      assert Legal(s', [op]) && NoZeroEntry([op]) && !Queued(Run(s', [op]));
    }
  }

  lemma {:induction false} InvIsRegistered(s: System)
    requires Inv(s)
    ensures Queued(s) && s.current in s.tasks
  {
  }

  lemma {:induction false} OneStep(s: System, op: Op)
    requires Enabled(s, op)
    ensures Legal(s, [op]) && Run(s, [op]) == Step(s, op)
  {
    assert [op][1..] == [];
    assert Legal(Step(s, op), []);
  }

  // ---- A run in which the switch fails

  const SPAWNER: seq<Capability> := [Capability({}, ProcessSpawn)]

  /** Task 2 runs alone, may make tasks, and has made those up to the next id. */
  ghost predicate Opening(s: System, tasks: set<TaskId>) {
    && s.tasks.Keys == tasks && 2 in tasks && s.nextPid !in tasks
    && s.current == 2 && s.queue == []
    && MaySpawn(s.tasks[2].caps) && s.tasks[2].state == User && s.tasks[2].files == NO_FILES
    && forall id | id in tasks && id > 2 :: s.tasks[id] == NewTask(2)
  }

  lemma {:induction false} BootScene()
    ensures Enabled(Confinement.Boot(SPAWNER), Idle)
    ensures var s := Step(Confinement.Boot(SPAWNER), Idle); Opening(s, {1, 2}) && s.nextPid == 3
  {
    var s := Confinement.Boot(SPAWNER);
    assert s.tasks[2].caps.slots[0].item.cap.ctype == ProcessSpawn;
    assert Requeued(s) == [2];
    assert Step(s, Idle) == s.(queue := [], current := 2);
  }

  lemma {:induction false} SpawnScene(s: System, tasks: set<TaskId>)
    requires Opening(s, tasks) && s.nextPid > 2
    ensures Enabled(s, Spawn)
    ensures var s' := Step(s, Spawn);
            s'.nextPid == s.nextPid + 1 && (s'.nextPid !in tasks ==> Opening(s', tasks + {s.nextPid}))
  {
  }

  /** Tasks 1 and 2, and the children 3 and 4 of task 2, with the entries of those. */
  ghost predicate Scene(s: System, queue: seq<TaskId>, e3: nat, e4: nat) {
    && s.tasks.Keys == {1, 2, 3, 4} && s.current == 2 && s.queue == queue
    && (forall id | id in s.tasks && id != INIT :: s.tasks[id].state == User)
    && s.tasks[2].files.Get(1).Some?
    && s.tasks[3].parent == Some(2) && s.tasks[3].entry == e3
    && s.tasks[4].parent == Some(2) && s.tasks[4].entry == e4
  }

  lemma {:induction false} OpenScene(s: System)
    requires Opening(s, {1, 2, 3, 4})
    ensures Enabled(s, FileOpen) && Scene(Step(s, FileOpen), [], 0, 0)
  {
    InsertGet(NO_FILES, (), 1);
  }

  lemma {:induction false} StartScene(s: System, queue: seq<TaskId>, e3: nat, e4: nat, proc: TaskId, entry: nat)
    requires Scene(s, queue, e3, e4) && (proc == 3 || proc == 4) && (if proc == 3 then e3 else e4) == 0
    ensures Enabled(s, Exec(proc, 1, Image(entry)))
    ensures Scene(Step(s, Exec(proc, 1, Image(entry))), queue + [proc],
                  if proc == 3 then entry else e3, if proc == 4 then entry else e4)
  {
  }

  lemma {:induction false} LastScene(s: System)
    requires Scene(s, [3, 4, 3], 1, 1)
    ensures Enabled(s, Yield) && Enabled(Step(s, Yield), Exit)
    ensures var s' := Step(Step(s, Yield), Exit); s'.current in s'.tasks && Next(s') !in s'.tasks
  {
    var s1 := Step(s, Yield);
    assert Requeued(s) == [3, 4, 3, 2];
    assert s1.current == 3 && s1.queue == [4, 3, 2] && s1.tasks == s.tasks;
    var dying := s1.(tasks := s1.tasks[3 := s1.tasks[3].(state := Dying)]);
    assert Requeued(dying) == [4, 3, 2];
    RemoveKeepsOthers(dying.(queue := [3, 2], current := 4), 3);
  }

  lemma {:induction false} Then(s: System, ops: seq<Op>, s': System, op: Op)
    requires Legal(s, ops) && Run(s, ops) == s' && Enabled(s', op)
    ensures Legal(s, ops + [op]) && Run(s, ops + [op]) == Step(s', op)
  {
    hide Step;
    OneStep(s', op);
    RunConcat(s, ops, [op]);
  }

  /**
   The init process makes two tasks; it starts one of them with entry 0, then the other
   one, then the first one again. That task runs and exits, and is still in the queue.
   */
  lemma {:induction false} StoryToTheEnd() returns (ops: seq<Op>, s: System)
    ensures Legal(Confinement.Boot(SPAWNER), ops) && Run(Confinement.Boot(SPAWNER), ops) == s
    ensures Scene(s, [3, 4, 3], 1, 1)
  {
    hide Step, Legal, Run, Scene, Opening, Confinement.Boot, Enabled;
    var boot := Confinement.Boot(SPAWNER);
    BootScene();
    Nothing(boot);
    ops, s := [], boot;
    Then(boot, ops, s, Idle);
    ops, s := ops + [Idle], Step(s, Idle);
    SpawnScene(s, {1, 2});
    Then(boot, ops, s, Spawn);
    ops, s := ops + [Spawn], Step(s, Spawn);
    assert {1, 2} + {3} == {1, 2, 3};
    SpawnScene(s, {1, 2, 3});
    Then(boot, ops, s, Spawn);
    ops, s := ops + [Spawn], Step(s, Spawn);
    assert {1, 2, 3} + {4} == {1, 2, 3, 4};
    OpenScene(s);
    Then(boot, ops, s, FileOpen);
    ops, s := ops + [FileOpen], Step(s, FileOpen);
    ops, s := Start(boot, ops, s, [], 0, 0, 3, 0);
    ops, s := Start(boot, ops, s, [] + [3], 0, 0, 4, 1);
    ops, s := Start(boot, ops, s, [] + [3] + [4], 0, 1, 3, 1);
    assert [] + [3] + [4] + [3] == [3, 4, 3];
  }

  lemma {:induction false} Nothing(s: System)
    ensures Legal(s, []) && Run(s, []) == s
  {
  }

  lemma {:induction false} Start(boot: System, ops: seq<Op>, s: System, queue: seq<TaskId>, e3: nat, e4: nat,
                                 proc: TaskId, entry: nat) returns (ops': seq<Op>, s': System)
    requires Legal(boot, ops) && Run(boot, ops) == s
    requires Scene(s, queue, e3, e4) && (proc == 3 || proc == 4) && (if proc == 3 then e3 else e4) == 0
    ensures Legal(boot, ops') && Run(boot, ops') == s'
    ensures Scene(s', queue + [proc], if proc == 3 then entry else e3, if proc == 4 then entry else e4)
  {
    hide Step, Legal, Run, Scene, Enabled;
    var op := Exec(proc, 1, Image(entry));
    StartScene(s, queue, e3, e4, proc, entry);
    Then(boot, ops, s, op);
    ops', s' := ops + [op], Step(s, op);
  }

  /** A run from the start after which the lookup in the next switch fails, and the kernel panics. */
  lemma {:induction false} SwitchFails() returns (ops: seq<Op>)
    ensures Legal(Confinement.Boot(SPAWNER), ops)
    ensures var s := Run(Confinement.Boot(SPAWNER), ops); s.current in s.tasks && Next(s) !in s.tasks
  {
    hide Step, Legal, Run, Scene, Confinement.Boot, Enabled;
    var boot, s := Confinement.Boot(SPAWNER), Confinement.Boot(SPAWNER);
    ops, s := StoryToTheEnd();
    LastScene(s);
    Then(boot, ops, s, Yield);
    ops, s := ops + [Yield], Step(s, Yield);
    Then(boot, ops, s, Exit);
    ops := ops + [Exit];
  }
}
