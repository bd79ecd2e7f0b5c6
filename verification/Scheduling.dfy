/** What holds of the scheduler over whole runs. */
module Scheduling {
  import opened Wrappers
  import opened HandleTables
  import opened Capabilities
  import opened Sequences
  import opened Tasks
  import opened TaskTree

  /** A run in which task 1 idles and the others make calls. */
  ghost predicate Legal(s: System, ops: seq<Op>)
    decreases |ops|
  {
    ops != [] ==> Enabled(s, ops[0]) && Legal(Step(s, ops[0]), ops[1..])
  }

  /** No program that is started has entry 0. */
  ghost predicate NoZeroEntry(ops: seq<Op>) {
    forall op | op in ops :: !ZeroEntry(op)
  }

  ghost function Run(s: System, ops: seq<Op>): System
    requires Legal(s, ops)
    decreases |ops|
  {
    if ops == [] then s else Run(Step(s, ops[0]), ops[1..])
  }

  lemma {:induction false} RunConcat(s: System, ops: seq<Op>, more: seq<Op>)
    requires Legal(s, ops) && Legal(Run(s, ops), more)
    ensures Legal(s, ops + more) && Run(s, ops + more) == Run(Run(s, ops), more)
    decreases |ops|
  {
    hide Step;
    if ops == [] {
      assert ops + more == more;
    } else {
      RunConcat(Step(s, ops[0]), ops[1..], more);
      assert (ops + more)[1..] == ops[1..] + more;
    }
  }

  lemma {:induction false} RunKeepsInv(s: System, ops: seq<Op>)
    requires Inv(s) && Legal(s, ops) && NoZeroEntry(ops)
    ensures Inv(Run(s, ops))
    decreases |ops|
  {
    hide Inv, Step;
    if ops != [] {
      TaskTree.StepKeepsInv(s, ops[0]);
      RunKeepsInv(Step(s, ops[0]), ops[1..]);
    }
  }

  predicate Switches(op: Op) {
    op.Yield? || op.Idle? || op.Exit?
  }

  function Count(ops: seq<Op>): nat {
    if ops == [] then 0 else (if Switches(ops[0]) then 1 else 0) + Count(ops[1..])
  }

  /** A call of the scheduler moves the queue up by one; other steps only add to its end. */
  lemma {:induction false} StepMovesQueue(s: System, op: Op, k: nat)
    requires Enabled(s, op) && k < |s.queue|
    ensures var s' := Step(s, op);
            if !Switches(op) then s'.current == s.current && k < |s'.queue| && s'.queue[k] == s.queue[k]
            else if k == 0 then s'.current == s.queue[0]
            else k - 1 < |s'.queue| && s'.queue[k - 1] == s.queue[k]
  {
  }

  /**
   After `k` calls of the scheduler, whatever happens in between, the task at position `k`
   of the queue is at its head; the next one makes it current.
   */
  lemma {:induction false} ThenRuns(s: System, ops: seq<Op>, op: Op, k: nat)
    requires Legal(s, ops + [op]) && k < |s.queue|
    requires Count(ops) == k && Switches(op)
    ensures Run(s, ops + [op]).current == s.queue[k]
    decreases |ops|
  {
    hide Step;
    if ops == [] {
      assert ops + [op] == [op] && [op][1..] == [];
      StepMovesQueue(s, op, k);
    } else {
      assert (ops + [op])[0] == ops[0] && (ops + [op])[1..] == ops[1..] + [op];
      StepMovesQueue(s, ops[0], k);
      ThenRuns(Step(s, ops[0]), ops[1..], op, if Switches(ops[0]) then k - 1 else k);
    }
  }

  /** Until then it waits, one position nearer for each call. */
  lemma {:induction false} StillQueued(s: System, ops: seq<Op>, k: nat)
    requires Legal(s, ops) && k < |s.queue| && Count(ops) <= k
    ensures var queue := Run(s, ops).queue;
            k - Count(ops) < |queue| && queue[k - Count(ops)] == s.queue[k]
    decreases |ops|
  {
    hide Step;
    if ops != [] {
      StepMovesQueue(s, ops[0], k);
      StillQueued(Step(s, ops[0]), ops[1..], if Switches(ops[0]) then k - 1 else k);
    }
  }

  /** It does not run before: no task is in the queue twice. */
  lemma {:induction false} StillWaiting(s: System, ops: seq<Op>, k: nat)
    requires Inv(s) && Legal(s, ops) && NoZeroEntry(ops) && k < |s.queue| && Count(ops) <= k
    ensures Run(s, ops).current != s.queue[k]
  {
    hide Family, Registered, Started, Step, Run;
    RunKeepsInv(s, ops);
    StillQueued(s, ops, k);
    var s' := Run(s, ops);
    assert s'.queue[k - Count(ops)] in s'.queue;
  }

  /** A task that runs or waits keeps running or waiting until it exits. */
  lemma {:induction false} StepLosesNoTask(s: System, op: Op, id: TaskId)
    requires Inv(s) && Enabled(s, op) && Active(s, id) && id != INIT
    requires op.Exit? ==> id != s.current
    ensures Active(Step(s, op), id)
  {
    hide Family, Registered, Started;
    if id in s.queue {
      var k :| 0 <= k < |s.queue| && s.queue[k] == id;
      StepMovesQueue(s, op, k);
    } else if Switches(op) {
      StaysAtEnd(s, op);
    }
  }

  lemma {:induction false} StaysAtEnd(s: System, op: Op)
    requires Inv(s) && Enabled(s, op) && s.current != INIT && op.Yield?
    ensures Active(Step(s, op), s.current)
  {
    assert Requeued(s) == s.queue + [s.current];
    if s.queue != [] {
      var queue := Requeued(s)[1..];
      assert queue[|queue| - 1] == s.current;
    }
  }

  /** Whether the task leaves during the run. */
  ghost predicate Leaves(s: System, ops: seq<Op>, id: TaskId)
    requires Legal(s, ops)
    decreases |ops|
  {
    ops != [] && ((ops[0].Exit? && s.current == id) || Leaves(Step(s, ops[0]), ops[1..], id))
  }

  lemma {:induction false} NoTaskIsLost(s: System, ops: seq<Op>, id: TaskId)
    requires Inv(s) && Legal(s, ops) && NoZeroEntry(ops) && Active(s, id) && id != INIT && !Leaves(s, ops, id)
    ensures Active(Run(s, ops), id) && id in Run(s, ops).tasks
    decreases |ops|
  {
    hide Family, Started, Step;
    if ops == [] {
      assert id in s.tasks;
    } else {
      StepLosesNoTask(s, ops[0], id);
      TaskTree.StepKeepsInv(s, ops[0]);
      NoTaskIsLost(Step(s, ops[0]), ops[1..], id);
    }
  }

  /** A switch goes nowhere exactly when no other task waits and this one may go on. */
  lemma {:induction false} SwitchStays(s: System)
    requires Inv(s)
    ensures Next(s) in s.tasks
    ensures Next(s) == s.current <==> s.queue == []
    ensures Next(s) == s.current ==> Switch(s) == s
  {
  }
}
