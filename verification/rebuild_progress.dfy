/** Progress of the rebuild protocol: exactly when work that has begun can get stuck, and what it ends with
    otherwise. */
module RebuildProgress {
  import opened Text
  import opened Model
  import opened Cache
  import opened RebuildProtocol

  // ----- Progress -----

  predicate Quiescent(s: State) {
    forall t :: 0 <= t < |s.tasks| ==> s.tasks[t].phase.Idle? && !s.tasks[t].owes
  }

  /** A step of work already begun; starting the rebuild that is owed is one. */
  predicate Continues(s: State, a: Action) {
    Enabled(s, a) && (a.Begin? ==> a.job == Collect(0) && s.tasks[a.task].owes)
  }

  /** A task that is not idle and asks for no lock can move by itself. */
  lemma CanMove(s: State, t: nat) returns (a: Action)
    requires t < |s.tasks| && !s.tasks[t].phase.Idle? && Wants(s.tasks[t].phase).None?
    ensures Continues(s, a)
  {
    match s.tasks[t].phase
    case MayWrite(_) => a := Change(t, s.src);
    case Pass1(pending, _) =>
      if pending == {} { a := Advance(t); } else { var ip :| ip in pending; a := Insert(t, ip); }
    case Pass2(pending, _) =>
      if pending == {} { a := Advance(t); } else { var ip :| ip in pending; a := Insert(t, ip); }
    case _ => a := Advance(t);
  }

  /** All tasks but debug requests ask for locks in one order: identity, BMH, containers, namespaces. */
  lemma LockOrder(p: Phase, lock: nat)
    requires ValidPhase(p) && Wants(p).Some? && Holds(p, lock).Some? && !p.DebugRead?
    ensures lock < Wants(p).value.lock < LOCKS
  {
  }

  /** Nothing that has begun can go on. */
  ghost predicate Exhausted(s: State) {
    forall a :: !Continues(s, a)
  }

  ghost predicate Stuck(s: State) {
    !Quiescent(s) && Exhausted(s)
  }

  predicate WantsWrite(s: State, t: nat, lock: nat) {
    t < |s.tasks| && Wants(s.tasks[t].phase) == Some(Request(lock, Write))
  }

  /** The task waits for the lock behind a writer. */
  predicate BehindWriter(s: State, t: nat, lock: nat)
    requires lock < |s.queues|
  {
    exists i, j :: 0 <= i < j < |s.queues[lock]| && s.queues[lock][j] == t && WantsWrite(s, s.queues[lock][i], lock)
  }

  /** A debug request d holds lock n and waits for the lower lock m; a rebuild or lookup f holds m and waits for n;
      each waits behind a writer. */
  predicate CrossedBy(s: State, d: nat, f: nat, n: nat, m: nat)
    requires |s.queues| == LOCKS
  {
    && m < n < 3 && d < |s.tasks| && f < |s.tasks|
    && s.tasks[d].phase.DebugRead? && (s.tasks[f].phase.Collect? || s.tasks[f].phase.OnDemandLookup?)
    && Holds(s.tasks[d].phase, n) == Some(Read) && BehindWriter(s, d, m)
    && Holds(s.tasks[f].phase, m) == Some(Read) && BehindWriter(s, f, n)
  }

  predicate Crossed(s: State) {
    |s.queues| == LOCKS && exists d, f, n, m ::
      0 <= m < n < 3 && 0 <= d < |s.tasks| && 0 <= f < |s.tasks| && CrossedBy(s, d, f, n, m)
  }

  /** When nothing can go on, every task is idle or waits in a queue. */
  lemma StuckWaits(s: State, t: nat)
    requires Shaped(s) && Stuck(s) && t < |s.tasks|
    ensures s.tasks[t].phase.Idle? || (Wants(s.tasks[t].phase).Some? && s.tasks[t].queued)
  {
    if !s.tasks[t].phase.Idle? {
      if Wants(s.tasks[t].phase).None? {
        var a := CanMove(s, t);
      } else if !s.tasks[t].queued {
        AskContinues(s, t);
      }
    }
  }

  lemma AskContinues(s: State, t: nat)
    requires Shaped(s) && t < |s.tasks| && Wants(s.tasks[t].phase).Some? && !s.tasks[t].queued
    ensures Continues(s, Ask(t))
  {
  }

  lemma RebuildContinues(s: State, t: nat)
    requires t < |s.tasks| && s.tasks[t].phase.Idle? && s.tasks[t].owes
    ensures Continues(s, Begin(t, Collect(0)))
  {
  }

  /** Then the head of a queue waits for a holder that waits itself. */
  lemma StuckHolder(s: State, lock: nat) returns (u: nat)
    requires Shaped(s) && QueuesRight(s) && Stuck(s) && lock < LOCKS && s.queues[lock] != []
    ensures u < |s.tasks| && Holds(s.tasks[u].phase, lock).Some? && s.tasks[u].queued
    ensures Wants(s.tasks[u].phase).Some? && s.queues[Wants(s.tasks[u].phase).value.lock] != []
    ensures Holds(s.tasks[u].phase, lock).value.Write? || WantsWrite(s, s.queues[lock][0], lock)
  {
    var head := s.queues[lock][0];
    assert !Continues(s, Grant(lock));
    u :| 0 <= u < |s.tasks| && Holds(s.tasks[u].phase, lock).Some?
         && !(Holds(s.tasks[u].phase, lock).value.Read? && Wants(s.tasks[head].phase).value.mode.Read?);
    StuckWaits(s, u);
  }

  lemma NamespacesFree(s: State)
    requires Shaped(s) && QueuesRight(s) && Stuck(s)
    ensures s.queues[NAMESPACES] == []
  {
    if s.queues[NAMESPACES] != [] { var u := StuckHolder(s, NAMESPACES); }
  }

  /** The holder is a reader: a rebuild or lookup that waits for a higher lock, or a debug request that waits for a
      lower one. Whoever else waits for the lock is behind a writer. */
  lemma StuckReader(s: State, lock: nat) returns (u: nat)
    requires Shaped(s) && QueuesRight(s) && Stuck(s) && lock < 3 && s.queues[lock] != []
    ensures WantsWrite(s, s.queues[lock][0], lock)
    ensures u < |s.tasks| && Holds(s.tasks[u].phase, lock) == Some(Read) && s.tasks[u].queued
    ensures s.tasks[u].phase.Collect? || s.tasks[u].phase.OnDemandLookup? || s.tasks[u].phase.DebugRead?
    ensures Wants(s.tasks[u].phase).Some? && Wants(s.tasks[u].phase).value.mode.Read?
    ensures var w := Wants(s.tasks[u].phase).value.lock;
      w < 3 && s.queues[w] != [] && if s.tasks[u].phase.DebugRead? then w < lock else lock < w
  {
    u := StuckHolder(s, lock);
    NamespacesFree(s);
    assert !s.tasks[u].phase.WantNamespaces?;
  }

  /** A reader in a queue whose head is a writer is behind it. */
  lemma ReaderBehind(s: State, t: nat, lock: nat)
    requires Shaped(s) && QueuesRight(s) && t < |s.tasks| && s.tasks[t].queued
    requires Wants(s.tasks[t].phase) == Some(Request(lock, Read)) && lock < LOCKS
    requires s.queues[lock] != [] && WantsWrite(s, s.queues[lock][0], lock)
    ensures BehindWriter(s, t, lock)
  {
    var j :| 0 <= j < |s.queues[lock]| && s.queues[lock][j] == t;
    assert j != 0;
  }

  lemma CrossingFound(s: State, d: nat, f: nat)
    requires Shaped(s) && QueuesRight(s) && Stuck(s) && d < |s.tasks| && f < |s.tasks|
    requires s.tasks[d].phase.DebugRead? && (s.tasks[f].phase.Collect? || s.tasks[f].phase.OnDemandLookup?)
    requires s.tasks[d].queued && s.tasks[f].queued
    requires var m, n := Wants(s.tasks[d].phase).value.lock, Wants(s.tasks[f].phase).value.lock;
      m < n && Holds(s.tasks[d].phase, n).Some? && Holds(s.tasks[f].phase, m).Some?
    ensures Crossed(s)
  {
    var m, n := Wants(s.tasks[d].phase).value.lock, Wants(s.tasks[f].phase).value.lock;
    var _ := StuckReader(s, m);
    var _ := StuckReader(s, n);
    ReaderBehind(s, d, m);
    ReaderBehind(s, f, n);
    assert CrossedBy(s, d, f, n, m);
  }

  lemma StuckAtIdentity(s: State, d: nat)
    requires Shaped(s) && QueuesRight(s) && Stuck(s) && d < |s.tasks| && s.tasks[d].queued
    requires s.tasks[d].phase == DebugRead(2) && s.queues[IDENTITY] != []
    ensures Crossed(s)
  {
    var f := StuckReader(s, IDENTITY);
    CrossingFound(s, d, f);
  }

  /** A debug request holds the containers and waits for the hosts. */
  lemma StuckAtBmh(s: State, d: nat)
    requires Shaped(s) && QueuesRight(s) && Stuck(s) && d < |s.tasks| && s.tasks[d].queued
    requires s.tasks[d].phase == DebugRead(1) && s.queues[BMH] != []
    ensures Crossed(s)
  {
    var u := StuckReader(s, BMH);
    if s.tasks[u].phase.DebugRead? {
      StuckAtIdentity(s, u);
    } else {
      CrossingFound(s, d, u);
    }
  }

  lemma SomethingWaits(s: State)
    requires Shaped(s) && QueuesRight(s) && Stuck(s)
    ensures s.queues[IDENTITY] != [] || s.queues[BMH] != [] || s.queues[CONTAINERS] != []
  {
    NamespacesFree(s);
    var t :| 0 <= t < |s.tasks| && !(s.tasks[t].phase.Idle? && !s.tasks[t].owes);
    StuckWaits(s, t);
    if s.tasks[t].phase.Idle? { RebuildContinues(s, t); }
  }

  /** The only way to be stuck is a crossing of a debug request with a rebuild or a lookup. */
  lemma StuckIsCrossed(s: State)
    requires Shaped(s) && QueuesRight(s) && Stuck(s)
    ensures Crossed(s)
  {
    SomethingWaits(s);
    if s.queues[CONTAINERS] != [] {
      var d := StuckReader(s, CONTAINERS);
      if s.tasks[d].phase == DebugRead(1) { StuckAtBmh(s, d); } else { StuckAtIdentity(s, d); }
    } else if s.queues[BMH] != [] {
      var d := StuckReader(s, BMH);
      StuckAtIdentity(s, d);
    } else {
      var f := StuckReader(s, IDENTITY);
    }
  }

  /** No deadlock without a crossing: while anything is unfinished, some task can take a step. */
  lemma NoDeadlock(s: State) returns (a: Action)
    requires Shaped(s) && QueuesRight(s) && !Crossed(s) && !Quiescent(s)
    ensures Continues(s, a)
  {
    if Exhausted(s) { StuckIsCrossed(s); }
    a :| Continues(s, a);
  }

  // ----- A crossing is for good -----

  /** A writer cannot be granted a lock that someone holds. */
  lemma WriterWaits(setup: Setup, s: State, lock: nat, i: nat, holder: nat)
    requires Shaped(s) && QueuesRight(s) && lock < LOCKS
    requires i < |s.queues[lock]| && WantsWrite(s, s.queues[lock][i], lock)
    requires holder < |s.tasks| && Holds(s.tasks[holder].phase, lock).Some?
    ensures Enabled(s, Grant(lock)) ==> i > 0
  {
  }

  lemma ShiftedBehind(s: State, s': State, t: nat, lock: nat, i: nat, j: nat)
    requires lock < |s.queues| && lock < |s'.queues| && 0 < i < j < |s.queues[lock]| && s.queues[lock][j] == t
    requires s'.queues[lock] == s.queues[lock][1..]
    requires WantsWrite(s', s.queues[lock][i], lock)
    ensures BehindWriter(s', t, lock)
  {
    assert s'.queues[lock][i - 1] == s.queues[lock][i] && s'.queues[lock][j - 1] == t;
  }

  lemma LongerBehind(s: State, s': State, t: nat, lock: nat, i: nat, j: nat)
    requires lock < |s.queues| && lock < |s'.queues| && i < j < |s.queues[lock]| && s.queues[lock][j] == t
    requires s.queues[lock] <= s'.queues[lock]
    requires WantsWrite(s', s.queues[lock][i], lock)
    ensures BehindWriter(s', t, lock)
  {
    assert s'.queues[lock][i] == s.queues[lock][i] && s'.queues[lock][j] == t;
  }

  /** Only the head of a queue acts while it waits. */
  lemma WaitingDoNotAct(s: State, a: Action, lock: nat, i: nat)
    requires Shaped(s) && QueuesRight(s) && Enabled(s, a) && lock < LOCKS && i < |s.queues[lock]|
    requires a == Grant(lock) ==> i > 0
    ensures Actor(s, a) != s.queues[lock][i]
  {
    assert s.tasks[s.queues[lock][i]].queued;
  }

  lemma QueueAfter(setup: Setup, s: State, a: Action, lock: nat)
    requires Shaped(s) && Enabled(s, a) && lock < LOCKS
    ensures var s' := Apply(setup, s, a);
      |s'.queues| == LOCKS
      && if a == Grant(lock) then s'.queues[lock] == s.queues[lock][1..] else s.queues[lock] <= s'.queues[lock]
  {
  }

  /** A task that waits behind a writer stays there as long as someone holds the lock. */
  lemma StaysBehind(setup: Setup, s: State, a: Action, t: nat, lock: nat, holder: nat)
    requires Shaped(s) && QueuesRight(s) && Enabled(s, a) && lock < LOCKS && t < |s.tasks| && BehindWriter(s, t, lock)
    requires holder < |s.tasks| && Holds(s.tasks[holder].phase, lock).Some?
    ensures var s' := Apply(setup, s, a);
      |s'.queues| == LOCKS && |s'.tasks| == |s.tasks| && s'.tasks[t] == s.tasks[t] && BehindWriter(s', t, lock)
  {
    var s', queue := Apply(setup, s, a), s.queues[lock];
    var i, j :| 0 <= i < j < |queue| && queue[j] == t && WantsWrite(s, queue[i], lock);
    WriterWaits(setup, s, lock, i, holder);
    WaitingDoNotAct(s, a, lock, i);
    WaitingDoNotAct(s, a, lock, j);
    ActorOnly(setup, s, a);
    QueueAfter(setup, s, a, lock);
    if a == Grant(lock) {
      ShiftedBehind(s, s', t, lock, i, j);
    } else {
      LongerBehind(s, s', t, lock, i, j);
    }
  }

  lemma CrossedStep(setup: Setup, s: State, a: Action, d: nat, f: nat, n: nat, m: nat)
    requires Shaped(s) && QueuesRight(s) && Enabled(s, a) && CrossedBy(s, d, f, n, m)
    ensures |Apply(setup, s, a).queues| == LOCKS && CrossedBy(Apply(setup, s, a), d, f, n, m)
    ensures Apply(setup, s, a).tasks[d] == s.tasks[d] && Apply(setup, s, a).tasks[f] == s.tasks[f]
  {
    StaysBehind(setup, s, a, d, m, f);
    StaysBehind(setup, s, a, f, n, d);
  }

  /** Whatever happens after a crossing, the two tasks stay as they are. */
  lemma {:induction false} CrossedForGood(setup: Setup, states: seq<State>, actions: seq<Action>, i: nat,
                                          d: nat, f: nat, n: nat, m: nat)
    requires Steps(setup, states, actions) && i < |states|
    requires Shaped(states[0]) && QueuesRight(states[0]) && CrossedBy(states[0], d, f, n, m)
    ensures Shaped(states[i]) && QueuesRight(states[i]) && CrossedBy(states[i], d, f, n, m)
    ensures states[i].tasks[d] == states[0].tasks[d] && states[i].tasks[f] == states[0].tasks[f]
    ensures !Quiescent(states[i])
  {
    if i > 0 {
      CrossedForGood(setup, states, actions, i - 1, d, f, n, m);
      QueuesStep(setup, states[i - 1], actions[i - 1]);
      CrossedStep(setup, states[i - 1], actions[i - 1], d, f, n, m);
    }
    assert !states[i].tasks[d].phase.Idle?;
  }

  // ----- Termination -----

  /** Changes a task has still to make. */
  function Changes(task: Task): nat {
    if task.phase.WantWrite? || task.phase.MayWrite? then 1 else 0
  }

  function RebuildCost(setup: Setup, src: Sources): nat {
    setup.shards + |src.bmh.ipToHostname| + |src.containers.ipToContainer| + 7
  }

  /** An upper bound on the steps a task has still to take while the sources do not change. */
  function Rank(setup: Setup, src: Sources, p: Phase): nat {
    match p
    case Idle => 0
    case WantWrite(_) => 2
    case MayWrite(_) => 1
    case Wrote(_, stored) => if stored then 1 else 6
    case WantNamespaces => 5
    case HoldNamespaces => 2
    case Collect(h) => RebuildCost(setup, src) + if h < 3 then 3 - h else 0
    case Clearing(i, snap) =>
      6 + |snap.containers.ipToContainer| + |snap.bmh.ipToHostname| + (if i < setup.shards then setup.shards - i else 0)
    case Pass1(pending, snap) => 5 + |snap.containers.ipToContainer| + |pending|
    case Pass2(pending, _) => 4 + |pending|
    case OnDemandLookup(h) => if h < 3 then 7 - h else 4
    case Releasing(h) => h
    case WantRead(_) => 2
    case Reading(_) => 1
    case DebugRead(h) => if h < 3 then 7 - h else 4
    case DebugDone(h) => h
  }

  /** Twice the rank, plus one for a request not yet made; a rebuild owed counts in full. */
  function Weight(setup: Setup, src: Sources, task: Task): nat {
    2 * Rank(setup, src, task.phase)
    + (if Wants(task.phase).Some? && !task.queued then 1 else 0)
    + (if task.owes && !task.phase.Collect? then 2 * RebuildCost(setup, src) + 8 else 0)
  }

  function TotalChanges(tasks: seq<Task>): nat {
    if tasks == [] then 0 else Changes(tasks[0]) + TotalChanges(tasks[1..])
  }

  function TotalWeight(setup: Setup, src: Sources, tasks: seq<Task>): nat {
    if tasks == [] then 0 else Weight(setup, src, tasks[0]) + TotalWeight(setup, src, tasks[1..])
  }

  lemma {:induction false} TotalChangesUpdate(tasks: seq<Task>, t: nat, task: Task)
    requires t < |tasks|
    ensures TotalChanges(tasks[t := task]) == TotalChanges(tasks) - Changes(tasks[t]) + Changes(task)
  {
    if t > 0 {
      TotalChangesUpdate(tasks[1..], t - 1, task);
      assert tasks[t := task][1..] == tasks[1..][t - 1 := task];
    }
  }

  lemma {:induction false} TotalWeightUpdate(setup: Setup, src: Sources, tasks: seq<Task>, t: nat, task: Task)
    requires t < |tasks|
    ensures TotalWeight(setup, src, tasks[t := task]) ==
            TotalWeight(setup, src, tasks) - Weight(setup, src, tasks[t]) + Weight(setup, src, task)
  {
    if t > 0 {
      TotalWeightUpdate(setup, src, tasks[1..], t - 1, task);
      assert tasks[t := task][1..] == tasks[1..][t - 1 := task];
    }
  }

  lemma GrantLighter(setup: Setup, src: Sources, p: Phase, owes: bool)
    requires ValidPhase(p) && Wants(p).Some?
    ensures var q := Granted(p, src);
      && Changes(Task(q, owes && !Working(q), false)) == Changes(Task(p, owes, true))
      && Weight(setup, src, Task(q, owes && !Working(q), false)) < Weight(setup, src, Task(p, owes, true))
  {
  }

  lemma AdvanceLighter(setup: Setup, src: Sources, task: Task)
    requires ValidPhase(task.phase) && CanAdvance(task) && !task.queued
    requires Working(task.phase) ==> task.phase.snap == src
    ensures var next := task.(phase := Advanced(task.phase, setup.shards));
      Changes(next) == Changes(task) && Weight(setup, src, next) < Weight(setup, src, task)
  {
    assert |src.bmh.ipToHostname.Keys| == |src.bmh.ipToHostname|;
    assert |src.containers.ipToContainer.Keys| == |src.containers.ipToContainer|;
  }

  lemma ActorLighter(setup: Setup, s: State, a: Action)
    requires Shaped(s) && QueuesRight(s) && SnapshotsCurrent(s) && Continues(s, a) && !a.Change?
    ensures var t, s' := Actor(s, a), Apply(setup, s, a);
      && s'.src == s.src
      && Changes(s'.tasks[t]) == Changes(s.tasks[t])
      && Weight(setup, s.src, s'.tasks[t]) < Weight(setup, s.src, s.tasks[t])
  {
    var t := Actor(s, a);
    match a
    case Begin(_, _) =>
    case Ask(_) =>
    case Grant(_) => GrantLighter(setup, s.src, s.tasks[t].phase, s.tasks[t].owes);
    case StoreNamespaces(_) =>
    case Insert(_, ip) =>
      var pending := s.tasks[t].phase.pending;
      assert |pending - {ip}| == |pending| - 1;
    case Advance(_) => AdvanceLighter(setup, s.src, s.tasks[t]);
  }

  /** Every step of work begun brings the end nearer. */
  lemma StepDecreases(setup: Setup, s: State, a: Action)
    requires Shaped(s) && QueuesRight(s) && SnapshotsCurrent(s) && Continues(s, a)
    ensures var s' := Apply(setup, s, a);
      || TotalChanges(s'.tasks) < TotalChanges(s.tasks)
      || (TotalChanges(s'.tasks) == TotalChanges(s.tasks)
          && TotalWeight(setup, s'.src, s'.tasks) < TotalWeight(setup, s.src, s.tasks))
  {
    var t, s' := Actor(s, a), Apply(setup, s, a);
    ActorOnly(setup, s, a);
    assert s'.tasks == s.tasks[t := s'.tasks[t]];
    TotalChangesUpdate(s.tasks, t, s'.tasks[t]);
    if !a.Change? {
      ActorLighter(setup, s, a);
      TotalWeightUpdate(setup, s.src, s.tasks, t, s'.tasks[t]);
    }
  }

  // ----- Finishing what has begun -----

  /** A run that goes on from s with work already begun. */
  ghost predicate Continuation(setup: Setup, s: State, states: seq<State>, actions: seq<Action>) {
    && Steps(setup, states, actions) && states[0] == s
    && forall i :: 0 <= i < |actions| ==> Continues(states[i], actions[i])
  }

  lemma {:induction false} ContinuationKeepsInv(setup: Setup, s: State, states: seq<State>, actions: seq<Action>,
                                                i: nat)
    requires ValidSetup(setup) && Inv(setup, s) && Continuation(setup, s, states, actions) && i < |states|
    ensures Inv(setup, states[i])
  {
    if i > 0 {
      ContinuationKeepsInv(setup, s, states, actions, i - 1);
      InvStep(setup, states[i - 1], actions[i - 1]);
    }
  }

  lemma Prepend(setup: Setup, s: State, a: Action, states: seq<State>, actions: seq<Action>)
    requires Continues(s, a) && Continuation(setup, Apply(setup, s, a), states, actions)
    ensures Continuation(setup, s, [s] + states, [a] + actions)
  {
    var all, steps := [s] + states, [a] + actions;
    forall i | 0 <= i < |steps|
      ensures Continues(all[i], steps[i]) && all[i + 1] == Apply(setup, all[i], steps[i])
    {
      if i > 0 { assert all[i] == states[i - 1] && all[i + 1] == states[i] && steps[i] == actions[i - 1]; }
    }
  }

  /** Every state has a continuation after which nothing can go on. */
  lemma RunsOut(setup: Setup, s: State) returns (states: seq<State>, actions: seq<Action>)
    requires ValidSetup(setup) && Inv(setup, s)
    ensures Continuation(setup, s, states, actions) && Exhausted(states[|states| - 1])
    decreases TotalChanges(s.tasks), TotalWeight(setup, s.src, s.tasks)
  {
    if a :| Continues(s, a) {
      InvStep(setup, s, a);
      StepDecreases(setup, s, a);
      states, actions := RunsOut(setup, Apply(setup, s, a));
      Prepend(setup, s, a, states, actions);
      states, actions := [s] + states, [a] + actions;
    } else {
      states, actions := [s], [];
    }
  }

  ghost predicate CanGetStuck(setup: Setup, s: State) {
    exists states: seq<State>, actions: seq<Action> ::
      Continuation(setup, s, states, actions) && Stuck(states[|states| - 1])
  }

  ghost predicate CanCross(setup: Setup, s: State) {
    exists states: seq<State>, actions: seq<Action> ::
      Continuation(setup, s, states, actions) && Crossed(states[|states| - 1])
  }

  lemma Concatenate(setup: Setup, s: State, states1: seq<State>, actions1: seq<Action>,
                    states2: seq<State>, actions2: seq<Action>)
    requires Continuation(setup, s, states1, actions1)
    requires Continuation(setup, states1[|states1| - 1], states2, actions2)
    ensures Continuation(setup, s, states1 + states2[1..], actions1 + actions2)
    ensures (states1 + states2[1..])[|states1 + states2[1..]| - 1] == states2[|states2| - 1]
  {
    var states, actions, n := states1 + states2[1..], actions1 + actions2, |actions1|;
    forall i | 0 <= i < |states2| ensures states[n + i] == states2[i] {
    }
    forall i | 0 <= i < |actions|
      ensures Continues(states[i], actions[i]) && states[i + 1] == Apply(setup, states[i], actions[i])
    {
      if i < n {
        assert states[i] == states1[i] && states[i + 1] == states1[i + 1];
      } else {
        assert states[i] == states2[i - n] && states[i + 1] == states2[i - n + 1] && actions[i] == actions2[i - n];
      }
    }
  }

  lemma CrossedRunsOut(setup: Setup, s: State) returns (states: seq<State>, actions: seq<Action>)
    requires ValidSetup(setup) && Inv(setup, s) && Crossed(s)
    ensures Continuation(setup, s, states, actions) && Stuck(states[|states| - 1])
  {
    var d, f, n, m :| 0 <= m < n < 3 && 0 <= d < |s.tasks| && 0 <= f < |s.tasks| && CrossedBy(s, d, f, n, m);
    states, actions := RunsOut(setup, s);
    CrossedForGood(setup, states, actions, |states| - 1, d, f, n, m);
  }

  lemma CrossedGetsStuck(setup: Setup, s: State, states: seq<State>, actions: seq<Action>)
    requires ValidSetup(setup) && Inv(setup, s) && Continuation(setup, s, states, actions)
    requires Crossed(states[|states| - 1])
    ensures CanGetStuck(setup, s)
  {
    ContinuationKeepsInv(setup, s, states, actions, |states| - 1);
    var more, steps := CrossedRunsOut(setup, states[|states| - 1]);
    Concatenate(setup, s, states, actions, more, steps);
  }

  /** Work begun can get stuck exactly when it can come to a crossing. */
  lemma DeadlockExactly(setup: Setup, s: State)
    requires ValidSetup(setup) && Inv(setup, s)
    ensures CanGetStuck(setup, s) <==> CanCross(setup, s)
  {
    if CanGetStuck(setup, s) {
      var states: seq<State>, actions: seq<Action> :|
        Continuation(setup, s, states, actions) && Stuck(states[|states| - 1]);
      ContinuationKeepsInv(setup, s, states, actions, |states| - 1);
      StuckIsCrossed(states[|states| - 1]);
    }
    if CanCross(setup, s) {
      var states: seq<State>, actions: seq<Action> :|
        Continuation(setup, s, states, actions) && Crossed(states[|states| - 1]);
      CrossedGetsStuck(setup, s, states, actions);
    }
  }

  // ----- States from which nothing can cross -----

  /** No `debug_state` request is collecting its locks. */
  predicate NoDebug(s: State) {
    forall t :: 0 <= t < |s.tasks| ==> !s.tasks[t].phase.DebugRead?
  }

  /** All writers that have begun want the same lock. */
  predicate WritersShare(s: State, lock: nat) {
    forall t :: 0 <= t < |s.tasks| && s.tasks[t].phase.WantWrite? ==> s.tasks[t].phase.lock == lock
  }

  lemma CrossingWriters(s: State, t: nat, lock: nat) returns (w: nat)
    requires lock < |s.queues| && lock < 3 && BehindWriter(s, t, lock)
    ensures w < |s.tasks| && s.tasks[w].phase == WantWrite(lock)
  {
    var i, j :| 0 <= i < j < |s.queues[lock]| && s.queues[lock][j] == t && WantsWrite(s, s.queues[lock][i], lock);
    w := s.queues[lock][i];
  }

  lemma CrossingNeedsWriters(s: State, lock: nat)
    ensures Crossed(s) ==> !WritersShare(s, lock)
  {
    if Crossed(s) {
      var d, f, n, m :| 0 <= m < n < 3 && 0 <= d < |s.tasks| && 0 <= f < |s.tasks| && CrossedBy(s, d, f, n, m);
      var v := CrossingWriters(s, d, m);
      var w := CrossingWriters(s, f, n);
      assert s.tasks[v].phase.lock != s.tasks[w].phase.lock;
    }
  }

  /** A crossing takes a debug request, and writers for two locks. */
  lemma CrossingNeeds(s: State, lock: nat)
    ensures Crossed(s) ==> !NoDebug(s) && !WritersShare(s, lock)
  {
    CrossingNeedsWriters(s, lock);
  }

  lemma NoNewWriters(setup: Setup, s: State, a: Action, lock: nat)
    requires Continues(s, a)
    ensures NoDebug(s) ==> NoDebug(Apply(setup, s, a))
    ensures WritersShare(s, lock) ==> WritersShare(Apply(setup, s, a), lock)
  {
    ActorOnly(setup, s, a);
  }

  lemma {:induction false} StaysSafe(setup: Setup, s: State, states: seq<State>, actions: seq<Action>, i: nat,
                                     lock: nat)
    requires Continuation(setup, s, states, actions) && i < |states|
    ensures NoDebug(s) ==> NoDebug(states[i])
    ensures WritersShare(s, lock) ==> WritersShare(states[i], lock)
  {
    if i > 0 {
      StaysSafe(setup, s, states, actions, i - 1, lock);
      NoNewWriters(setup, states[i - 1], actions[i - 1], lock);
    }
  }

  /** If no debug request is collecting locks, or all writers that have begun want one lock: under every schedule,
      when nothing can go on, all tasks are idle and the cache is right. */
  lemma EveryScheduleDrains(setup: Setup, s: State, lock: nat, states: seq<State>, actions: seq<Action>)
    requires ValidSetup(setup) && Inv(setup, s) && (NoDebug(s) || WritersShare(s, lock))
    requires Continuation(setup, s, states, actions) && Exhausted(states[|states| - 1])
    ensures var end := states[|states| - 1];
      Quiescent(end) && forall ip :: Right(setup, end, ip)
  {
    var end := states[|states| - 1];
    ContinuationKeepsInv(setup, s, states, actions, |states| - 1);
    StaysSafe(setup, s, states, actions, |states| - 1, lock);
    CrossingNeeds(end, lock);
    if !Quiescent(end) { StuckIsCrossed(end); }
    forall ip ensures Right(setup, end, ip) { SettledIsRight(setup, end, ip); }
  }

  /** And there is such a schedule. */
  lemma DrainsToFresh(setup: Setup, s: State, lock: nat) returns (states: seq<State>, actions: seq<Action>)
    requires ValidSetup(setup) && Inv(setup, s) && (NoDebug(s) || WritersShare(s, lock))
    ensures Continuation(setup, s, states, actions)
    ensures var end := states[|states| - 1];
      Quiescent(end) && forall ip :: Right(setup, end, ip)
  {
    states, actions := RunsOut(setup, s);
    EveryScheduleDrains(setup, s, lock, states, actions);
  }

  // ----- The one request that breaks the lock order -----

  lemma AppendStep(setup: Setup, states: seq<State>, actions: seq<Action>, a: Action)
    returns (states': seq<State>, actions': seq<Action>)
    requires Steps(setup, states, actions) && Enabled(states[|states| - 1], a)
    ensures Steps(setup, states', actions') && states'[0] == states[0]
    ensures states'[|states'| - 1] == Apply(setup, states[|states| - 1], a)
  {
    states', actions' := states + [Apply(setup, states[|states| - 1], a)], actions + [a];
  }

  /** Task t begins a job and asks for its first lock, in front of which `before` wait. */
  lemma BeginAndAsk(setup: Setup, states: seq<State>, actions: seq<Action>, t: nat, job: Phase, lock: nat)
    returns (states': seq<State>, actions': seq<Action>)
    requires Steps(setup, states, actions)
    requires var s := states[|states| - 1];
      t < |s.tasks| && s.tasks[t] == Asking(Idle) && Job(job) && Wants(job).Some? && Wants(job).value.lock == lock
      && |s.queues| == LOCKS && lock < LOCKS
    ensures Steps(setup, states', actions') && states'[0] == states[0]
    ensures var s := states[|states| - 1];
      states'[|states'| - 1] ==
      s.(tasks := s.tasks[t := Waiting(job)], queues := s.queues[lock := s.queues[lock] + [t]])
  {
    states', actions' := AppendStep(setup, states, actions, Begin(t, job));
    states', actions' := AskFor(setup, states', actions', t, lock);
    var s := states[|states| - 1];
    assert s.tasks[t := Asking(job)][t := Waiting(job)] == s.tasks[t := Waiting(job)];
  }

  lemma AskFor(setup: Setup, states: seq<State>, actions: seq<Action>, t: nat, lock: nat)
    returns (states': seq<State>, actions': seq<Action>)
    requires Steps(setup, states, actions)
    requires var s := states[|states| - 1];
      t < |s.tasks| && !s.tasks[t].queued && !s.tasks[t].owes
      && Wants(s.tasks[t].phase).Some? && Wants(s.tasks[t].phase).value.lock == lock
      && |s.queues| == LOCKS && lock < LOCKS
    ensures Steps(setup, states', actions') && states'[0] == states[0]
    ensures var s := states[|states| - 1];
      states'[|states'| - 1] ==
      s.(tasks := s.tasks[t := Waiting(s.tasks[t].phase)], queues := s.queues[lock := s.queues[lock] + [t]])
  {
    states', actions' := AppendStep(setup, states, actions, Ask(t));
  }

  /** The only task in a queue gets a free lock. */
  lemma GrantFree(setup: Setup, states: seq<State>, actions: seq<Action>, t: nat, lock: nat, next: Phase)
    returns (states': seq<State>, actions': seq<Action>)
    requires Steps(setup, states, actions)
    requires var s := states[|states| - 1];
      t < |s.tasks| && !s.tasks[t].owes && Wants(s.tasks[t].phase).Some?
      && next == Granted(s.tasks[t].phase, s.src)
      && |s.queues| == LOCKS && lock < LOCKS && s.queues[lock] == [t]
      && forall u :: 0 <= u < |s.tasks| ==> Holds(s.tasks[u].phase, lock).None?
    ensures Steps(setup, states', actions') && states'[0] == states[0]
    ensures var s := states[|states| - 1];
      states'[|states'| - 1] == s.(tasks := s.tasks[t := Asking(next)], queues := s.queues[lock := []])
  {
    states', actions' := AppendStep(setup, states, actions, Grant(lock));
    assert states[|states| - 1].queues[lock][1..] == [];
  }

  function FourTasks(t0: Task, t1: Task, t2: Task, t3: Task, queues: seq<seq<nat>>): State {
    State([t0, t1, t2, t3], queues,
          Sources(IdentityState(map[], map[], [], map[]), HostTable(map[], map[]), ContainerState(map[], map[])), map[])
  }

  function Asking(p: Phase): Task { Task(p, false, false) }
  function Waiting(p: Phase): Task { Task(p, false, true) }

  /** A debug request gets the container lock, a rebuild the other two. */
  lemma DebugHalfway(setup: Setup) returns (states: seq<State>, actions: seq<Action>)
    requires ValidSetup(setup)
    ensures Run(setup, states, actions)
    ensures states[|states| - 1] == FourTasks(Asking(DebugRead(1)), Asking(Collect(2)), Asking(Idle), Asking(Idle),
                                              [[], [], [], []])
  {
    var idle := Asking(Idle);
    states, actions := [FourTasks(idle, idle, idle, idle, [[], [], [], []])], [];
    states, actions := DebugGetsContainers(setup, states, actions);
    states, actions := RebuildGetsIdentity(setup, states, actions);
    states, actions := RebuildGetsBmh(setup, states, actions);
  }

  lemma RebuildGetsIdentity(setup: Setup, states: seq<State>, actions: seq<Action>)
    returns (states': seq<State>, actions': seq<Action>)
    requires Steps(setup, states, actions)
    requires states[|states| - 1] ==
             FourTasks(Asking(DebugRead(1)), Asking(Idle), Asking(Idle), Asking(Idle), [[], [], [], []])
    ensures Steps(setup, states', actions') && states'[0] == states[0]
    ensures states'[|states'| - 1] ==
            FourTasks(Asking(DebugRead(1)), Asking(Collect(1)), Asking(Idle), Asking(Idle), [[], [], [], []])
  {
    states', actions' := BeginAndAsk(setup, states, actions, 1, Collect(0), IDENTITY);
    states', actions' := GrantFree(setup, states', actions', 1, IDENTITY, Collect(1));
    Settle(states'[|states'| - 1], [Asking(DebugRead(1)), Asking(Collect(1)), Asking(Idle), Asking(Idle)],
           [], [], [], []);
  }

  lemma RebuildGetsBmh(setup: Setup, states: seq<State>, actions: seq<Action>)
    returns (states': seq<State>, actions': seq<Action>)
    requires Steps(setup, states, actions)
    requires states[|states| - 1] ==
             FourTasks(Asking(DebugRead(1)), Asking(Collect(1)), Asking(Idle), Asking(Idle), [[], [], [], []])
    ensures Steps(setup, states', actions') && states'[0] == states[0]
    ensures states'[|states'| - 1] ==
            FourTasks(Asking(DebugRead(1)), Asking(Collect(2)), Asking(Idle), Asking(Idle), [[], [], [], []])
  {
    states', actions' := AskFor(setup, states, actions, 1, BMH);
    states', actions' := GrantFree(setup, states', actions', 1, BMH, Collect(2));
    Settle(states'[|states'| - 1], [Asking(DebugRead(1)), Asking(Collect(2)), Asking(Idle), Asking(Idle)],
           [], [], [], []);
  }

  lemma DebugGetsContainers(setup: Setup, states: seq<State>, actions: seq<Action>)
    returns (states': seq<State>, actions': seq<Action>)
    requires Steps(setup, states, actions)
    requires states[|states| - 1] ==
             FourTasks(Asking(Idle), Asking(Idle), Asking(Idle), Asking(Idle), [[], [], [], []])
    ensures Steps(setup, states', actions') && states'[0] == states[0]
    ensures states'[|states'| - 1] ==
            FourTasks(Asking(DebugRead(1)), Asking(Idle), Asking(Idle), Asking(Idle), [[], [], [], []])
  {
    var idle := Asking(Idle);
    states', actions' := BeginAndAsk(setup, states, actions, 0, DebugRead(0), CONTAINERS);
    states', actions' := GrantFree(setup, states', actions', 0, CONTAINERS, DebugRead(1));
    Settle(states'[|states'| - 1], [Asking(DebugRead(1)), idle, idle, idle], [], [], [], []);
  }

  /** Spells out a state that is known task by task and queue by queue. */
  lemma Settle(s: State, tasks: seq<Task>, q0: seq<nat>, q1: seq<nat>, q2: seq<nat>, q3: seq<nat>)
    requires |s.tasks| == |tasks| && forall t :: 0 <= t < |tasks| ==> s.tasks[t] == tasks[t]
    requires |s.queues| == LOCKS
    requires s.queues[0] == q0 && s.queues[1] == q1 && s.queues[2] == q2 && s.queues[3] == q3
    ensures s == State(tasks, [q0, q1, q2, q3], s.src, s.cache)
  {
    assert s.tasks == tasks && s.queues == [q0, q1, q2, q3];
  }

  /** A crossing can be reached: two writers that queue between a debug request and a rebuild stop all four. */
  lemma DebugCanDeadlock(setup: Setup) returns (states: seq<State>, actions: seq<Action>)
    requires ValidSetup(setup)
    ensures Run(setup, states, actions)
    ensures Stuck(states[|states| - 1])
  {
    states, actions := DebugHalfway(setup);
    states, actions := BeginAndAsk(setup, states, actions, 2, WantWrite(CONTAINERS), CONTAINERS);
    states, actions := BeginAndAsk(setup, states, actions, 3, WantWrite(BMH), BMH);
    states, actions := AskFor(setup, states, actions, 0, BMH);
    states, actions := AskFor(setup, states, actions, 1, CONTAINERS);
    var end := states[|states| - 1];
    Settle(end, [Waiting(DebugRead(1)), Waiting(Collect(2)), Waiting(WantWrite(CONTAINERS)), Waiting(WantWrite(BMH))],
           [], [3, 0], [2, 1], []);
    assert Holds(end.tasks[1].phase, BMH) == Some(Read) && Holds(end.tasks[0].phase, CONTAINERS) == Some(Read);
  }
}
