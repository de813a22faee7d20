/** Concurrent cache rebuilds as a step system (src/cache.rs with the writers in src/watcher/).

    Tasks ask for tokio `RwLock`s, which are granted first come, first served. Writers change one of the
    three sources and then owe a rebuild. A rebuild holds three read locks, so several rebuilds can clear
    and fill the shared map at once: the map is cleared shard by shard, and filled one address at a time. */
module RebuildProtocol {
  import opened Text
  import opened Model
  import opened Cache

  // ----- Locks -----

  const IDENTITY: nat := 0
  const BMH: nat := 1
  const CONTAINERS: nat := 2
  const NAMESPACES: nat := 3
  const LOCKS: nat := 4

  datatype Mode = Read | Write
  datatype Request = Request(lock: nat, mode: Mode)

  // ----- Tasks -----

  datatype Phase =
    | Idle
    | WantWrite(lock: nat)                             // a watcher about to change a source
    | MayWrite(lock: nat)
    | Wrote(lock: nat, stored: bool)                   // the change is made, the lock still held
    | WantNamespaces                                   // a full BMH load goes on to store the namespaces
    | HoldNamespaces
    | Collect(held: nat)                               // a rebuild holding the first `held` read locks
    | Clearing(next: nat, snap: Sources)               // shards below `next` are cleared
    | Pass1(pending: set<Ip>, snap: Sources)           // hosts still to be visited
    | Pass2(pending: set<Ip>, snap: Sources)           // containers still to be visited
    | OnDemandLookup(held: nat)                        // a lookup holding the first `held` read locks
    | Releasing(held: nat)                             // guards are dropped from the last to the first
    | WantRead(lock: nat)                              // a reader of a single lock
    | Reading(lock: nat)
    | DebugRead(held: nat)                             // `debug_state`, which asks in the opposite order
    | DebugDone(held: nat)

  /** `owes`: has changed a source since its last rebuild got its locks. `queued`: waits in a lock's queue. */
  datatype Task = Task(phase: Phase, owes: bool, queued: bool)

  datatype State = State(tasks: seq<Task>, queues: seq<seq<nat>>, src: Sources, cache: map<Ip, HostMetadata>)

  /** How the concurrent map spreads addresses over its shards, and how an address is resolved. */
  datatype Setup = Setup(shards: nat, shardOf: Ip -> nat,
                         hostOf: (Sources, Ip) -> Option<HostMetadata>,
                         containerOf: (Sources, Ip) -> Option<HostMetadata>)

  /** Only addresses in the tables resolve. */
  ghost predicate ValidSetup(setup: Setup) {
    && (forall ip :: setup.shardOf(ip) < setup.shards)
    && (forall src, ip :: setup.hostOf(src, ip).Some? ==> ip in src.bmh.ipToHostname)
    && (forall src, ip :: setup.containerOf(src, ip).Some? ==> ip in src.containers.ipToContainer)
  }

  /** The setup of the service: the resolution functions of the cache module. */
  ghost function ServiceSetup(config: MetadataConfig, shards: nat, shardOf: Ip -> nat): (setup: Setup)
    requires forall ip :: shardOf(ip) < shards
    ensures ValidSetup(setup)
  {
    Setup(shards, shardOf, (src: Sources, ip: Ip) => HostResult(src, config, ip),
          (src: Sources, ip: Ip) => ContainerResult(src, config, ip))
  }

  /** Pass 2 overwrites pass 1. */
  ghost function Merged(setup: Setup, src: Sources, ip: Ip): Option<HostMetadata> {
    if setup.containerOf(src, ip).Some? then setup.containerOf(src, ip) else setup.hostOf(src, ip)
  }

  predicate ValidPhase(p: Phase) {
    match p
    case WantWrite(l) => l < NAMESPACES
    case MayWrite(l) => l < NAMESPACES
    case Wrote(l, _) => l < NAMESPACES
    case Collect(h) => h < 3
    case OnDemandLookup(h) => h < 3
    case Releasing(h) => 0 < h <= 3
    case WantRead(l) => l < LOCKS
    case Reading(l) => l < LOCKS
    case DebugRead(h) => h < 3
    case DebugDone(h) => 0 < h <= 3
    case _ => true
  }

  function Wants(p: Phase): Option<Request> {
    match p
    case WantWrite(l) => Some(Request(l, Write))
    case WantNamespaces => Some(Request(NAMESPACES, Write))
    case Collect(h) => Some(Request(h, Read))
    case OnDemandLookup(h) => Some(Request(h, Read))
    case WantRead(l) => Some(Request(l, Read))
    case DebugRead(h) => Some(Request(if h < 3 then 2 - h else 0, Read))
    case _ => None
  }

  function Holds(p: Phase, lock: nat): Option<Mode> {
    match p
    case MayWrite(l) => if lock == l then Some(Write) else None
    case Wrote(l, _) => if lock == l then Some(Write) else None
    case WantNamespaces => if lock == BMH then Some(Write) else None
    case HoldNamespaces => if lock == BMH || lock == NAMESPACES then Some(Write) else None
    case Collect(h) => if lock < h then Some(Read) else None
    case OnDemandLookup(h) => if lock < h then Some(Read) else None
    case Releasing(h) => if lock < h then Some(Read) else None
    case Clearing(_, _) => if lock < 3 then Some(Read) else None
    case Pass1(_, _) => if lock < 3 then Some(Read) else None
    case Pass2(_, _) => if lock < 3 then Some(Read) else None
    case Reading(l) => if lock == l then Some(Read) else None
    case DebugRead(h) => if 3 - h <= lock < 3 then Some(Read) else None
    case DebugDone(h) => if 3 - h <= lock < 3 then Some(Read) else None
    case _ => None
  }

  predicate Working(p: Phase) {
    p.Clearing? || p.Pass1? || p.Pass2?
  }

  /** The phase once the lock asked for is granted. */
  function Granted(p: Phase, src: Sources): Phase
    requires Wants(p).Some?
  {
    match p
    case WantWrite(l) => MayWrite(l)
    case WantNamespaces => HoldNamespaces
    case Collect(h) => if h < 2 then Collect(h + 1) else Clearing(0, src)
    case OnDemandLookup(h) => if h < 2 then OnDemandLookup(h + 1) else Releasing(3)
    case WantRead(l) => Reading(l)
    case DebugRead(h) => if h < 2 then DebugRead(h + 1) else DebugDone(3)
  }

  // ----- Steps -----

  datatype Action =
    | Begin(task: nat, job: Phase)
    | Ask(task: nat)
    | Grant(lock: nat)
    | Change(task: nat, src: Sources)
    | StoreNamespaces(task: nat)
    | Insert(task: nat, ip: Ip)
    | Advance(task: nat)

  predicate Job(p: Phase) {
    ValidPhase(p) && (p.WantWrite? || p == Collect(0) || p == OnDemandLookup(0) || p.WantRead?
                      || p == DebugRead(0))
  }

  /** A request is granted when it is first in its queue and compatible with every holder. */
  predicate Grantable(s: State, lock: nat)
    requires lock < |s.queues|
  {
    && s.queues[lock] != []
    && s.queues[lock][0] < |s.tasks|
    && Wants(s.tasks[s.queues[lock][0]].phase).Some?
    && forall u :: 0 <= u < |s.tasks| && Holds(s.tasks[u].phase, lock).Some? ==>
                     Holds(s.tasks[u].phase, lock).value.Read?
                     && Wants(s.tasks[s.queues[lock][0]].phase).value.mode.Read?
  }

  predicate OnlyChanges(before: Sources, after: Sources, lock: nat) {
    && (lock != IDENTITY ==> before.identity == after.identity)
    && (lock != BMH ==> before.bmh == after.bmh)
    && (lock != CONTAINERS ==> before.containers == after.containers)
  }

  predicate Enabled(s: State, a: Action) {
    match a
    case Grant(l) => l < |s.queues| && Grantable(s, l)
    case Begin(t, job) => t < |s.tasks| && s.tasks[t].phase.Idle? && Job(job)
    case Ask(t) => t < |s.tasks| && Wants(s.tasks[t].phase).Some? && !s.tasks[t].queued
                   && Wants(s.tasks[t].phase).value.lock < |s.queues|
    case Change(t, src) => t < |s.tasks| && s.tasks[t].phase.MayWrite?
                           && OnlyChanges(s.src, src, s.tasks[t].phase.lock)
    case StoreNamespaces(t) => t < |s.tasks| && s.tasks[t].phase == Wrote(BMH, false)
    case Insert(t, ip) => t < |s.tasks| && (s.tasks[t].phase.Pass1? || s.tasks[t].phase.Pass2?)
                          && ip in s.tasks[t].phase.pending
    case Advance(t) => t < |s.tasks| && CanAdvance(s.tasks[t])
  }

  predicate CanAdvance(task: Task) {
    match task.phase
    case Wrote(_, _) => true
    case HoldNamespaces => true
    case Clearing(_, _) => true
    case Pass1(pending, _) => pending == {}
    case Pass2(pending, _) => pending == {}
    case OnDemandLookup(h) => h == 2 && !task.queued
    case Releasing(_) => true
    case Reading(_) => true
    case DebugDone(_) => true
    case _ => false
  }

  /** Local steps that need no choice. The lookup step is the one that finds the host and stops early. */
  function Advanced(p: Phase, shards: nat): Phase {
    match p
    case HoldNamespaces => Wrote(BMH, true)
    case Clearing(i, snap) => if i < shards then Clearing(i + 1, snap) else Pass1(snap.bmh.ipToHostname.Keys, snap)
    case Pass1(_, snap) => Pass2(snap.containers.ipToContainer.Keys, snap)
    case Pass2(_, _) => Releasing(3)
    case OnDemandLookup(_) => Releasing(2)
    case Releasing(h) => if h > 1 then Releasing(h - 1) else Idle
    case DebugDone(h) => if h > 1 then DebugDone(h - 1) else Idle
    case _ => Idle
  }

  /** A clearing step removes one shard. */
  function ClearShard(setup: Setup, cache: map<Ip, HostMetadata>, shard: nat): map<Ip, HostMetadata> {
    map ip | ip in cache && setup.shardOf(ip) != shard :: cache[ip]
  }

  function Put(cache: map<Ip, HostMetadata>, ip: Ip, meta: Option<HostMetadata>): map<Ip, HostMetadata> {
    if meta.Some? then cache[ip := meta.value] else cache
  }

  ghost function Apply(setup: Setup, s: State, a: Action): State
    requires Enabled(s, a)
  {
    match a
    case Begin(t, job) => SetTask(s, t, s.tasks[t].(phase := job))
    case Ask(t) =>
      var l := Wants(s.tasks[t].phase).value.lock;
      SetTask(s, t, s.tasks[t].(queued := true)).(queues := s.queues[l := s.queues[l] + [t]])
    case Grant(l) =>
      var t := s.queues[l][0];
      var phase := Granted(s.tasks[t].phase, s.src);
      SetTask(s, t, Task(phase, s.tasks[t].owes && !Working(phase), false)).(queues := s.queues[l := s.queues[l][1..]])
    case Change(t, src) => SetTask(s, t, Task(Wrote(s.tasks[t].phase.lock, false), true, false)).(src := src)
    case StoreNamespaces(t) => SetTask(s, t, s.tasks[t].(phase := WantNamespaces))
    case Insert(t, ip) =>
      var p := s.tasks[t].phase;
      if p.Pass1? then
        SetTask(s, t, s.tasks[t].(phase := Pass1(p.pending - {ip}, p.snap)))
        .(cache := Put(s.cache, ip, setup.hostOf(p.snap, ip)))
      else
        SetTask(s, t, s.tasks[t].(phase := Pass2(p.pending - {ip}, p.snap)))
        .(cache := Put(s.cache, ip, setup.containerOf(p.snap, ip)))
    case Advance(t) =>
      var p := s.tasks[t].phase;
      SetTask(s, t, s.tasks[t].(phase := Advanced(p, setup.shards)))
      .(cache := if p.Clearing? && p.next < setup.shards then ClearShard(setup, s.cache, p.next) else s.cache)
  }

  function SetTask(s: State, t: nat, task: Task): State
    requires t < |s.tasks|
  {
    s.(tasks := s.tasks[t := task])
  }

  // ----- Runs -----

  /** As `AppState::new` leaves it: static identity, no hosts, no containers, an empty cache. */
  predicate Init(s: State) {
    && (forall t :: 0 <= t < |s.tasks| ==> s.tasks[t] == Task(Idle, false, false))
    && s.queues == [[], [], [], []]
    && s.src.bmh.ipToHostname == map[] && s.src.containers.ipToContainer == map[]
    && s.cache == map[]
  }

  ghost predicate Steps(setup: Setup, states: seq<State>, actions: seq<Action>) {
    && |states| == |actions| + 1
    && forall i :: 0 <= i < |actions| ==> Enabled(states[i], actions[i])
                                          && states[i + 1] == Apply(setup, states[i], actions[i])
  }

  ghost predicate Run(setup: Setup, states: seq<State>, actions: seq<Action>) {
    ValidSetup(setup) && Steps(setup, states, actions) && Init(states[0])
  }

  // ----- Invariants -----

  predicate Shaped(s: State) {
    |s.queues| == LOCKS && forall t :: 0 <= t < |s.tasks| ==> ValidPhase(s.tasks[t].phase)
  }

  /** A queue holds exactly the tasks that wait for its lock, each once. */
  predicate QueuesRight(s: State)
    requires Shaped(s)
  {
    && (forall l, i :: 0 <= l < LOCKS && 0 <= i < |s.queues[l]| ==>
          var t := s.queues[l][i];
          t < |s.tasks| && s.tasks[t].queued && Wants(s.tasks[t].phase).Some? && Wants(s.tasks[t].phase).value.lock == l)
    && (forall t :: 0 <= t < |s.tasks| && s.tasks[t].queued ==>
          Wants(s.tasks[t].phase).Some? && t in s.queues[Wants(s.tasks[t].phase).value.lock])
    && (forall l, i, j :: 0 <= l < LOCKS && 0 <= i < j < |s.queues[l]| ==> s.queues[l][i] != s.queues[l][j])
  }

  /** A writer is alone on its lock. */
  predicate Exclusive(s: State) {
    forall t, u, l ::
      0 <= t < |s.tasks| && 0 <= u < |s.tasks| && t != u && 0 <= l < LOCKS ==>
        Holds(s.tasks[t].phase, l) == Some(Write) ==> Holds(s.tasks[u].phase, l).None?
  }

  /** What a rebuild reads is the current state, for as long as it works. */
  predicate SnapshotsCurrent(s: State) {
    forall t :: 0 <= t < |s.tasks| && Working(s.tasks[t].phase) ==> s.tasks[t].phase.snap == s.src
  }

  /** The task will still put the entry of `ip` right. */
  ghost predicate Covers(setup: Setup, src: Sources, task: Task, ip: Ip) {
    || task.owes
    || match task.phase
       case Clearing(i, _) => Merged(setup, src, ip).Some? || i <= setup.shardOf(ip)
       case Pass1(pending, _) =>
         setup.containerOf(src, ip).Some? || (setup.hostOf(src, ip).Some? && ip in pending)
       case Pass2(pending, _) => setup.containerOf(src, ip).Some? && ip in pending
       case _ => false
  }

  ghost predicate Right(setup: Setup, s: State, ip: Ip) {
    Lookup(s.cache, ip) == Merged(setup, s.src, ip)
  }

  /** An entry that is not right is always some task's business. */
  ghost predicate Covered(setup: Setup, s: State) {
    forall ip :: Right(setup, s, ip) || exists t :: 0 <= t < |s.tasks| && Covers(setup, s.src, s.tasks[t], ip)
  }

  /** The entry of `ip`, if there is one, follows from the current state. */
  ghost predicate Derived(setup: Setup, s: State, ip: Ip) {
    ip in s.cache ==> || Some(s.cache[ip]) == setup.hostOf(s.src, ip)
                      || Some(s.cache[ip]) == setup.containerOf(s.src, ip)
  }

  /** The task has still to clear the entry of `ip`. */
  predicate WillClear(setup: Setup, task: Task, ip: Ip) {
    task.owes || (task.phase.Clearing? && task.phase.next <= setup.shardOf(ip))
  }

  /** A revoked entry is served only until the rebuild owed for it has cleared its shard. */
  ghost predicate NothingStale(setup: Setup, s: State) {
    forall ip :: Derived(setup, s, ip) || exists t :: 0 <= t < |s.tasks| && WillClear(setup, s.tasks[t], ip)
  }

  ghost predicate Inv(setup: Setup, s: State) {
    && Shaped(s) && QueuesRight(s) && Exclusive(s) && SnapshotsCurrent(s)
    && Covered(setup, s) && NothingStale(setup, s)
  }

  // ----- Every step keeps the invariants -----

  /** The task that acts, other than by asking for a lock or getting one, and its next phase. */
  predicate Local(a: Action) {
    !a.Grant? && !a.Ask?
  }

  lemma LocalStep(setup: Setup, s: State, a: Action)
    requires Shaped(s) && QueuesRight(s) && Enabled(s, a) && Local(a)
    ensures var s' := Apply(setup, s, a);
      && s'.queues == s.queues
      && !s.tasks[a.task].queued && !s'.tasks[a.task].queued
      && s'.tasks == s.tasks[a.task := s'.tasks[a.task]]
      && ValidPhase(s'.tasks[a.task].phase)
      && forall l :: 0 <= l < LOCKS ==>
           Holds(s'.tasks[a.task].phase, l) in {None, Holds(s.tasks[a.task].phase, l)}
  {
  }

  lemma GrantStep(setup: Setup, s: State, l: nat)
    requires Shaped(s) && QueuesRight(s) && Enabled(s, Grant(l))
    ensures var s', t := Apply(setup, s, Grant(l)), s.queues[l][0];
      && Wants(s.tasks[t].phase).value.lock == l
      && s'.queues == s.queues[l := s.queues[l][1..]]
      && s'.tasks == s.tasks[t := s'.tasks[t]] && !s'.tasks[t].queued
      && ValidPhase(s'.tasks[t].phase)
      && Holds(s'.tasks[t].phase, l) == Some(Wants(s.tasks[t].phase).value.mode)
      && forall m :: 0 <= m < LOCKS && m != l ==> Holds(s'.tasks[t].phase, m) == Holds(s.tasks[t].phase, m)
  {
  }

  lemma QueuesStep(setup: Setup, s: State, a: Action)
    requires Shaped(s) && QueuesRight(s) && Enabled(s, a)
    ensures Shaped(Apply(setup, s, a)) && QueuesRight(Apply(setup, s, a))
  {
    if a.Grant? {
      GrantKeepsQueues(setup, s, a.lock);
    } else if a.Ask? {
      AskKeepsQueues(setup, s, a.task);
    } else {
      LocalStep(setup, s, a);
      var s' := Apply(setup, s, a);
      forall l, i | 0 <= l < LOCKS && 0 <= i < |s'.queues[l]| ensures s'.queues[l][i] != a.task {
      }
    }
  }

  lemma PopKeepsQueues(s: State, s': State, l: nat, t: nat)
    requires Shaped(s) && QueuesRight(s) && l < LOCKS && s.queues[l] != [] && t == s.queues[l][0]
    requires t < |s.tasks| && |s'.tasks| == |s.tasks| && s'.tasks == s.tasks[t := s'.tasks[t]]
    requires !s'.tasks[t].queued && ValidPhase(s'.tasks[t].phase)
    requires s'.queues == s.queues[l := s.queues[l][1..]]
    ensures Shaped(s') && QueuesRight(s')
  {
    assert forall i :: 0 <= i < |s'.queues[l]| ==> s'.queues[l][i] == s.queues[l][i + 1];
    forall m, i | 0 <= m < LOCKS && 0 <= i < |s'.queues[m]|
      ensures s'.queues[m][i] != t && s'.queues[m][i] in s.queues[m]
    {
      if m != l { assert s.queues[m][i] == s'.queues[m][i]; }
    }
    forall u | 0 <= u < |s'.tasks| && s'.tasks[u].queued
      ensures Wants(s'.tasks[u].phase).Some? && u in s'.queues[Wants(s'.tasks[u].phase).value.lock]
    {
      assert u != t && s'.tasks[u] == s.tasks[u];
      assert s.queues[l] == [t] + s.queues[l][1..];
    }
  }

  lemma GrantKeepsQueues(setup: Setup, s: State, l: nat)
    requires Shaped(s) && QueuesRight(s) && Enabled(s, Grant(l))
    ensures Shaped(Apply(setup, s, Grant(l))) && QueuesRight(Apply(setup, s, Grant(l)))
  {
    GrantStep(setup, s, l);
    PopKeepsQueues(s, Apply(setup, s, Grant(l)), l, s.queues[l][0]);
  }

  lemma AskKeepsQueues(setup: Setup, s: State, t: nat)
    requires Shaped(s) && QueuesRight(s) && Enabled(s, Ask(t))
    ensures Shaped(Apply(setup, s, Ask(t))) && QueuesRight(Apply(setup, s, Ask(t)))
  {
    var s', l := Apply(setup, s, Ask(t)), Wants(s.tasks[t].phase).value.lock;
    assert t !in s.queues[l];
    assert s'.queues[l] == s.queues[l] + [t];
    assert s'.queues[l][|s.queues[l]|] == t;
    forall u | 0 <= u < |s'.tasks| && s'.tasks[u].queued
      ensures u in s'.queues[Wants(s'.tasks[u].phase).value.lock]
    {
      if u != t { assert s'.tasks[u] == s.tasks[u]; }
    }
  }

  lemma ExclusiveStep(setup: Setup, s: State, a: Action)
    requires Shaped(s) && QueuesRight(s) && Exclusive(s) && Enabled(s, a)
    ensures Exclusive(Apply(setup, s, a))
  {
    var s' := Apply(setup, s, a);
    if a.Grant? {
      GrantStep(setup, s, a.lock);
      var t := s.queues[a.lock][0];
      forall u, v, l | 0 <= u < |s'.tasks| && 0 <= v < |s'.tasks| && u != v && 0 <= l < LOCKS
                       && Holds(s'.tasks[u].phase, l) == Some(Write)
        ensures Holds(s'.tasks[v].phase, l).None?
      {
        if l != a.lock {
          assert Holds(s.tasks[u].phase, l) == Some(Write);
        }
      }
    } else if a.Ask? {
    } else {
      LocalStep(setup, s, a);
      forall u, v, l | 0 <= u < |s'.tasks| && 0 <= v < |s'.tasks| && u != v && 0 <= l < LOCKS
                       && Holds(s'.tasks[u].phase, l) == Some(Write)
        ensures Holds(s'.tasks[v].phase, l).None?
      {
        assert Holds(s.tasks[u].phase, l) == Some(Write);
      }
    }
  }

  lemma SnapshotsStep(setup: Setup, s: State, a: Action)
    requires Shaped(s) && QueuesRight(s) && Exclusive(s) && SnapshotsCurrent(s) && Enabled(s, a)
    ensures SnapshotsCurrent(Apply(setup, s, a))
  {
    if a.Change? {
      forall u | 0 <= u < |s.tasks| ensures !Working(s.tasks[u].phase) {
        assert Holds(s.tasks[a.task].phase, s.tasks[a.task].phase.lock) == Some(Write);
        assert u != a.task ==> Holds(s.tasks[u].phase, s.tasks[a.task].phase.lock).None?;
      }
    }
  }

  function Actor(s: State, a: Action): nat
    requires Enabled(s, a)
  {
    if a.Grant? then s.queues[a.lock][0] else a.task
  }

  lemma ActorOnly(setup: Setup, s: State, a: Action)
    requires Enabled(s, a)
    ensures var s' := Apply(setup, s, a);
      && |s'.tasks| == |s.tasks| && Actor(s, a) < |s.tasks|
      && forall u :: 0 <= u < |s.tasks| && u != Actor(s, a) ==> s'.tasks[u] == s.tasks[u]
  {
  }

  /** The actor takes on every address that its step leaves, or makes, wrong. */
  lemma ActorCovers(setup: Setup, s: State, a: Action, ip: Ip)
    requires ValidSetup(setup) && Shaped(s) && SnapshotsCurrent(s) && Enabled(s, a)
    requires Right(setup, s, ip) || Covers(setup, s.src, s.tasks[Actor(s, a)], ip)
    requires !Right(setup, Apply(setup, s, a), ip)
    ensures Covers(setup, Apply(setup, s, a).src, Apply(setup, s, a).tasks[Actor(s, a)], ip)
  {
    var t, s' := Actor(s, a), Apply(setup, s, a);
    assert setup.shardOf(ip) < setup.shards;
    match a
    case Begin(_, _) =>
    case Ask(_) =>
    case Grant(_) =>
    case Change(_, _) =>
    case StoreNamespaces(_) =>
    case Insert(_, other) =>
      assert s.tasks[t].phase.snap == s.src;
    case Advance(_) =>
      if Working(s.tasks[t].phase) { assert s.tasks[t].phase.snap == s.src; }
  }

  lemma CoveredStep(setup: Setup, s: State, a: Action)
    requires ValidSetup(setup) && Shaped(s) && SnapshotsCurrent(s) && Covered(setup, s) && Enabled(s, a)
    ensures Covered(setup, Apply(setup, s, a))
  {
    var t, s' := Actor(s, a), Apply(setup, s, a);
    ActorOnly(setup, s, a);
    forall ip | !Right(setup, s', ip)
      ensures exists u :: 0 <= u < |s'.tasks| && Covers(setup, s'.src, s'.tasks[u], ip)
    {
      if Right(setup, s, ip) || Covers(setup, s.src, s.tasks[t], ip) {
        ActorCovers(setup, s, a, ip);
      } else if a.Change? {
        assert Covers(setup, s'.src, s'.tasks[t], ip);
      } else {
        var u :| 0 <= u < |s.tasks| && Covers(setup, s.src, s.tasks[u], ip);
        assert s'.tasks[u] == s.tasks[u] && s'.src == s.src;
      }
    }
  }

  lemma ActorClears(setup: Setup, s: State, a: Action, ip: Ip)
    requires ValidSetup(setup) && Shaped(s) && SnapshotsCurrent(s) && Enabled(s, a)
    requires Derived(setup, s, ip) || WillClear(setup, s.tasks[Actor(s, a)], ip)
    requires !Derived(setup, Apply(setup, s, a), ip)
    ensures WillClear(setup, Apply(setup, s, a).tasks[Actor(s, a)], ip)
  {
    var t := Actor(s, a);
    assert setup.shardOf(ip) < setup.shards;
    match a
    case Begin(_, _) =>
    case Ask(_) =>
    case Grant(_) =>
    case Change(_, _) =>
    case StoreNamespaces(_) =>
    case Insert(_, other) =>
      assert s.tasks[t].phase.snap == s.src;
    case Advance(_) =>
  }

  lemma NothingStaleStep(setup: Setup, s: State, a: Action)
    requires ValidSetup(setup) && Shaped(s) && SnapshotsCurrent(s) && NothingStale(setup, s) && Enabled(s, a)
    ensures NothingStale(setup, Apply(setup, s, a))
  {
    var t, s' := Actor(s, a), Apply(setup, s, a);
    ActorOnly(setup, s, a);
    forall ip | !Derived(setup, s', ip)
      ensures exists u :: 0 <= u < |s'.tasks| && WillClear(setup, s'.tasks[u], ip)
    {
      if Derived(setup, s, ip) || WillClear(setup, s.tasks[t], ip) {
        ActorClears(setup, s, a, ip);
      } else {
        var u :| 0 <= u < |s.tasks| && WillClear(setup, s.tasks[u], ip);
        assert s'.tasks[u] == s.tasks[u];
      }
    }
  }

  lemma InvStep(setup: Setup, s: State, a: Action)
    requires ValidSetup(setup) && Inv(setup, s) && Enabled(s, a)
    ensures Inv(setup, Apply(setup, s, a))
  {
    QueuesStep(setup, s, a);
    ExclusiveStep(setup, s, a);
    SnapshotsStep(setup, s, a);
    CoveredStep(setup, s, a);
    NothingStaleStep(setup, s, a);
  }

  lemma InvInit(setup: Setup, s: State)
    requires ValidSetup(setup) && Init(s)
    ensures Inv(setup, s)
  {
    forall ip ensures Right(setup, s, ip) {
    }
  }

  /** Whatever the interleaving, every state of every run satisfies the invariant. */
  lemma {:induction false} RunKeepsInv(setup: Setup, states: seq<State>, actions: seq<Action>, i: nat)
    requires Run(setup, states, actions) && i < |states|
    ensures Inv(setup, states[i])
  {
    if i == 0 {
      InvInit(setup, states[0]);
    } else {
      RunKeepsInv(setup, states, actions, i - 1);
      InvStep(setup, states[i - 1], actions[i - 1]);
    }
  }

  // ----- Safety -----

  /** No change is waiting for its rebuild, and no rebuild is at work. Lookups and tasks
      that wait for locks do not matter. */
  predicate Settled(s: State) {
    forall t :: 0 <= t < |s.tasks| ==> !s.tasks[t].owes && !Working(s.tasks[t].phase)
  }

  lemma SettledIsRight(setup: Setup, s: State, ip: Ip)
    requires Inv(setup, s) && Settled(s)
    ensures Right(setup, s, ip)
  {
  }

  /** In every run, once settled, the cache is the table of `Spec` for the current state. */
  lemma SettledCacheIsFresh(config: MetadataConfig, shards: nat, shardOf: Ip -> nat,
                            states: seq<State>, actions: seq<Action>, i: nat)
    requires forall ip :: shardOf(ip) < shards
    requires Run(ServiceSetup(config, shards, shardOf), states, actions) && i < |states| && Settled(states[i])
    ensures Fresh(states[i].cache, states[i].src, config)
  {
    var setup := ServiceSetup(config, shards, shardOf);
    RunKeepsInv(setup, states, actions, i);
    forall ip ensures Lookup(states[i].cache, ip) == Spec(states[i].src, config, ip) {
      SettledIsRight(setup, states[i], ip);
    }
  }

  /** In every run, an entry that does not follow from the current state is served only while some task
      owes a rebuild, or is clearing and has not reached the shard. */
  lemma StaleEntryIsOwed(setup: Setup, states: seq<State>, actions: seq<Action>, i: nat, ip: Ip)
    requires Run(setup, states, actions) && i < |states|
    requires forall t :: 0 <= t < |states[i].tasks| ==> !WillClear(setup, states[i].tasks[t], ip)
    ensures Derived(setup, states[i], ip)
  {
    RunKeepsInv(setup, states, actions, i);
  }
}
