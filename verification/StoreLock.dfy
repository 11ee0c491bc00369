/**
 * The storage root's single-writer lock, over every interleaving of stores being opened and closed
 * by processes that may crash and whose process ids may be reused. A nonce is the number of the
 * store that wrote it.
 */
module StoreLock {
  import opened Wrappers

  /** One run of a program; `proc` is its host and process id, which a later run may have again. */
  datatype Instance = Instance(id: nat, proc: (nat, nat))

  datatype LockFile =
    | Absent
    | Unfinished(creator: nat)                     // created, its contents not yet written
    | Written(owner: Instance, nonce: nat)

  /**
   * `Releasing` has given up its nonce but not yet forgotten the path, `Overlapped` is that after
   * another close() of the same store, and `Failing` has forgotten the path after a failed write.
   */
  datatype Stage =
    | Idle | Created | Marked | Wrote | Holding | Failing | Releasing | Overlapped | Closing | Closed
    | JudgedStale | SawOwnNonce

  datatype Store = Store(owner: Instance, stage: Stage)

  datatype World = World(
    lock: LockFile,
    stores: seq<Store>,
    alive: set<Instance>,
    active: set<Instance>) // the instances whose ACTIVE_LOCKS holds the path

  datatype Step =
    | Spawn(instance: Instance)
    | OpenStore(instance: Instance)
    | Crash(instance: Instance)
    | Create(s: nat)           // open(lockPath, "wx")
    | Mark(s: nat)             // ACTIVE_LOCKS.add
    | Write(s: nat)
    | Sync(s: nat)
    | ForgetFailed(s: nat)     // the write or sync failed: ACTIVE_LOCKS.delete
    | RemoveFailed(s: nat)     // and then rm(lockPath), whoever's file it is by now
    | BreakStale(s: nat)       // judge the lock stale and remove it
    | BeginClose(s: nat)       // take the nonce
    | Forget(s: nat)           // ACTIVE_LOCKS.delete
    | EndClose(s: nat)         // remove the lock if it carries the nonce
    | GiveUp(s: nat)           // a removal that fails leaves the lock
    | CloseAgain(s: nat)       // a second close() of the store forgets the path once more
    | JudgeOnly(s: nat)        // the parts of the two compound steps, taken separately
    | RemoveJudged(s: nat)
    | CompareOnly(s: nat)
    | RemoveCompared(s: nat)

  /** `acquireLock`'s judgement of an existing lock. */
  predicate Stale(w: World, judge: Instance) {
    && w.lock.Written?
    && var owner := w.lock.owner;
       owner.proc.0 == judge.proc.0 && // same host
       if owner.proc == judge.proc then judge !in w.active || owner != judge
       else forall i :: i in w.alive ==> i.proc != owner.proc
  }

  predicate At(w: World, s: nat, stage: Stage) {
    s < |w.stores| && w.stores[s].stage == stage && w.stores[s].owner in w.alive
  }

  predicate Enabled(w: World, step: Step) {
    match step
    case Spawn(instance) =>
      && (forall i :: i in w.alive ==> i.proc != instance.proc)
      && (forall i :: i in w.alive ==> i != instance)
      && (forall k :: 0 <= k < |w.stores| ==> w.stores[k].owner != instance)
      && instance !in w.active && (w.lock.Written? ==> w.lock.owner != instance)
    case OpenStore(instance) => instance in w.alive
    case Crash(instance) => instance in w.alive
    case Create(s) => At(w, s, Idle) && w.lock.Absent?
    case Mark(s) => At(w, s, Created)
    case Write(s) => At(w, s, Marked)
    case Sync(s) => At(w, s, Wrote)
    case ForgetFailed(s) => At(w, s, Marked) || At(w, s, Wrote)
    case RemoveFailed(s) => At(w, s, Failing)
    case BreakStale(s) => At(w, s, Idle) && Stale(w, w.stores[s].owner)
    case BeginClose(s) => At(w, s, Holding)
    case Forget(s) => At(w, s, Releasing) || At(w, s, Overlapped)
    case EndClose(s) => At(w, s, Closing)
    case GiveUp(s) => At(w, s, Closing) || At(w, s, Failing)
    case CloseAgain(s) =>
      At(w, s, Releasing) || At(w, s, Overlapped) || At(w, s, Closing) || At(w, s, SawOwnNonce) || At(w, s, Closed)
    case JudgeOnly(s) => At(w, s, Idle) && Stale(w, w.stores[s].owner)
    case RemoveJudged(s) => At(w, s, JudgedStale)
    case CompareOnly(s) => At(w, s, Closing) && w.lock.Written? && w.lock.nonce == s
    case RemoveCompared(s) => At(w, s, SawOwnNonce)
  }

  function Staged(w: World, s: nat, stage: Stage): World
    requires s < |w.stores|
  {
    w.(stores := w.stores[s := w.stores[s].(stage := stage)])
  }

  function Apply(w: World, step: Step): World
    requires Enabled(w, step)
  {
    match step
    case Spawn(instance) => w.(alive := w.alive + {instance})
    case OpenStore(instance) => w.(stores := w.stores + [Store(instance, Idle)])
    case Crash(instance) => w.(alive := w.alive - {instance}, active := w.active - {instance})
    case Create(s) => Staged(w, s, Created).(lock := Unfinished(s))
    case Mark(s) => Staged(w, s, Marked).(active := w.active + {w.stores[s].owner})
    case Write(s) => Staged(w, s, Wrote).(lock := Written(w.stores[s].owner, s))
    case Sync(s) => Staged(w, s, Holding)
    case ForgetFailed(s) => Staged(w, s, Failing).(active := w.active - {w.stores[s].owner})
    case RemoveFailed(s) => Staged(w, s, Closed).(lock := Absent)
    case BreakStale(s) => w.(lock := Absent)
    case BeginClose(s) => Staged(w, s, Releasing)
    case Forget(s) => Staged(w, s, Closing).(active := w.active - {w.stores[s].owner})
    case EndClose(s) =>
      Staged(w, s, Closed).(lock := if w.lock.Written? && w.lock.nonce == s then Absent else w.lock)
    case GiveUp(s) => Staged(w, s, Closed)
    case CloseAgain(s) =>
      var stage := if w.stores[s].stage.Releasing? then Overlapped else w.stores[s].stage;
      Staged(w, s, stage).(active := w.active - {w.stores[s].owner})
    case JudgeOnly(s) => Staged(w, s, JudgedStale)
    case RemoveJudged(s) => Staged(w, s, Idle).(lock := Absent)
    case CompareOnly(s) => Staged(w, s, SawOwnNonce)
    case RemoveCompared(s) => Staged(w, s, Closed).(lock := Absent)
  }

  /** A live store that has the root, or is about to. */
  predicate Owns(w: World, s: nat) {
    At(w, s, Created) || At(w, s, Marked) || At(w, s, Wrote) || At(w, s, Holding)
  }

  /** No other live store of the same process has the root, is about to, or still has to forget it. */
  predicate AloneAtWork(w: World, s: nat)
    requires s < |w.stores|
  {
    forall t :: 0 <= t < |w.stores| && t != s && w.stores[t].owner == w.stores[s].owner ==>
      !Owns(w, t) && !At(w, t, Releasing)
  }

  /** Some store of the same process has yet to remove the file it failed to write. */
  predicate FailurePending(w: World, s: nat)
    requires s < |w.stores|
  {
    exists t :: 0 <= t < |w.stores| && w.stores[t].owner == w.stores[s].owner && At(w, t, Failing)
  }

  /**
   * A stale lock is removed as it is judged, and a store's own lock as its nonce is compared. No
   * store breaks a lock while another store of its process cleans up after a failed write. A store
   * is closed a second time, and a close it overlaps goes on to forget the path, only while no
   * other store of the process is at work.
   */
  predicate Disciplined(w: World, step: Step)
    requires Enabled(w, step)
  {
    match step
    case RemoveJudged(_) => false
    case RemoveCompared(_) => false
    case BreakStale(s) => !FailurePending(w, s)
    case CloseAgain(s) => AloneAtWork(w, s)
    case Forget(s) => At(w, s, Overlapped) ==> AloneAtWork(w, s)
    case _ => true
  }

  ghost predicate Initial(w: World) {
    w.stores == [] && w.alive == {} && w.active == {}
  }

  ghost predicate Next(w: World, w': World, disciplined: bool) {
    exists step :: Enabled(w, step) && w' == Apply(w, step) && (disciplined ==> Disciplined(w, step))
  }

  /** An interleaving, from any lock file an earlier crash may have left. */
  ghost predicate IsRun(states: seq<World>, disciplined: bool) {
    && states != [] && Initial(states[0])
    && forall i :: 0 <= i < |states| - 1 ==> Next(states[i], states[i + 1], disciplined)
  }

  /**
   * The lock file is the one the owning store made, and its process remembers holding it; a store
   * that is letting go, or cleaning up, still has its own file there.
   */
  ghost predicate LockIs(w: World, s: nat) {
    && (At(w, s, Created) || At(w, s, Marked) ==> w.lock == Unfinished(s))
    && (At(w, s, Wrote) || At(w, s, Holding) || At(w, s, Releasing) ==> w.lock == Written(w.stores[s].owner, s))
    && (At(w, s, Marked) || At(w, s, Wrote) || At(w, s, Holding) || At(w, s, Releasing) ==>
        w.stores[s].owner in w.active)
    && (At(w, s, Failing) ==> w.lock == Unfinished(s) || w.lock == Written(w.stores[s].owner, s))
  }

  ghost predicate Inv(w: World) {
    && (forall s :: 0 <= s < |w.stores| ==> LockIs(w, s))
    && (forall i, j :: i in w.alive && j in w.alive && i.proc == j.proc ==> i == j)
  }

  /** The lock file is this live store's own: it has the root, lets go of it or cleans up. */
  predicate HasFile(w: World, s: nat) {
    Owns(w, s) || At(w, s, Releasing) || At(w, s, Failing)
  }

  /** A lock judged stale belongs to no live store, unless to one that cleans up in the judge's own process. */
  lemma StaleMeansUnowned(w: World, judge: nat, s: nat)
    requires Inv(w) && At(w, judge, Idle) && Stale(w, w.stores[judge].owner) && s < |w.stores|
    ensures !Owns(w, s) && !At(w, s, Releasing)
    ensures At(w, s, Failing) ==> w.stores[s].owner == w.stores[judge].owner
  {
    assert LockIs(w, s);
  }

  lemma FilesAreOne(w: World, s: nat, t: nat)
    requires Inv(w) && HasFile(w, s) && HasFile(w, t)
    ensures s == t
  {
    assert LockIs(w, s) && LockIs(w, t);
  }

  lemma OtherHasNone(w: World, s: nat, t: nat)
    requires Inv(w) && HasFile(w, s) && s != t
    ensures !HasFile(w, t)
  {
    if HasFile(w, t) { FilesAreOne(w, s, t); }
  }

  /** The store a step is about, if it is about one. */
  function Mover(step: Step): Option<nat> {
    if step.Spawn? || step.OpenStore? || step.Crash? then None else Some(step.s)
  }

  lemma OwnStepKeeps(w: World, step: Step, s: nat)
    requires Inv(w) && Enabled(w, step) && Disciplined(w, step) && s < |w.stores| && Mover(step) == Some(s)
    ensures LockIs(Apply(w, step), s)
  {
    assert LockIs(w, s);
  }

  lemma OtherStepKeeps(w: World, step: Step, t: nat, s: nat)
    requires Inv(w) && Enabled(w, step) && Disciplined(w, step) && s < |w.stores| && Mover(step) == Some(t) && t != s
    ensures LockIs(Apply(w, step), s)
  {
    assert LockIs(w, s);
    if step.BreakStale? {
      StaleMeansUnowned(w, t, s);
    } else if HasFile(w, t) {
      OtherHasNone(w, t, s);
    }
  }

  lemma ProcessStepKeeps(w: World, step: Step, s: nat)
    requires Inv(w) && Enabled(w, step) && s < |Apply(w, step).stores| && Mover(step) == None
    ensures LockIs(Apply(w, step), s)
  {
    if s < |w.stores| { assert LockIs(w, s); }
  }

  lemma StepKeepsStore(w: World, step: Step, s: nat)
    requires Inv(w) && Enabled(w, step) && Disciplined(w, step) && s < |Apply(w, step).stores|
    ensures LockIs(Apply(w, step), s)
  {
    match Mover(step)
    case None => ProcessStepKeeps(w, step, s);
    case Some(t) => if t == s { OwnStepKeeps(w, step, s); } else { OtherStepKeeps(w, step, t, s); }
  }

  lemma StepKeeps(w: World, step: Step)
    requires Inv(w) && Enabled(w, step) && Disciplined(w, step)
    ensures Inv(Apply(w, step))
  {
    var w' := Apply(w, step);
    forall s | 0 <= s < |w'.stores| ensures LockIs(w', s) { StepKeepsStore(w, step, s); }
  }

  lemma {:induction false} RunsKeepInv(states: seq<World>, i: nat)
    requires IsRun(states, true) && i < |states|
    ensures Inv(states[i])
    decreases i
  {
    if i == 0 {
    } else {
      RunsKeepInv(states, i - 1);
      assert Next(states[i - 1], states[i - 1 + 1], true);
      var before := states[i - 1];
      var step :| Enabled(before, step) && states[i] == Apply(before, step) && Disciplined(before, step);
      StepKeeps(before, step);
    }
  }

  /**
   * In every interleaving at most one live store holds the root, and the lock file on disk is that
   * store's own: closing any other store does not remove it.
   */
  lemma SingleWriter(states: seq<World>, i: nat, s: nat, t: nat)
    requires IsRun(states, true) && i < |states| && Owns(states[i], s) && Owns(states[i], t)
    ensures s == t
    ensures At(states[i], s, Holding) ==> states[i].lock == Written(states[i].stores[s].owner, s)
  {
    RunsKeepInv(states, i);
    FilesAreOne(states[i], s, t);
    assert LockIs(states[i], s);
  }

  /**
   * Closing a store in any disciplined run: whichever other store owns the root, or is about to,
   * keeps its lock, because the lock's nonce is not the closing store's.
   */
  lemma CloseRemovesOwnOnly(states: seq<World>, i: nat, s: nat, t: nat)
    requires IsRun(states, true) && i < |states| && Enabled(states[i], EndClose(s)) && Owns(states[i], t)
    ensures var w, after := states[i], Apply(states[i], EndClose(s));
            && s != t && Owns(after, t) && after.lock == w.lock != Absent
            && (w.lock.Written? ==> w.lock.nonce == t)
  {
    RunsKeepInv(states, i);
    assert LockIs(states[i], t);
  }

  /** The file removed after a failed write is the failing store's own, and nobody has the root then. */
  lemma FailureRemovesOwnOnly(states: seq<World>, i: nat, s: nat, t: nat)
    requires IsRun(states, true) && i < |states| && Enabled(states[i], RemoveFailed(s))
    ensures states[i].lock == Unfinished(s) || states[i].lock == Written(states[i].stores[s].owner, s)
    ensures !Owns(states[i], t)
  {
    RunsKeepInv(states, i);
    assert LockIs(states[i], s);
    if t != s { OtherHasNone(states[i], s, t); }
  }

  // ---------- what the discipline lets happen ----------

  lemma ExtendWell(path: seq<World>, step: Step) returns (longer: seq<World>)
    requires IsRun(path, true) && Enabled(path[|path| - 1], step) && Disciplined(path[|path| - 1], step)
    ensures IsRun(longer, true) && longer[|longer| - 1] == Apply(path[|path| - 1], step)
  {
    assert Next(path[|path| - 1], Apply(path[|path| - 1], step), true);
    longer := path + [Apply(path[|path| - 1], step)];
  }

  /** From every disciplined run in which no lock is there, any waiting store can take the root. */
  lemma CanAcquire(path: seq<World>, s: nat) returns (longer: seq<World>)
    requires IsRun(path, true) && At(path[|path| - 1], s, Idle) && path[|path| - 1].lock.Absent?
    ensures IsRun(longer, true)
    ensures var w := path[|path| - 1];
            var a := w.stores[s].owner;
            longer[|longer| - 1] == World(Written(a, s), w.stores[s := Store(a, Holding)], w.alive, w.active + {a})
  {
    longer := ExtendWell(path, Create(s));
    longer := ExtendWell(longer, Mark(s));
    longer := ExtendWell(longer, Write(s));
    longer := ExtendWell(longer, Sync(s));
  }

  /** It can also take it over from a process of the same host that is gone. */
  lemma CanTakeOver(path: seq<World>, s: nat) returns (longer: seq<World>)
    requires IsRun(path, true) && At(path[|path| - 1], s, Idle) && path[|path| - 1].lock.Written?
    requires var w := path[|path| - 1];
             && w.lock.owner.proc.0 == w.stores[s].owner.proc.0
             && (forall i :: i in w.alive ==> i.proc != w.lock.owner.proc) && !FailurePending(w, s)
    ensures IsRun(longer, true) && At(longer[|longer| - 1], s, Holding)
    ensures longer[|longer| - 1].lock == Written(path[|path| - 1].stores[s].owner, s)
    ensures longer[|longer| - 1].alive == path[|path| - 1].alive
  {
    longer := ExtendWell(path, BreakStale(s));
    longer := CanAcquire(longer, s);
  }

  /**
   * Wherever the process of a store that has the root crashes, any waiting store of another process
   * of the host can take over, unless it has a failed write of its own process to clean up first.
   */
  lemma CanRecover(path: seq<World>, dead: nat, s: nat) returns (longer: seq<World>)
    requires IsRun(path, true) && At(path[|path| - 1], dead, Holding) && At(path[|path| - 1], s, Idle)
    requires var w := path[|path| - 1];
             && w.stores[s].owner != w.stores[dead].owner
             && w.stores[s].owner.proc.0 == w.stores[dead].owner.proc.0 && !FailurePending(w, s)
    ensures IsRun(longer, true) && At(longer[|longer| - 1], s, Holding)
    ensures path[|path| - 1].stores[dead].owner !in longer[|longer| - 1].alive
  {
    var w := path[|path| - 1];
    RunsKeepInv(path, |path| - 1);
    assert LockIs(w, dead);
    longer := ExtendWell(path, Crash(w.stores[dead].owner));
    longer := CanTakeOver(longer, s);
  }

  /** A store that has the root can let go of it, and leaves no lock behind. */
  lemma CanRelease(path: seq<World>, s: nat) returns (longer: seq<World>)
    requires IsRun(path, true) && At(path[|path| - 1], s, Holding)
    ensures IsRun(longer, true) && At(longer[|longer| - 1], s, Closed) && longer[|longer| - 1].lock.Absent?
    ensures path[|path| - 1].stores[s].owner !in longer[|longer| - 1].active
  {
    RunsKeepInv(path, |path| - 1);
    assert LockIs(path[|path| - 1], s);
    longer := ExtendWell(path, BeginClose(s));
    longer := ExtendWell(longer, Forget(s));
    longer := ExtendWell(longer, EndClose(s));
  }

  // ---------- why the discipline is needed ----------

  lemma Extend(path: seq<World>, step: Step, after: World) returns (longer: seq<World>)
    requires IsRun(path, false) && Enabled(path[|path| - 1], step) && after == Apply(path[|path| - 1], step)
    ensures IsRun(longer, false) && longer[|longer| - 1] == after
  {
    assert Next(path[|path| - 1], after, false);
    longer := path + [after];
  }

  lemma Start(lock: LockFile) returns (path: seq<World>)
    ensures IsRun(path, false) && path[|path| - 1] == World(lock, [], {}, {})
  {
    path := [World(lock, [], {}, {})];
  }

  /** A process starts and opens a store, which has not yet tried for the lock. */
  lemma OpenIn(path: seq<World>, a: Instance) returns (longer: seq<World>)
    requires IsRun(path, false) && a in path[|path| - 1].alive
    ensures IsRun(longer, false)
    ensures var w := path[|path| - 1]; longer[|longer| - 1] == w.(stores := w.stores + [Store(a, Idle)])
  {
    var w := path[|path| - 1];
    longer := Extend(path, OpenStore(a), w.(stores := w.stores + [Store(a, Idle)]));
  }

  lemma Acquire(path: seq<World>, s: nat) returns (longer: seq<World>)
    requires IsRun(path, false) && At(path[|path| - 1], s, Idle) && path[|path| - 1].lock.Absent?
    ensures IsRun(longer, false)
    ensures var w := path[|path| - 1];
            var a := w.stores[s].owner;
            longer[|longer| - 1] == World(Written(a, s), w.stores[s := Store(a, Holding)], w.alive, w.active + {a})
  {
    var w := path[|path| - 1];
    var a := w.stores[s].owner;
    var created := World(Unfinished(s), w.stores[s := Store(a, Created)], w.alive, w.active);
    longer := Extend(path, Create(s), created);
    var marked := World(Unfinished(s), w.stores[s := Store(a, Marked)], w.alive, w.active + {a});
    longer := Extend(longer, Mark(s), marked);
    var wrote := World(Written(a, s), w.stores[s := Store(a, Wrote)], w.alive, w.active + {a});
    longer := Extend(longer, Write(s), wrote);
    longer := Extend(longer, Sync(s), World(Written(a, s), w.stores[s := Store(a, Holding)], w.alive, w.active + {a}));
  }

  /** Two stores judge a dead process's lock stale at the same time; removing it twice admits both. */
  lemma SplitBreakAdmitsTwo(dead: Instance, a: Instance, b: Instance) returns (path: seq<World>)
    requires a.proc.0 == b.proc.0 == dead.proc.0 && a.proc != b.proc && dead.proc != a.proc && dead.proc != b.proc
    ensures IsRun(path, false) && Owns(path[|path| - 1], 0) && Owns(path[|path| - 1], 1)
  {
    path := TwoIdle(dead, a, b);
    var lock := Written(dead, 99);
    path := Extend(path, JudgeOnly(0), World(lock, [Store(a, JudgedStale), Store(b, Idle)], {a, b}, {}));
    path := Extend(path, BreakStale(1), World(Absent, [Store(a, JudgedStale), Store(b, Idle)], {a, b}, {}));
    path := Acquire(path, 1);
    path := FirstRemovesSecond(path, a, b);
  }

  lemma TwoIdle(dead: Instance, a: Instance, b: Instance) returns (path: seq<World>)
    requires a.proc != b.proc && dead != a && dead != b
    ensures IsRun(path, false)
    ensures path[|path| - 1] == World(Written(dead, 99), [Store(a, Idle), Store(b, Idle)], {a, b}, {})
  {
    var lock := Written(dead, 99);
    path := Start(lock);
    path := Extend(path, Spawn(a), World(lock, [], {a}, {}));
    path := Extend(path, Spawn(b), World(lock, [], {a, b}, {}));
    path := OpenIn(path, a);
    path := OpenIn(path, b);
  }

  lemma FirstRemovesSecond(start: seq<World>, a: Instance, b: Instance) returns (path: seq<World>)
    requires IsRun(start, false)
    requires start[|start| - 1] == World(Written(b, 1), [Store(a, JudgedStale), Store(b, Holding)], {a, b}, {b})
    ensures IsRun(path, false) && Owns(path[|path| - 1], 0) && Owns(path[|path| - 1], 1)
  {
    path := Extend(start, RemoveJudged(0), World(Absent, [Store(a, Idle), Store(b, Holding)], {a, b}, {b}));
    path := Extend(path, Create(0), World(Unfinished(0), [Store(a, Created), Store(b, Holding)], {a, b}, {b}));
  }

  lemma ThreeIdle(a: Instance, b: Instance) returns (path: seq<World>)
    requires a.proc != b.proc
    ensures IsRun(path, false)
    ensures path[|path| - 1] == World(Absent, [Store(a, Idle), Store(a, Idle), Store(b, Idle)], {a, b}, {})
  {
    path := Start(Absent);
    path := Extend(path, Spawn(a), World(Absent, [], {a}, {}));
    path := Extend(path, Spawn(b), World(Absent, [], {a, b}, {}));
    path := OpenIn(path, a);
    path := OpenIn(path, a);
    path := OpenIn(path, b);
  }

  /** A store of process `a` holds the root, and stores of `a` and `b` wait to be opened. */
  lemma OneHolding(a: Instance, b: Instance) returns (path: seq<World>)
    requires a.proc != b.proc
    ensures IsRun(path, false)
    ensures path[|path| - 1] == World(Written(a, 0), [Store(a, Holding), Store(a, Idle), Store(b, Idle)], {a, b}, {a})
  {
    path := ThreeIdle(a, b);
    path := Acquire(path, 0);
  }

  /** The first store closes, as far as forgetting the path. */
  lemma LetGo(start: seq<World>, a: Instance, b: Instance) returns (path: seq<World>)
    requires IsRun(start, false)
    requires start[|start| - 1] ==
             World(Written(a, 0), [Store(a, Holding), Store(a, Idle), Store(b, Idle)], {a, b}, {a})
    ensures IsRun(path, false)
    ensures path[|path| - 1] == World(Written(a, 0), [Store(a, Closing), Store(a, Idle), Store(b, Idle)], {a, b}, {})
  {
    var lock := Written(a, 0);
    path := Extend(start, BeginClose(0),
                   World(lock, [Store(a, Releasing), Store(a, Idle), Store(b, Idle)], {a, b}, {a}));
    path := Extend(path, Forget(0), World(lock, [Store(a, Closing), Store(a, Idle), Store(b, Idle)], {a, b}, {}));
  }

  /** A closing store that has compared its nonce removes the lock its own process made meanwhile. */
  lemma SplitCloseAdmitsTwo(a: Instance, b: Instance) returns (path: seq<World>)
    requires a.proc != b.proc
    ensures IsRun(path, false) && Owns(path[|path| - 1], 1) && Owns(path[|path| - 1], 2)
  {
    path := OneHolding(a, b);
    var lock := Written(a, 0);
    path := LetGo(path, a, b);
    path := Extend(path, CompareOnly(0),
                   World(lock, [Store(a, SawOwnNonce), Store(a, Idle), Store(b, Idle)], {a, b}, {}));
    path := Extend(path, BreakStale(1),
                   World(Absent, [Store(a, SawOwnNonce), Store(a, Idle), Store(b, Idle)], {a, b}, {}));
    path := Acquire(path, 1);
    path := CloserRemoves(path, a, b);
  }

  lemma CloserRemoves(start: seq<World>, a: Instance, b: Instance) returns (path: seq<World>)
    requires IsRun(start, false)
    requires start[|start| - 1] ==
               World(Written(a, 1), [Store(a, SawOwnNonce), Store(a, Holding), Store(b, Idle)], {a, b}, {a})
    ensures IsRun(path, false) && Owns(path[|path| - 1], 1) && Owns(path[|path| - 1], 2)
  {
    path := Extend(start, RemoveCompared(0),
                   World(Absent, [Store(a, Closed), Store(a, Holding), Store(b, Idle)], {a, b}, {a}));
    path := Extend(path, Create(2),
                   World(Unfinished(2), [Store(a, Closed), Store(a, Holding), Store(b, Created)], {a, b}, {a}));
  }

  /** Closing a store a second time forgets the lock of the process's other store, which is then displaced. */
  lemma ClosingTwiceAdmitsTwo(a: Instance, b: Instance) returns (path: seq<World>)
    requires a.proc != b.proc
    ensures IsRun(path, false) && Owns(path[|path| - 1], 1) && Owns(path[|path| - 1], 3)
  {
    path := OneHolding(a, b);
    path := LetGo(path, a, b);
    path := Extend(path, EndClose(0), World(Absent, [Store(a, Closed), Store(a, Idle), Store(b, Idle)], {a, b}, {}));
    path := Acquire(path, 1);
    path := OpenIn(path, a);
    path := ForgottenLock(path, a, b);
  }

  lemma ForgottenLock(start: seq<World>, a: Instance, b: Instance) returns (path: seq<World>)
    requires IsRun(start, false)
    requires start[|start| - 1] ==
             World(Written(a, 1), [Store(a, Closed), Store(a, Holding), Store(b, Idle), Store(a, Idle)], {a, b}, {a})
    ensures IsRun(path, false) && Owns(path[|path| - 1], 1) && Owns(path[|path| - 1], 3)
  {
    var stores := [Store(a, Closed), Store(a, Holding), Store(b, Idle), Store(a, Idle)];
    path := Extend(start, CloseAgain(0), World(Written(a, 1), stores, {a, b}, {}));
    path := DisplaceHolder(path, 1, 3);
  }

  /** A store whose process has forgotten the path it holds is displaced by the process's next store. */
  lemma DisplaceHolder(start: seq<World>, holder: nat, next: nat) returns (path: seq<World>)
    requires IsRun(start, false) && start[|start| - 1].active == {}
    requires var w := start[|start| - 1];
             && At(w, holder, Holding) && At(w, next, Idle) && w.stores[next].owner == w.stores[holder].owner
             && w.lock == Written(w.stores[holder].owner, holder)
    ensures IsRun(path, false) && Owns(path[|path| - 1], holder) && Owns(path[|path| - 1], next)
  {
    var w := start[|start| - 1];
    path := Extend(start, BreakStale(next), w.(lock := Absent));
    path := Extend(path, Create(next), Staged(w, next, Created).(lock := Unfinished(next)));
  }

  /**
   * A second close() that overlaps the first forgets the path early; once the process has opened
   * its next store, the first close forgets that one's lock too.
   */
  lemma OverlappingClosesAdmitTwo(a: Instance, b: Instance) returns (path: seq<World>)
    requires a.proc != b.proc
    ensures IsRun(path, false) && Owns(path[|path| - 1], 1) && Owns(path[|path| - 1], 3)
  {
    path := OneHolding(a, b);
    var lock := Written(a, 0);
    path := Extend(path, BeginClose(0),
                   World(lock, [Store(a, Releasing), Store(a, Idle), Store(b, Idle)], {a, b}, {a}));
    path := Extend(path, CloseAgain(0),
                   World(lock, [Store(a, Overlapped), Store(a, Idle), Store(b, Idle)], {a, b}, {}));
    path := Extend(path, BreakStale(1),
                   World(Absent, [Store(a, Overlapped), Store(a, Idle), Store(b, Idle)], {a, b}, {}));
    path := Acquire(path, 1);
    path := OpenIn(path, a);
    path := LateForget(path, a, b);
  }

  lemma LateForget(start: seq<World>, a: Instance, b: Instance) returns (path: seq<World>)
    requires IsRun(start, false)
    requires start[|start| - 1] ==
             World(Written(a, 1), [Store(a, Overlapped), Store(a, Holding), Store(b, Idle), Store(a, Idle)],
                   {a, b}, {a})
    ensures IsRun(path, false) && Owns(path[|path| - 1], 1) && Owns(path[|path| - 1], 3)
  {
    var stores := [Store(a, Closing), Store(a, Holding), Store(b, Idle), Store(a, Idle)];
    path := Extend(start, Forget(0), World(Written(a, 1), stores, {a, b}, {}));
    path := DisplaceHolder(path, 1, 3);
  }

  /**
   * A store whose sync failed forgets the path before it removes its file. In between another
   * store of its process takes the root, and the late removal lets a third one in.
   */
  lemma SplitFailureAdmitsTwo(a: Instance, b: Instance) returns (path: seq<World>)
    requires a.proc != b.proc
    ensures IsRun(path, false) && Owns(path[|path| - 1], 1) && Owns(path[|path| - 1], 2)
  {
    path := FailedWrite(a, b);
    path := Extend(path, BreakStale(1), World(Absent, [Store(a, Failing), Store(a, Idle), Store(b, Idle)], {a, b}, {}));
    path := Acquire(path, 1);
    path := LateRemoval(path, a, b);
  }

  lemma FailedWrite(a: Instance, b: Instance) returns (path: seq<World>)
    requires a.proc != b.proc
    ensures IsRun(path, false)
    ensures path[|path| - 1] == World(Written(a, 0), [Store(a, Failing), Store(a, Idle), Store(b, Idle)], {a, b}, {})
  {
    path := ThreeIdle(a, b);
    path := Extend(path, Create(0),
                   World(Unfinished(0), [Store(a, Created), Store(a, Idle), Store(b, Idle)], {a, b}, {}));
    path := Extend(path, Mark(0),
                   World(Unfinished(0), [Store(a, Marked), Store(a, Idle), Store(b, Idle)], {a, b}, {a}));
    path := Extend(path, Write(0),
                   World(Written(a, 0), [Store(a, Wrote), Store(a, Idle), Store(b, Idle)], {a, b}, {a}));
    path := Extend(path, ForgetFailed(0),
                   World(Written(a, 0), [Store(a, Failing), Store(a, Idle), Store(b, Idle)], {a, b}, {}));
  }

  lemma LateRemoval(start: seq<World>, a: Instance, b: Instance) returns (path: seq<World>)
    requires IsRun(start, false)
    requires start[|start| - 1] ==
             World(Written(a, 1), [Store(a, Failing), Store(a, Holding), Store(b, Idle)], {a, b}, {a})
    ensures IsRun(path, false) && Owns(path[|path| - 1], 1) && Owns(path[|path| - 1], 2)
  {
    path := Extend(start, RemoveFailed(0),
                   World(Absent, [Store(a, Closed), Store(a, Holding), Store(b, Idle)], {a, b}, {a}));
    path := Extend(path, Create(2),
                   World(Unfinished(2), [Store(a, Closed), Store(a, Holding), Store(b, Created)], {a, b}, {a}));
  }
}
