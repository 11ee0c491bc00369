/**
 * The saved node credentials: how one write changes the list, and why writers that take turns
 * through the directory lock lose nothing as long as none holds it past the staleness limit.
 */
module CredentialStore {
  import opened Wrappers

  const STALE_MS := 15000

  datatype Credential = Credential(controlPlaneUrl: string, nodeId: string, nodeName: string, token: string)

  /** Both name the same node of the same control plane, by id or by name. */
  predicate Clashes(a: Credential, b: Credential) {
    a.controlPlaneUrl == b.controlPlaneUrl && (a.nodeId == b.nodeId || a.nodeName == b.nodeName)
  }

  /** The list without the entries the new credential replaces. */
  function Kept(list: seq<Credential>, c: Credential): (r: seq<Credential>)
    ensures forall x :: x in r <==> x in list && !Clashes(x, c)
  {
    if list == [] then []
    else
      var init := Kept(list[..|list| - 1], c);
      var last := list[|list| - 1];
      assert list == list[..|list| - 1] + [last];
      if last.controlPlaneUrl != c.controlPlaneUrl || (last.nodeId != c.nodeId && last.nodeName != c.nodeName)
      then init + [last] else init
  }

  function Updated(list: seq<Credential>, c: Credential): seq<Credential> {
    Kept(list, c) + [c]
  }

  /** At most one entry per (control plane, node id) and per (control plane, node name). */
  ghost predicate Unique(list: seq<Credential>) {
    forall i, j :: 0 <= i < j < |list| ==> !Clashes(list[i], list[j])
  }

  lemma {:induction false} KeptUnique(list: seq<Credential>, c: Credential)
    requires Unique(list)
    ensures Unique(Kept(list, c))
    decreases |list|
  {
    if list == [] {
    } else {
      var init, last := list[..|list| - 1], list[|list| - 1];
      KeptUnique(init, c);
      var kept := Kept(init, c);
      forall i | 0 <= i < |kept| ensures !Clashes(kept[i], last) {
        assert kept[i] in init;
        var k :| 0 <= k < |init| && init[k] == kept[i];
      }
    }
  }

  /** `findNodeCredential` under the lock: the first entry with this control plane and name. */
  function Find(list: seq<Credential>, url: string, name: string): Option<Credential> {
    if list == [] then None
    else if list[0].controlPlaneUrl == url && list[0].nodeName == name then Some(list[0])
    else Find(list[1..], url, name)
  }

  lemma {:induction false} FindSpec(list: seq<Credential>, url: string, name: string)
    ensures match Find(list, url, name)
            case Some(x) => x in list && x.controlPlaneUrl == url && x.nodeName == name
            case None => forall x :: x in list ==> x.controlPlaneUrl != url || x.nodeName != name
  {
    if list == [] {
    } else {
      FindSpec(list[1..], url, name);
    }
  }

  /**
   * A write keeps the list unambiguous; afterwards the written credential is the one found under
   * its name, and every entry that does not clash with it is still there.
   */
  lemma WriteThenFind(list: seq<Credential>, c: Credential)
    requires Unique(list)
    ensures Unique(Updated(list, c))
    ensures Find(Updated(list, c), c.controlPlaneUrl, c.nodeName) == Some(c)
    ensures forall x :: x in Updated(list, c) <==> x == c || (x in list && !Clashes(x, c))
  {
    KeptUnique(list, c);
    var updated := Updated(list, c);
    FindSpec(updated, c.controlPlaneUrl, c.nodeName);
    assert updated[|updated| - 1] == c;
    assert c in updated;
    match Find(updated, c.controlPlaneUrl, c.nodeName)
    case Some(x) => assert Clashes(x, c);
    case None =>
  }

  /** The write as the code does it, filtering and then pushing. */
  method WriteNodeCredential(list: seq<Credential>, c: Credential) returns (r: seq<Credential>)
    ensures r == Updated(list, c)
  {
    r := [];
    for i := 0 to |list|
      invariant r == Kept(list[..i], c)
    {
      var item := list[i];
      assert list[..i + 1][..i] == list[..i];
      if item.controlPlaneUrl != c.controlPlaneUrl || (item.nodeId != c.nodeId && item.nodeName != c.nodeName) {
        r := r + [item];
      }
    }
    assert list[..|list|] == list;
    r := r + [c];
  }

  // ---------- writers taking turns ----------

  datatype Writer =
    | Waiting
    | SawLock                                                     // mkdir failed with EEXIST
    | JudgedStale                                                 // about to rmdir the lock
    | Holding(since: nat)
    | HasRead(since: nat, snapshot: seq<Credential>)
    | HasWritten(since: nat)

  datatype World = World(
    now: nat,
    lock: Option<nat>,            // the lock directory's modification time
    file: seq<Credential>,
    writers: seq<Writer>,
    written: seq<Credential>)     // every credential written, in the order of the writes

  datatype Step =
    | Tick
    | MakeLock(p: nat)
    | FindLockPresent(p: nat)
    | StatLock(p: nat)
    | RemoveStale(p: nat)
    | Read(p: nat)
    | Write(p: nat, c: Credential)
    | Release(p: nat)

  predicate Holds(w: Writer) {
    w.Holding? || w.HasRead? || w.HasWritten?
  }

  /** No critical section outlives the staleness limit. */
  ghost predicate Timely(w: World) {
    forall p :: 0 <= p < |w.writers| && Holds(w.writers[p]) ==> w.now <= w.writers[p].since + STALE_MS
  }

  ghost predicate Enabled(w: World, step: Step) {
    match step
    case Tick => true
    case MakeLock(p) => p < |w.writers| && w.writers[p].Waiting? && w.lock.None?
    case FindLockPresent(p) => p < |w.writers| && w.writers[p].Waiting? && w.lock.Some?
    case StatLock(p) => p < |w.writers| && w.writers[p].SawLock?
    case RemoveStale(p) => p < |w.writers| && w.writers[p].JudgedStale?
    case Read(p) => p < |w.writers| && w.writers[p].Holding?
    case Write(p, _) => p < |w.writers| && w.writers[p].HasRead?
    case Release(p) => p < |w.writers| && Holds(w.writers[p])
  }

  function Apply(w: World, step: Step): World
    requires Enabled(w, step)
  {
    match step
    case Tick => w.(now := w.now + 1)
    case MakeLock(p) => w.(lock := Some(w.now), writers := w.writers[p := Holding(w.now)])
    case FindLockPresent(p) => w.(writers := w.writers[p := SawLock])
    case StatLock(p) =>
      if w.lock.Some? && w.now > w.lock.value + STALE_MS
      then w.(writers := w.writers[p := JudgedStale])
      else w.(writers := w.writers[p := Waiting])
    case RemoveStale(p) => w.(lock := None, writers := w.writers[p := Waiting])
    case Read(p) => w.(writers := w.writers[p := HasRead(w.writers[p].since, w.file)])
    case Write(p, c) =>
      w.(file := Updated(w.writers[p].snapshot, c), written := w.written + [c],
         writers := w.writers[p := HasWritten(w.writers[p].since)])
    case Release(p) => w.(lock := None, writers := w.writers[p := Waiting])
  }

  ghost predicate Initial(w: World) {
    w.lock.None? && w.written == [] && Unique(w.file) && forall p :: 0 <= p < |w.writers| ==> w.writers[p].Waiting?
  }

  ghost predicate Next(w: World, w': World) {
    exists step :: Enabled(w, step) && w' == Apply(w, step)
  }

  /** An interleaving without crashes. */
  ghost predicate IsRun(states: seq<World>) {
    && states != [] && Initial(states[0])
    && forall i :: 0 <= i < |states| - 1 ==> Next(states[i], states[i + 1])
  }

  function Sequentially(start: seq<Credential>, written: seq<Credential>): seq<Credential> {
    if written == [] then start
    else Updated(Sequentially(start, written[..|written| - 1]), written[|written| - 1])
  }

  ghost predicate Exclusive(w: World) {
    forall p, q :: 0 <= p < q < |w.writers| ==> !(Holds(w.writers[p]) && Holds(w.writers[q]))
  }

  ghost predicate Inv(w: World, start: seq<Credential>) {
    && Exclusive(w)
    && (forall p :: 0 <= p < |w.writers| && Holds(w.writers[p]) ==> w.lock == Some(w.writers[p].since))
    && (w.lock.Some? ==> exists p :: 0 <= p < |w.writers| && Holds(w.writers[p]))
    && (forall p :: 0 <= p < |w.writers| ==> !w.writers[p].JudgedStale?)
    && (forall p :: 0 <= p < |w.writers| && w.writers[p].HasRead? ==> w.writers[p].snapshot == w.file)
    && w.file == Sequentially(start, w.written)
    && Unique(w.file)
  }

  lemma WriteKeeps(w: World, p: nat, c: Credential, start: seq<Credential>)
    requires Inv(w, start) && Enabled(w, Write(p, c))
    ensures Inv(Apply(w, Write(p, c)), start)
  {
    var w' := Apply(w, Write(p, c));
    WriteThenFind(w.file, c);
    SequentiallyOneMore(start, w.written, c);
    assert Holds(w'.writers[p]);
  }

  lemma SequentiallyOneMore(start: seq<Credential>, written: seq<Credential>, c: Credential)
    ensures Sequentially(start, written + [c]) == Updated(Sequentially(start, written), c)
  {
    assert (written + [c])[..|written|] == written;
  }

  lemma StepKeeps(w: World, step: Step, start: seq<Credential>)
    requires Inv(w, start) && Timely(w) && Enabled(w, step)
    ensures Inv(Apply(w, step), start)
  {
    match step
    case Write(p, c) => WriteKeeps(w, p, c, start);
    case MakeLock(p) => assert Holds(Apply(w, step).writers[p]);
    case Read(p) => assert Holds(Apply(w, step).writers[p]);
    case _ => StepKeepsHolder(w, step);
  }

  lemma StepKeepsHolder(w: World, step: Step)
    requires Enabled(w, step) && Exclusive(w)
    requires step.Tick? || step.FindLockPresent? || step.StatLock? || step.Release? || step.RemoveStale?
    ensures var w' := Apply(w, step);
            && |w'.writers| == |w.writers|
            && forall p :: 0 <= p < |w.writers| && Holds(w'.writers[p]) ==> w'.writers[p] == w.writers[p]
    ensures !step.Release? ==>
              forall p :: 0 <= p < |w.writers| && Holds(w.writers[p]) ==> Apply(w, step).writers[p] == w.writers[p]
  {}

  /**
   * In every crash-free interleaving whose critical sections stay within the staleness limit, at
   * most one writer holds the lock, the file is what the writes applied one after another would
   * have left, and it stays unambiguous: no update is lost.
   */
  lemma {:induction false} NoLostUpdates(states: seq<World>, i: nat)
    requires IsRun(states) && i < |states|
    requires forall k :: 0 <= k < i ==> Timely(states[k])
    ensures Exclusive(states[i]) && Unique(states[i].file)
    ensures states[i].file == Sequentially(states[0].file, states[i].written)
    ensures Inv(states[i], states[0].file)
    decreases i
  {
    if i == 0 {
    } else {
      NoLostUpdates(states, i - 1);
      assert Next(states[i - 1], states[i - 1 + 1]);
      var step :| Enabled(states[i - 1], step) && states[i] == Apply(states[i - 1], step);
      StepKeeps(states[i - 1], step, states[0].file);
    }
  }

  ghost predicate IsPath(path: seq<World>) {
    path != [] && forall i :: 0 <= i < |path| - 1 ==> Next(path[i], path[i + 1])
  }

  lemma Extend(path: seq<World>, step: Step, after: World) returns (longer: seq<World>)
    requires IsPath(path) && Enabled(path[|path| - 1], step) && after == Apply(path[|path| - 1], step)
    ensures IsPath(longer) && longer[0] == path[0] && longer[|longer| - 1] == after
  {
    assert Next(path[|path| - 1], after);
    longer := path + [after];
  }

  lemma TwoWrites(a: Credential, b: Credential)
    requires !Clashes(a, b)
    ensures Sequentially([], [a, b]) == [a, b] && Updated([], a) == [a] && Updated([], b) == [b]
  {
    assert [a, b][..1] == [a] && [a][..0] == [] && [a, b][..1][..0] == [];
    assert Kept([], a) == [] && Kept([], b) == [];
    assert Sequentially([], [a]) == [a];
    assert Kept([a], b) == [a];
  }

  /** Time passes and nothing else happens. */
  lemma {:induction false} Wait(start: seq<World>, until: nat) returns (path: seq<World>)
    requires IsPath(start) && start[|start| - 1].now <= until
    ensures IsPath(path) && path[0] == start[0] && path[|path| - 1] == start[|start| - 1].(now := until)
    decreases until - start[|start| - 1].now
  {
    var w := start[|start| - 1];
    if w.now == until {
      path := start;
    } else {
      path := Extend(start, Tick, w.(now := w.now + 1));
      path := Wait(path, until);
    }
  }

  lemma HolderOverstays() returns (path: seq<World>)
    ensures IsRun(path) && IsPath(path) && path[0] == World(0, None, [], [Waiting, Waiting], [])
    ensures path[|path| - 1] == World(STALE_MS + 1, Some(0), [], [Holding(0), SawLock], [])
  {
    path := [World(0, None, [], [Waiting, Waiting], [])];
    path := Extend(path, MakeLock(0), World(0, Some(0), [], [Holding(0), Waiting], []));
    path := Extend(path, FindLockPresent(1), World(0, Some(0), [], [Holding(0), SawLock], []));
    path := Wait(path, STALE_MS + 1);
  }

  /**
   * The limit is needed: a holder that outlives it is displaced while it still works, both read
   * the same list, and the second write drops the first.
   */
  lemma OverstayingLosesUpdate(a: Credential, b: Credential) returns (path: seq<World>)
    requires !Clashes(a, b)
    ensures IsRun(path) && path[0] == World(0, None, [], [Waiting, Waiting], [])
    ensures var last := path[|path| - 1];
            last.written == [a, b] && last.file == [b] && Sequentially([], last.written) == [a, b]
  {
    TwoWrites(a, b);
    path := HolderOverstays();
    path := DisplaceHolder(path);
    path := BothReadAndWrite(path, a, b);
  }

  lemma DisplaceHolder(start: seq<World>) returns (path: seq<World>)
    requires IsPath(start) && start[|start| - 1] == World(STALE_MS + 1, Some(0), [], [Holding(0), SawLock], [])
    ensures IsPath(path) && path[0] == start[0]
    ensures path[|path| - 1] == World(STALE_MS + 1, Some(STALE_MS + 1), [], [Holding(0), Holding(STALE_MS + 1)], [])
  {
    var late := STALE_MS + 1;
    path := Extend(start, StatLock(1), World(late, Some(0), [], [Holding(0), JudgedStale], []));
    path := Extend(path, RemoveStale(1), World(late, None, [], [Holding(0), Waiting], []));
    path := Extend(path, MakeLock(1), World(late, Some(late), [], [Holding(0), Holding(late)], []));
  }

  /** One write, from what the writer has read. */
  lemma WriteStep(start: seq<World>, p: nat, c: Credential) returns (path: seq<World>)
    requires IsPath(start) && p < |start[|start| - 1].writers| && start[|start| - 1].writers[p].HasRead?
    ensures IsPath(path) && path[0] == start[0]
    ensures var w, w' := start[|start| - 1], path[|path| - 1];
            && w'.file == Updated(w.writers[p].snapshot, c) && w'.written == w.written + [c]
            && w'.writers == w.writers[p := HasWritten(w.writers[p].since)]
  {
    path := Extend(start, Write(p, c), Apply(start[|start| - 1], Write(p, c)));
  }

  lemma BothReadAndWrite(start: seq<World>, a: Credential, b: Credential) returns (path: seq<World>)
    requires !Clashes(a, b) && IsPath(start)
    requires start[|start| - 1] == World(STALE_MS + 1, Some(STALE_MS + 1), [], [Holding(0), Holding(STALE_MS + 1)], [])
    ensures IsPath(path) && path[0] == start[0]
    ensures path[|path| - 1].written == [a, b] && path[|path| - 1].file == [b]
  {
    path := BothRead(start);
    path := BothWrite(path, a, b);
  }

  lemma BothRead(start: seq<World>) returns (path: seq<World>)
    requires IsPath(start)
    requires start[|start| - 1] == World(STALE_MS + 1, Some(STALE_MS + 1), [], [Holding(0), Holding(STALE_MS + 1)], [])
    ensures IsPath(path) && path[0] == start[0]
    ensures path[|path| - 1] ==
              World(STALE_MS + 1, Some(STALE_MS + 1), [], [HasRead(0, []), HasRead(STALE_MS + 1, [])], [])
  {
    var late := STALE_MS + 1;
    path := Extend(start, Read(1), World(late, Some(late), [], [Holding(0), HasRead(late, [])], []));
    path := Extend(path, Read(0), World(late, Some(late), [], [HasRead(0, []), HasRead(late, [])], []));
  }

  lemma BothWrite(start: seq<World>, a: Credential, b: Credential) returns (path: seq<World>)
    requires !Clashes(a, b) && IsPath(start)
    requires start[|start| - 1] ==
               World(STALE_MS + 1, Some(STALE_MS + 1), [], [HasRead(0, []), HasRead(STALE_MS + 1, [])], [])
    ensures IsPath(path) && path[0] == start[0]
    ensures path[|path| - 1].written == [a, b] && path[|path| - 1].file == [b]
  {
    TwoWrites(a, b);
    path := WriteStep(start, 0, a);
    path := WriteStep(path, 1, b);
  }
}
