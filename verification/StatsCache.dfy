/**
 * The bucket statistics cache under interleaved calls, directory scans and mutations. A scan looks
 * at each object at a moment of its own; a mutation takes effect, then invalidates the cache, then
 * returns.
 */
module StatsCache {
  import opened Wrappers

  type Key = string
  type Truth = map<Key, nat> // the objects on disk and their sizes

  /** `Failed` is a put that threw after its rename: the object is there, the cache was left alone. */
  datatype Stage = Applied | Invalidated | Returned | Failed

  /** `effect` is the position in the history at which the mutation's result first appears. */
  datatype Mutation = Mutation(effect: nat, stage: Stage)

  /**
   * `startedAt` and `endedAt` are the positions in the history when the scan began and ended;
   * `seen` gives, for each object looked at, the position at which it was looked at. The totals
   * are counted up as the scan goes. A scan that failed never ends.
   */
  datatype Scan = Scan(
    startedAt: nat, seen: map<Key, nat>, endedAt: Option<nat>, objectCount: nat, sizeBytes: nat, failed: bool)

  /** `floor` is the latest effect among the mutations that had returned when the call began. */
  datatype Call = Call(floor: nat, scan: nat)

  datatype World = World(
    history: seq<Truth>,
    mutations: seq<Mutation>,
    cache: Option<nat>,
    scans: seq<Scan>,
    calls: seq<Call>)

  datatype Step =
    | Mutate(after: Truth)
    | Invalidate(m: nat)
    | Return(m: nat)
    | Fail(m: nat)
    | DropCache                    // bucket discovery, or an expired entry being replaced
    | CallCached
    | CallFresh
    | Observe(scan: nat, key: Key)
    | ScanEnds(scan: nat)
    | ScanFails(scan: nat)

  function Settled(mutations: seq<Mutation>): (floor: nat)
    ensures forall m :: m in mutations && m.stage.Returned? ==> m.effect <= floor
    ensures floor == 0 || exists m :: m in mutations && m.stage.Returned? && m.effect == floor
  {
    if mutations == [] then 0
    else
      var rest := Settled(mutations[1..]);
      if mutations[0].stage.Returned? && mutations[0].effect > rest then mutations[0].effect else rest
  }

  /** Present from one position in the history to another. */
  ghost predicate Throughout(history: seq<Truth>, from: nat, to: nat, key: Key)
    requires to < |history|
  {
    forall i :: from <= i <= to ==> key in history[i]
  }

  /** A directory walk meets every object that is there all along. */
  ghost predicate Covers(history: seq<Truth>, scan: Scan, to: nat)
    requires to < |history|
  {
    forall key :: Throughout(history, scan.startedAt, to, key) ==> key in scan.seen
  }

  predicate Running(w: World, scan: nat) {
    scan < |w.scans| && w.scans[scan].endedAt.None? && !w.scans[scan].failed
  }

  ghost predicate Enabled(w: World, step: Step) {
    match step
    case Invalidate(m) => m < |w.mutations| && w.mutations[m].stage.Applied?
    case Return(m) => m < |w.mutations| && w.mutations[m].stage.Invalidated?
    case Fail(m) => m < |w.mutations| && w.mutations[m].stage.Applied?
    case CallCached => w.cache.Some?
    case CallFresh => w.history != []
    case Observe(scan, key) => Running(w, scan) && key !in w.scans[scan].seen && w.history != []
    case ScanEnds(scan) => Running(w, scan) && w.history != [] && Covers(w.history, w.scans[scan], |w.history| - 1)
    case ScanFails(scan) => Running(w, scan)
    case _ => true
  }

  /** One file of the walk: when it is there it is counted, with the size it has. */
  function Looked(scan: Scan, key: Key, truth: Truth, now: nat): Scan {
    var looked := scan.(seen := scan.seen[key := now]);
    if key in truth
    then looked.(objectCount := scan.objectCount + 1, sizeBytes := scan.sizeBytes + truth[key])
    else looked
  }

  function Apply(w: World, step: Step): World
    requires Enabled(w, step)
  {
    match step
    case Mutate(after) =>
      w.(history := w.history + [after], mutations := w.mutations + [Mutation(|w.history|, Applied)])
    case Invalidate(m) => w.(cache := None, mutations := w.mutations[m := w.mutations[m].(stage := Invalidated)])
    case Return(m) => w.(mutations := w.mutations[m := w.mutations[m].(stage := Returned)])
    case Fail(m) => w.(mutations := w.mutations[m := w.mutations[m].(stage := Failed)])
    case DropCache => w.(cache := None)
    case CallCached => w.(calls := w.calls + [Call(Settled(w.mutations), w.cache.value)])
    case CallFresh =>
      w.(scans := w.scans + [Scan(|w.history| - 1, map[], None, 0, 0, false)], cache := Some(|w.scans|),
         calls := w.calls + [Call(Settled(w.mutations), |w.scans|)])
    case Observe(scan, key) =>
      w.(scans := w.scans[scan := Looked(w.scans[scan], key, w.history[|w.history| - 1], |w.history| - 1)])
    case ScanEnds(scan) => w.(scans := w.scans[scan := w.scans[scan].(endedAt := Some(|w.history| - 1))])
    case ScanFails(scan) =>
      w.(scans := w.scans[scan := w.scans[scan].(failed := true)],
         cache := if w.cache == Some(scan) then None else w.cache)
  }

  ghost predicate Initial(w: World) {
    |w.history| == 1 && w.mutations == [] && w.cache == None && w.scans == [] && w.calls == []
  }

  ghost predicate Next(w: World, w': World) {
    exists step :: Enabled(w, step) && w' == Apply(w, step)
  }

  ghost predicate IsRun(states: seq<World>) {
    && states != [] && Initial(states[0])
    && forall i :: 0 <= i < |states| - 1 ==> Next(states[i], states[i + 1])
  }

  ghost predicate MutationsOk(mutations: seq<Mutation>, now: nat) {
    forall m :: 0 <= m < |mutations| ==> mutations[m].effect < now
  }

  // ---------- totals ----------

  /** The sum of the sizes. */
  ghost function SizeOf(objects: Truth): nat {
    if objects == map[] then 0
    else
      var key :| key in objects;
      objects[key] + SizeOf(objects - {key})
  }

  /** The order in which sizes are added does not matter. */
  lemma {:induction false} SizeOfWithout(objects: Truth, key: Key)
    requires key in objects
    ensures SizeOf(objects) == objects[key] + SizeOf(objects - {key})
    decreases |objects|
  {
    var first :| first in objects && SizeOf(objects) == objects[first] + SizeOf(objects - {first});
    if first == key {
    } else {
      SizeOfWithout(objects - {first}, key);
      SizeOfWithout(objects - {key}, first);
      assert objects - {first} - {key} == objects - {key} - {first};
    }
  }

  lemma SizeOfWith(objects: Truth, key: Key, size: nat)
    requires key !in objects
    ensures SizeOf(objects[key := size]) == SizeOf(objects) + size && |objects[key := size]| == |objects| + 1
  {
    SizeOfWithout(objects[key := size], key);
    assert objects[key := size] - {key} == objects;
  }

  /** One set of objects is among another, with sizes that are no larger. */
  ghost predicate Under(low: Truth, high: Truth) {
    forall key :: key in low ==> key in high && low[key] <= high[key]
  }

  lemma {:induction false} TotalsMonotone(low: Truth, high: Truth)
    requires Under(low, high)
    ensures |low| <= |high| && SizeOf(low) <= SizeOf(high)
    decreases |low|
  {
    if low == map[] {
    } else {
      var key :| key in low;
      SizeOfWithout(low, key);
      SizeOfWithout(high, key);
      TotalsMonotone(low - {key}, high - {key});
    }
  }

  /** The objects a scan counts, each with the size it had when looked at. */
  function Counted(history: seq<Truth>, seen: map<Key, nat>): Truth
    requires forall key :: key in seen ==> seen[key] < |history|
  {
    map key | key in seen && key in history[seen[key]] :: history[seen[key]][key]
  }

  lemma CountedOneMore(history: seq<Truth>, seen: map<Key, nat>, key: Key)
    requires history != [] && key !in seen && forall k :: k in seen ==> seen[k] < |history|
    ensures var before, truth := Counted(history, seen), history[|history| - 1];
            && key !in before
            && Counted(history, seen[key := |history| - 1]) ==
               if key in truth then before[key := truth[key]] else before
  {}

  lemma LookedTallies(history: seq<Truth>, scan: Scan, key: Key)
    requires history != [] && key !in scan.seen && forall k :: k in scan.seen ==> scan.seen[k] < |history|
    requires Tallied(history, scan)
    ensures Tallied(history, Looked(scan, key, history[|history| - 1], |history| - 1))
  {
    CountedOneMore(history, scan.seen, key);
    var truth := history[|history| - 1];
    if key in truth { SizeOfWith(Counted(history, scan.seen), key, truth[key]); }
  }

  /** The two totals are the number of counted objects and the sum of their sizes. */
  ghost predicate Tallied(history: seq<Truth>, scan: Scan)
    requires forall key :: key in scan.seen ==> scan.seen[key] < |history|
  {
    var counted := Counted(history, scan.seen);
    scan.objectCount == |counted| && scan.sizeBytes == SizeOf(counted)
  }

  /** Whatever a scan has looked at, it looked at while it ran, and in the end it has met all that stayed. */
  ghost predicate ScanOk(scan: Scan, history: seq<Truth>) {
    && scan.startedAt < |history| && (forall key :: key in scan.seen ==> scan.startedAt <= scan.seen[key] < |history|)
    && Tallied(history, scan)
    && (scan.endedAt.Some? ==>
          && scan.startedAt <= scan.endedAt.value < |history| && Covers(history, scan, scan.endedAt.value)
          && forall key :: key in scan.seen ==> scan.seen[key] <= scan.endedAt.value)
  }

  ghost predicate ScansOk(scans: seq<Scan>, history: seq<Truth>) {
    forall s :: 0 <= s < |scans| ==> ScanOk(scans[s], history)
  }

  /** The mutation has invalidated the cache. */
  predicate Announced(m: Mutation) {
    m.stage.Invalidated? || m.stage.Returned?
  }

  /** The cached scan has not failed and began after every mutation that has already invalidated the cache. */
  ghost predicate CacheOk(cache: Option<nat>, scans: seq<Scan>, mutations: seq<Mutation>) {
    cache.Some? ==>
      && cache.value < |scans| && !scans[cache.value].failed
      && forall m :: 0 <= m < |mutations| && Announced(mutations[m]) ==>
          mutations[m].effect <= scans[cache.value].startedAt
  }

  ghost predicate CallsOk(calls: seq<Call>, scans: seq<Scan>) {
    forall c :: 0 <= c < |calls| ==> calls[c].scan < |scans| && calls[c].floor <= scans[calls[c].scan].startedAt
  }

  ghost predicate Inv(w: World) {
    && w.history != []
    && MutationsOk(w.mutations, |w.history|)
    && ScansOk(w.scans, w.history)
    && CacheOk(w.cache, w.scans, w.mutations)
    && CallsOk(w.calls, w.scans)
  }

  lemma SettledBounded(mutations: seq<Mutation>, bound: nat)
    requires forall m :: 0 <= m < |mutations| && Announced(mutations[m]) ==> mutations[m].effect <= bound
    ensures Settled(mutations) <= bound
  {
    var floor := Settled(mutations);
    if floor != 0 {
      var m :| m in mutations && m.stage.Returned? && m.effect == floor;
      var k :| 0 <= k < |mutations| && mutations[k] == m;
    }
  }

  lemma ScanOkLater(scan: Scan, history: seq<Truth>, after: Truth)
    requires ScanOk(scan, history)
    ensures ScanOk(scan, history + [after])
  {
    assert Counted(history + [after], scan.seen) == Counted(history, scan.seen);
    if scan.endedAt.Some? {
      var to := scan.endedAt.value;
      forall key | Throughout(history + [after], scan.startedAt, to, key) ensures key in scan.seen {
        forall i | scan.startedAt <= i <= to ensures key in history[i] { assert (history + [after])[i] == history[i]; }
        assert Throughout(history, scan.startedAt, to, key);
      }
    }
  }

  lemma ObservedOk(scan: Scan, key: Key, history: seq<Truth>)
    requires ScanOk(scan, history) && key !in scan.seen && scan.endedAt.None?
    ensures ScanOk(Looked(scan, key, history[|history| - 1], |history| - 1), history)
  {
    LookedTallies(history, scan, key);
  }

  lemma FreshOk(history: seq<Truth>)
    requires history != []
    ensures ScanOk(Scan(|history| - 1, map[], None, 0, 0, false), history)
  {
    assert Counted(history, map[]) == map[];
  }

  lemma EndedOk(scan: Scan, history: seq<Truth>)
    requires ScanOk(scan, history) && Covers(history, scan, |history| - 1)
    ensures ScanOk(scan.(endedAt := Some(|history| - 1)), history)
  {}

  /** Replacing a scan by one that goes on from it. */
  lemma ScanChangeKeeps(w: World, s: nat, scan: Scan, after: World)
    requires Inv(w) && s < |w.scans| && ScanOk(scan, w.history) && scan.startedAt == w.scans[s].startedAt
    requires scan.failed ==> w.cache != Some(s)
    requires after == w.(scans := w.scans[s := scan])
    ensures Inv(after)
  {}

  lemma MutateKeeps(w: World, after: Truth)
    requires Inv(w)
    ensures Inv(Apply(w, Mutate(after)))
  {
    forall s | 0 <= s < |w.scans| ensures ScanOk(w.scans[s], w.history + [after]) {
      ScanOkLater(w.scans[s], w.history, after);
    }
  }

  lemma CallKeeps(w: World, step: Step)
    requires Inv(w) && Enabled(w, step) && (step.CallCached? || step.CallFresh?)
    ensures Inv(Apply(w, step))
  {
    if step.CallCached? {
      SettledBounded(w.mutations, w.scans[w.cache.value].startedAt);
    } else {
      SettledBounded(w.mutations, |w.history| - 1);
      FreshOk(w.history);
    }
  }

  lemma MarkKeeps(w: World, step: Step)
    requires Inv(w) && Enabled(w, step)
    requires step.Invalidate? || step.Return? || step.Fail? || step.DropCache?
    ensures Inv(Apply(w, step))
  {}

  lemma ObserveKeeps(w: World, s: nat, key: Key)
    requires Inv(w) && Running(w, s) && key !in w.scans[s].seen
    ensures Inv(Apply(w, Observe(s, key)))
  {
    ObservedOk(w.scans[s], key, w.history);
    var looked := Looked(w.scans[s], key, w.history[|w.history| - 1], |w.history| - 1);
    ScanChangeKeeps(w, s, looked, Apply(w, Observe(s, key)));
  }

  lemma EndKeeps(w: World, s: nat)
    requires Inv(w) && Enabled(w, ScanEnds(s))
    ensures Inv(Apply(w, ScanEnds(s)))
  {
    EndedOk(w.scans[s], w.history);
    ScanChangeKeeps(w, s, w.scans[s].(endedAt := Some(|w.history| - 1)), Apply(w, ScanEnds(s)));
  }

  lemma FailureKeeps(w: World, s: nat)
    requires Inv(w) && Running(w, s)
    ensures Inv(Apply(w, ScanFails(s)))
  {
    var dropped := w.(cache := if w.cache == Some(s) then None else w.cache);
    assert ScanOk(w.scans[s], w.history);
    ScanChangeKeeps(dropped, s, w.scans[s].(failed := true), Apply(w, ScanFails(s)));
  }

  lemma StepKeeps(w: World, step: Step)
    requires Inv(w) && Enabled(w, step)
    ensures Inv(Apply(w, step))
  {
    match step
    case Mutate(after) => MutateKeeps(w, after);
    case CallCached => CallKeeps(w, step);
    case CallFresh => CallKeeps(w, step);
    case Observe(s, key) => ObserveKeeps(w, s, key);
    case ScanEnds(s) => EndKeeps(w, s);
    case ScanFails(s) => FailureKeeps(w, s);
    case _ => MarkKeeps(w, step);
  }

  lemma {:induction false} RunsKeepInv(states: seq<World>, i: nat)
    requires IsRun(states) && i < |states|
    ensures Inv(states[i])
    decreases i
  {
    if i == 0 {
    } else {
      RunsKeepInv(states, i - 1);
      assert Next(states[i - 1], states[i - 1 + 1]);
      var step :| Enabled(states[i - 1], step) && states[i] == Apply(states[i - 1], step);
      StepKeeps(states[i - 1], step);
    }
  }

  /** No call is ever served from a scan that has failed, and the failure of another scan leaves the cache alone. */
  lemma FailedScanNotServed(states: seq<World>, i: nat, step: Step)
    requires IsRun(states) && i < |states| && Enabled(states[i], step)
    ensures step.CallCached? || step.CallFresh? ==>
              var after := Apply(states[i], step);
              var scan := after.calls[|after.calls| - 1].scan;
              scan < |after.scans| && !after.scans[scan].failed
    ensures step.ScanFails? && states[i].cache != Some(step.scan) ==> Apply(states[i], step).cache == states[i].cache
  {
    RunsKeepInv(states, i);
  }

  // ---------- what a call reports ----------

  function Reported(w: World, scan: Scan): Truth
    requires forall key :: key in scan.seen ==> scan.seen[key] < |w.history|
  {
    Counted(w.history, scan.seen)
  }

  /** The object and its size are as they were at some moment from the floor on. */
  ghost predicate Current(w: World, floor: nat, key: Key, size: Option<nat>) {
    exists i :: floor <= i < |w.history| && size == if key in w.history[i] then Some(w.history[i][key]) else None
  }

  /**
   * In every interleaving, whatever a call reports about an object was true at some moment no
   * earlier than every mutation that had returned before the call began: the cache never hides a
   * completed mutation.
   */
  lemma NeverHidesCompleted(states: seq<World>, i: nat, c: nat, key: Key)
    requires IsRun(states) && i < |states| && c < |states[i].calls|
    ensures var w := states[i];
            && w.calls[c].scan < |w.scans|
            && (forall k :: k in w.scans[w.calls[c].scan].seen ==> w.scans[w.calls[c].scan].seen[k] < |w.history|)
            && (key in w.scans[w.calls[c].scan].seen ==>
                  var reported := Reported(w, w.scans[w.calls[c].scan]);
                  Current(w, w.calls[c].floor, key, if key in reported then Some(reported[key]) else None))
  {
    RunsKeepInv(states, i);
    var w := states[i];
    var scan := w.scans[w.calls[c].scan];
    assert ScanOk(scan, w.history);
    if key in scan.seen {
      var at := scan.seen[key];
      assert w.calls[c].floor <= at < |w.history|;
    }
  }

  /** The floor a call is held to covers each mutation that had returned when it began. */
  lemma FloorCoversReturned(w: World, step: Step, m: nat)
    requires (step.CallCached? || step.CallFresh?) && Enabled(w, step)
    requires m < |w.mutations| && w.mutations[m].stage.Returned?
    ensures var w' := Apply(w, step);
            |w'.calls| == |w.calls| + 1 && w.mutations[m].effect <= w'.calls[|w.calls|].floor
  {
    assert w.mutations[m] in w.mutations;
  }

  /** A finished call counts every object that has been there since the floor, and none that has been gone. */
  lemma StableObjectsCounted(states: seq<World>, i: nat, c: nat, key: Key)
    requires IsRun(states) && i < |states| && c < |states[i].calls|
    requires states[i].calls[c].scan < |states[i].scans| && states[i].scans[states[i].calls[c].scan].endedAt.Some?
    ensures var w := states[i];
            var scan := w.scans[w.calls[c].scan];
            && (forall k :: k in scan.seen ==> scan.seen[k] < |w.history|)
            && ((forall j :: w.calls[c].floor <= j < |w.history| ==> key in w.history[j]) ==> key in Reported(w, scan))
            && ((forall j :: w.calls[c].floor <= j < |w.history| ==> key !in w.history[j]) ==>
                  key !in Reported(w, scan))
  {
    RunsKeepInv(states, i);
    var w := states[i];
    var scan := w.scans[w.calls[c].scan];
    assert ScanOk(scan, w.history);
    if forall j :: w.calls[c].floor <= j < |w.history| ==> key in w.history[j] {
      assert Throughout(w.history, scan.startedAt, scan.endedAt.value, key);
    }
  }

  /** A scan that ended without anything having changed since it began has counted everything. */
  lemma QuietScanIsExact(w: World, scan: Scan)
    requires ScanOk(scan, w.history) && scan.startedAt == |w.history| - 1 && scan.endedAt.Some?
    ensures Reported(w, scan) == w.history[|w.history| - 1]
  {
    var truth := w.history[|w.history| - 1];
    forall key ensures key in Reported(w, scan) <==> key in truth {
      if key in truth { assert Throughout(w.history, scan.startedAt, scan.endedAt.value, key); }
    }
    assert forall key :: key in Reported(w, scan) ==> Reported(w, scan)[key] == truth[key];
  }

  /** With no mutation since the floor, a finished call reports exactly the objects on disk and their sizes. */
  lemma ExactWhenQuiet(states: seq<World>, i: nat, c: nat)
    requires IsRun(states) && i < |states| && c < |states[i].calls|
    requires states[i].calls[c].scan < |states[i].scans| && states[i].scans[states[i].calls[c].scan].endedAt.Some?
    requires states[i].calls[c].floor == |states[i].history| - 1
    ensures var w := states[i];
            var scan := w.scans[w.calls[c].scan];
            && (forall k :: k in scan.seen ==> scan.seen[k] < |w.history|)
            && Reported(w, scan) == w.history[|w.history| - 1]
            && scan.objectCount == |w.history[|w.history| - 1]|
            && scan.sizeBytes == SizeOf(w.history[|w.history| - 1])
  {
    RunsKeepInv(states, i);
    var w := states[i];
    assert ScanOk(w.scans[w.calls[c].scan], w.history);
    QuietScanIsExact(w, w.scans[w.calls[c].scan]);
  }

  /** The objects present at every position from `from` on, each with its smallest size. */
  ghost function Least(history: seq<Truth>, from: nat): Truth
    requires from < |history|
    decreases |history| - from
  {
    if from == |history| - 1 then history[from]
    else
      var rest := Least(history, from + 1);
      map key | key in rest && key in history[from] :: Smaller(rest[key], history[from][key])
  }

  /** The objects present at some position from `from` on, each with its largest size. */
  ghost function Greatest(history: seq<Truth>, from: nat): Truth
    requires from < |history|
    decreases |history| - from
  {
    if from == |history| - 1 then history[from]
    else
      var rest := Greatest(history, from + 1);
      map key | key in rest.Keys + history[from].Keys ::
        if key !in rest then history[from][key]
        else if key !in history[from] then rest[key]
        else Larger(rest[key], history[from][key])
  }

  function Smaller(a: nat, b: nat): nat { if a <= b then a else b }

  function Larger(a: nat, b: nat): nat { if a <= b then b else a }

  lemma {:induction false} LeastIs(history: seq<Truth>, from: nat, key: Key)
    requires from < |history|
    ensures key in Least(history, from) <==> forall i :: from <= i < |history| ==> key in history[i]
    ensures key in Least(history, from) ==>
              && (forall i :: from <= i < |history| ==> Least(history, from)[key] <= history[i][key])
              && (exists i :: from <= i < |history| && Least(history, from)[key] == history[i][key])
    decreases |history| - from
  {
    if from == |history| - 1 {
    } else {
      LeastIs(history, from + 1, key);
    }
  }

  lemma {:induction false} GreatestIs(history: seq<Truth>, from: nat, key: Key)
    requires from < |history|
    ensures key in Greatest(history, from) <==> exists i :: from <= i < |history| && key in history[i]
    ensures key in Greatest(history, from) ==>
              && (forall i :: from <= i < |history| && key in history[i] ==>
                    history[i][key] <= Greatest(history, from)[key])
              && (exists i :: from <= i < |history| && key in history[i]
                              && Greatest(history, from)[key] == history[i][key])
    decreases |history| - from
  {
    if from == |history| - 1 {
    } else {
      GreatestIs(history, from + 1, key);
    }
  }

  lemma ReportedBetween(w: World, scan: Scan, floor: nat)
    requires ScanOk(scan, w.history) && floor <= scan.startedAt && scan.endedAt.Some?
    ensures Under(Least(w.history, floor), Reported(w, scan))
    ensures Under(Reported(w, scan), Greatest(w.history, floor))
  {
    forall key | key in Least(w.history, floor)
      ensures key in Reported(w, scan) && Least(w.history, floor)[key] <= Reported(w, scan)[key]
    {
      LeastIs(w.history, floor, key);
      assert Throughout(w.history, scan.startedAt, scan.endedAt.value, key);
    }
    forall key | key in Reported(w, scan)
      ensures key in Greatest(w.history, floor) && Reported(w, scan)[key] <= Greatest(w.history, floor)[key]
    {
      GreatestIs(w.history, floor, key);
    }
  }

  /**
   * In every interleaving a finished call's two totals lie between those of the objects present
   * at every moment since the floor, at their smallest, and those of the objects present at some
   * moment since, at their largest.
   */
  lemma TotalsBetween(states: seq<World>, i: nat, c: nat)
    requires IsRun(states) && i < |states| && c < |states[i].calls|
    requires states[i].calls[c].scan < |states[i].scans| && states[i].scans[states[i].calls[c].scan].endedAt.Some?
    ensures var w := states[i];
            var scan, floor := w.scans[w.calls[c].scan], w.calls[c].floor;
            && floor < |w.history|
            && |Least(w.history, floor)| <= scan.objectCount <= |Greatest(w.history, floor)|
            && SizeOf(Least(w.history, floor)) <= scan.sizeBytes <= SizeOf(Greatest(w.history, floor))
  {
    RunsKeepInv(states, i);
    var w := states[i];
    var scan, floor := w.scans[w.calls[c].scan], w.calls[c].floor;
    assert ScanOk(scan, w.history);
    ReportedBetween(w, scan, floor);
    TotalsMonotone(Least(w.history, floor), Reported(w, scan));
    TotalsMonotone(Reported(w, scan), Greatest(w.history, floor));
  }

  // ---------- a put that fails after its rename ----------

  lemma Extend(path: seq<World>, step: Step, after: World) returns (longer: seq<World>)
    requires IsRun(path) && Enabled(path[|path| - 1], step) && after == Apply(path[|path| - 1], step)
    ensures IsRun(longer) && longer[|longer| - 1] == after
  {
    assert Next(path[|path| - 1], after);
    longer := path + [after];
  }

  lemma NothingThroughout(history: seq<Truth>, key: Key)
    requires history == [map[]]
    ensures !Throughout(history, 0, 0, key)
  {
    assert key !in history[0];
  }

  lemma NothingToMeet(history: seq<Truth>, scan: Scan)
    requires history == [map[]] && scan.startedAt == 0
    ensures Covers(history, scan, 0)
  {
    forall key ensures !Throughout(history, 0, 0, key) { NothingThroughout(history, key); }
  }

  /**
   * For every such put whose object stays: a finished call counts the object if its scan started
   * at or after the put took effect, and does not if its scan had ended before.
   */
  lemma FailedPutCounted(states: seq<World>, i: nat, c: nat, m: nat, key: Key)
    requires IsRun(states) && i < |states| && c < |states[i].calls| && m < |states[i].mutations|
    requires states[i].calls[c].scan < |states[i].scans| && states[i].scans[states[i].calls[c].scan].endedAt.Some?
    requires states[i].mutations[m].stage.Failed?
    requires forall j :: 0 <= j < |states[i].history| ==>
               (key in states[i].history[j] <==> states[i].mutations[m].effect <= j)
    ensures var w := states[i];
            var scan, effect := w.scans[w.calls[c].scan], w.mutations[m].effect;
            && (forall k :: k in scan.seen ==> scan.seen[k] < |w.history|)
            && (effect <= scan.startedAt ==> key in Reported(w, scan))
            && (scan.endedAt.value < effect ==> key !in Reported(w, scan))
  {
    RunsKeepInv(states, i);
    var w := states[i];
    var scan, effect := w.scans[w.calls[c].scan], w.mutations[m].effect;
    assert ScanOk(scan, w.history);
    if effect <= scan.startedAt {
      assert Throughout(w.history, scan.startedAt, scan.endedAt.value, key);
    }
  }

  /** Such a put has stored its object but not invalidated the cache: a later call still counts none. */
  lemma FailedPutIsHidden(key: Key, size: nat) returns (path: seq<World>)
    ensures IsRun(path)
    ensures var w := path[|path| - 1];
            && w.history == [map[], map[key := size]] && w.mutations == [Mutation(1, Failed)]
            && w.calls == [Call(0, 0), Call(0, 0)] && |w.scans| == 1
            && w.scans[0].endedAt.Some? && w.scans[0].objectCount == 0
  {
    var none: Truth := map[];
    var one: Truth := map[key := size];
    var running, ended := Scan(0, map[], None, 0, 0, false), Scan(0, map[], Some(0), 0, 0, false);
    path := [World([none], [], None, [], [])];
    path := Extend(path, CallFresh, World([none], [], Some(0), [running], [Call(0, 0)]));
    NothingToMeet([none], running);
    path := Extend(path, ScanEnds(0), World([none], [], Some(0), [ended], [Call(0, 0)]));
    path := Extend(path, Mutate(one), World([none, one], [Mutation(1, Applied)], Some(0), [ended], [Call(0, 0)]));
    path := Extend(path, Fail(0), World([none, one], [Mutation(1, Failed)], Some(0), [ended], [Call(0, 0)]));
    path := Extend(path, CallCached,
                   World([none, one], [Mutation(1, Failed)], Some(0), [ended], [Call(0, 0), Call(0, 0)]));
  }
}
