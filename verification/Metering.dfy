/**
 * Usage metering as a protocol: daemon runs report cumulative counters over a network that may
 * lose, repeat and reorder messages, while the node's credential is rotated, revoked or deleted
 * and old event rows expire.
 */
module Metering {
  import opened Wrappers
  import opened ControlPlane

  /** One run of the reporter; `gained` is what the request log grew by while it reported. */
  datatype Run = Run(startedAt: int, baseline: Counters, latest: Counters, gained: Counters, reporting: bool)

  datatype Message = Message(token: Token, run: nat, heartbeat: Heartbeat)

  datatype System = System(
    server: Server,
    log: Counters,               // totals over the append-only request log
    runs: seq<Run>,
    network: set<Message>,       // everything ever sent; delivery never removes a message
    authenticated: set<Message>, // requests that passed authenticateNode and may still commit
    issued: set<Token>,
    nextEvent: EventId,
    committed: seq<UsageEvent>)  // every accepted heartbeat, in commit order

  datatype Step =
    | AppendLog(entry: Counters)
    | StartReporter(startedAt: int)
    | Collect(telemetry: Counters)
    | Send(token: Token, online: bool, discoverable: bool)
    | StopReporter
    | Authenticate(message: Message)
    | Commit(message: Message, receivedAt: int)
    | Rotate(token: Token)
    | Revoke
    | Delete
    | ExpireEvent(eventId: EventId)

  predicate Reporting(s: System) {
    s.runs != [] && s.runs[|s.runs| - 1].reporting
  }

  function UpdateRun(s: System, run: Run): System
    requires s.runs != []
  {
    s.(runs := s.runs[..|s.runs| - 1] + [run])
  }

  ghost predicate Enabled(s: System, step: Step) {
    match step
    case StartReporter(_) => !Reporting(s)
    case Collect(telemetry) => Reporting(s) && telemetry.Le(s.log)
    case Send(token, _, _) => Reporting(s) && token in s.issued
    case StopReporter => Reporting(s)
    case Authenticate(message) => message in s.network && Authenticates(s.server.node, message.token)
    case Commit(message, _) => message in s.authenticated
    case Rotate(token) => token !in s.issued
    case _ => true
  }

  ghost function Apply(s: System, step: Step): System
    requires Enabled(s, step)
  {
    match step
    case AppendLog(entry) =>
      var s' := s.(log := s.log.Plus(entry));
      if Reporting(s) then
        var run := s.runs[|s.runs| - 1];
        UpdateRun(s', run.(gained := run.gained.Plus(entry)))
      else s'
    case StartReporter(startedAt) => s.(runs := s.runs + [Run(startedAt, s.log, s.log, ZERO, true)])
    case Collect(telemetry) => UpdateRun(s, s.runs[|s.runs| - 1].(latest := telemetry))
    case Send(token, online, discoverable) =>
      var run := s.runs[|s.runs| - 1];
      var heartbeat := Heartbeat(s.nextEvent, run.startedAt, run.latest.Excess(run.baseline), online, discoverable);
      s.(network := s.network + {Message(token, |s.runs| - 1, heartbeat)}, nextEvent := s.nextEvent + 1)
    case StopReporter => UpdateRun(s, s.runs[|s.runs| - 1].(reporting := false))
    case Authenticate(message) => s.(authenticated := s.authenticated + {message})
    case Commit(message, receivedAt) =>
      var s' := s.(server := AfterHeartbeat(s.server, message.token, message.heartbeat, receivedAt));
      (match HeartbeatOutcome(s.server, message.token, message.heartbeat, receivedAt)
       case Accepted(event) => s'.(committed := s.committed + [event])
       case _ => s')
    case Rotate(token) => s.(server := AfterRotate(s.server, token), issued := s.issued + {token})
    case Revoke => s.(server := AfterRevoke(s.server))
    case Delete => s.(server := AfterDelete(s.server))
    case ExpireEvent(eventId) => s.(server := s.server.(events := s.server.events - {eventId}))
  }

  ghost predicate Initial(s: System) {
    exists token ::
      s == System(Server(InitialNode(token), map[]), s.log, [], {}, {}, {token}, s.nextEvent, [])
  }

  ghost predicate Next(s: System, s': System) {
    exists step :: Enabled(s, step) && s' == Apply(s, step)
  }

  ghost predicate IsRun(states: seq<System>) {
    && states != [] && Initial(states[0])
    && forall i :: 0 <= i < |states| - 1 ==> Next(states[i], states[i + 1])
  }

  // ---------- what the ledger adds up to ----------

  function SumDeltas(events: seq<UsageEvent>): Counters {
    if events == [] then ZERO else SumDeltas(events[..|events| - 1]).Plus(events[|events| - 1].delta)
  }

  datatype Reading = Reading(startedAt: int, counters: Counters)

  /** A run's newest reading takes the place of its previous one. */
  function WithReading(before: seq<Reading>, reading: Reading): seq<Reading> {
    if before != [] && before[|before| - 1].startedAt == reading.startedAt
    then before[..|before| - 1] + [reading]
    else before + [reading]
  }

  /** The last accepted counters of each daemon run, in the order the runs were first accepted. */
  function LastReadings(events: seq<UsageEvent>): seq<Reading> {
    if events == [] then []
    else
      var event := events[|events| - 1];
      WithReading(LastReadings(events[..|events| - 1]), Reading(event.startedAt, event.counters))
  }

  function SumReadings(readings: seq<Reading>): Counters {
    if readings == [] then ZERO
    else SumReadings(readings[..|readings| - 1]).Plus(readings[|readings| - 1].counters)
  }

  /** What the log gained during the runs that claim one start time. */
  function GainOf(runs: seq<Run>, startedAt: int): Counters {
    if runs == [] then ZERO
    else
      var before := GainOf(runs[..|runs| - 1], startedAt);
      if runs[|runs| - 1].startedAt == startedAt then before.Plus(runs[|runs| - 1].gained) else before
  }

  function TotalGain(runs: seq<Run>): Counters {
    if runs == [] then ZERO else TotalGain(runs[..|runs| - 1]).Plus(runs[|runs| - 1].gained)
  }

  // ---------- the invariant ----------

  ghost predicate Rising(readings: seq<Reading>) {
    forall i, j :: 0 <= i < j < |readings| ==> readings[i].startedAt < readings[j].startedAt
  }

  /** The server's record is the ledger's last reading. */
  ghost predicate Ledger(node: Node, committed: seq<UsageEvent>) {
    var readings := LastReadings(committed);
    && node.usage == SumDeltas(committed)
    && node.usage == SumReadings(readings)
    && Rising(readings)
    && RecordedLast(readings, node.startedAt, node.counters)
  }

  predicate RecordedLast(readings: seq<Reading>, startedAt: Option<int>, counters: Counters) {
    if readings == [] then startedAt == None && counters == ZERO
    else startedAt == Some(readings[|readings| - 1].startedAt) && counters == readings[|readings| - 1].counters
  }

  /** The reporter's view of the log: only the last run reports, and its gain is the growth since its baseline. */
  ghost predicate Accounted(runs: seq<Run>, log: Counters) {
    TotalGain(runs).Le(log) && OnlyLastReports(runs, log)
  }

  ghost predicate OnlyLastReports(runs: seq<Run>, log: Counters) {
    && (forall i :: 0 <= i < |runs| - 1 ==> !runs[i].reporting)
    && (runs != [] && runs[|runs| - 1].reporting ==> Observes(runs[|runs| - 1], log))
  }

  predicate Observes(run: Run, log: Counters) {
    log == run.baseline.Plus(run.gained) && run.latest.Le(log)
  }

  /** No message exceeds what the log gained in the runs that could have produced it. */
  ghost predicate MessagesWithin(messages: set<Message>, runs: seq<Run>) {
    forall m :: m in messages ==> m.heartbeat.counters.Le(GainOf(runs, m.heartbeat.startedAt))
  }

  ghost predicate ReadingsWithin(readings: seq<Reading>, runs: seq<Run>) {
    forall r :: r in readings ==> r.counters.Le(GainOf(runs, r.startedAt))
  }

  /** An accepted heartbeat is at or behind the server's record. */
  ghost predicate Behind(node: Node, startedAt: int, counters: Counters) {
    && node.startedAt.Some?
    && (startedAt < node.startedAt.value || (startedAt == node.startedAt.value && counters.Le(node.counters)))
  }

  ghost predicate AllBehind(node: Node, committed: seq<UsageEvent>) {
    forall i :: 0 <= i < |committed| ==> Behind(node, committed[i].startedAt, committed[i].counters)
  }

  /**
   * A token exists exactly while the node is active, only active nodes are discoverable, and the
   * credential versions of the recorded events never go back.
   */
  ghost predicate Credentials(node: Node, issued: set<Token>, committed: seq<UsageEvent>) {
    && (node.tokenHash.Some? <==> node.lifecycle.Active?)
    && (node.tokenHash.Some? ==> node.tokenHash.value in issued)
    && (node.publicDiscoverable ==> node.lifecycle.Active?)
    && (forall i :: 0 <= i < |committed| ==> committed[i].credentialVersion <= node.credentialVersion)
    && (forall i, j :: 0 <= i < j < |committed| ==> committed[i].credentialVersion <= committed[j].credentialVersion)
  }

  ghost predicate Bounded(s: System) {
    && Accounted(s.runs, s.log)
    && MessagesWithin(s.network, s.runs)
    && MessagesWithin(s.authenticated, s.runs)
    && ReadingsWithin(LastReadings(s.committed), s.runs)
  }

  ghost predicate Inv(s: System) {
    && Ledger(s.server.node, s.committed)
    && Bounded(s)
    && Credentials(s.server.node, s.issued, s.committed)
    && AllBehind(s.server.node, s.committed)
  }

  // ---------- arithmetic of gains ----------

  lemma GainOfLast(runs: seq<Run>, run: Run, startedAt: int)
    requires runs != []
    ensures GainOf(runs[..|runs| - 1] + [run], startedAt) ==
            if run.startedAt == startedAt then GainOf(runs[..|runs| - 1], startedAt).Plus(run.gained)
            else GainOf(runs[..|runs| - 1], startedAt)
    ensures TotalGain(runs[..|runs| - 1] + [run]) == TotalGain(runs[..|runs| - 1]).Plus(run.gained)
  {
    var updated := runs[..|runs| - 1] + [run];
    assert updated[..|updated| - 1] == runs[..|runs| - 1];
  }

  lemma GainOfAppend(runs: seq<Run>, run: Run, startedAt: int)
    ensures GainOf(runs + [run], startedAt) ==
            if run.startedAt == startedAt then GainOf(runs, startedAt).Plus(run.gained) else GainOf(runs, startedAt)
    ensures TotalGain(runs + [run]) == TotalGain(runs).Plus(run.gained)
  {
    assert (runs + [run])[..|runs|] == runs;
  }

  function SumOfGains(readings: seq<Reading>, runs: seq<Run>): Counters {
    if readings == [] then ZERO
    else SumOfGains(readings[..|readings| - 1], runs).Plus(GainOf(runs, readings[|readings| - 1].startedAt))
  }

  lemma {:induction false} ReadingsWithinGains(readings: seq<Reading>, runs: seq<Run>)
    requires forall r :: r in readings ==> r.counters.Le(GainOf(runs, r.startedAt))
    ensures SumReadings(readings).Le(SumOfGains(readings, runs))
  {
    if readings == [] {
    } else {
      ReadingsWithinGains(readings[..|readings| - 1], runs);
      assert readings[|readings| - 1] in readings;
    }
  }

  /** One more run adds its gain at most once, because readings have different start times. */
  lemma {:induction false} OneRunCountsOnce(readings: seq<Reading>, runs: seq<Run>, run: Run)
    requires Rising(readings)
    ensures SumOfGains(readings, runs + [run]).Le(SumOfGains(readings, runs).Plus(run.gained))
    ensures (forall r :: r in readings ==> r.startedAt != run.startedAt) ==>
              SumOfGains(readings, runs + [run]) == SumOfGains(readings, runs)
  {
    if readings == [] {
    } else {
      var init, last := readings[..|readings| - 1], readings[|readings| - 1];
      OneRunCountsOnce(init, runs, run);
      GainOfAppend(runs, run, last.startedAt);
      assert readings == init + [last];
      if last.startedAt == run.startedAt {
        assert forall r :: r in init ==> r.startedAt != run.startedAt;
      }
    }
  }

  lemma {:induction false} GainsWithinTotal(readings: seq<Reading>, runs: seq<Run>)
    requires Rising(readings)
    ensures SumOfGains(readings, runs).Le(TotalGain(runs))
    decreases |runs|
  {
    if runs == [] {
      NoRunsNoGain(readings, runs);
    } else {
      var init, run := runs[..|runs| - 1], runs[|runs| - 1];
      assert runs == init + [run];
      GainsWithinTotal(readings, init);
      OneRunCountsOnce(readings, init, run);
      GainOfAppend(init, run, 0);
    }
  }

  lemma {:induction false} NoRunsNoGain(readings: seq<Reading>, runs: seq<Run>)
    requires runs == []
    ensures SumOfGains(readings, runs) == ZERO
  {
    if readings == [] {
    } else {
      NoRunsNoGain(readings[..|readings| - 1], runs);
      assert GainOf(runs, readings[|readings| - 1].startedAt) == ZERO;
    }
  }

  lemma {:induction false} GainAtLeastRun(runs: seq<Run>, i: nat)
    requires i < |runs|
    ensures runs[i].gained.Le(GainOf(runs, runs[i].startedAt))
    decreases |runs|
  {
    if i == |runs| - 1 {
    } else {
      GainAtLeastRun(runs[..|runs| - 1], i);
    }
  }

  // ---------- every step keeps the invariant ----------

  /** Gains only grow when a run is extended, so everything that was within them still is. */
  lemma GainsGrow(s: System, runs: seq<Run>)
    requires Bounded(s)
    requires forall t :: GainOf(s.runs, t).Le(GainOf(runs, t))
    ensures MessagesWithin(s.network, runs) && MessagesWithin(s.authenticated, runs)
    ensures ReadingsWithin(LastReadings(s.committed), runs)
  {}

  lemma CommittedLast(committed: seq<UsageEvent>, event: UsageEvent)
    ensures SumDeltas(committed + [event]) == SumDeltas(committed).Plus(event.delta)
    ensures LastReadings(committed + [event]) ==
              WithReading(LastReadings(committed), Reading(event.startedAt, event.counters))
  {
    var all := committed + [event];
    assert all[..|all| - 1] == committed;
  }

  lemma SumReadingsLast(readings: seq<Reading>, reading: Reading)
    ensures SumReadings(readings + [reading]) == SumReadings(readings).Plus(reading.counters)
  {
    var all := readings + [reading];
    assert all[..|all| - 1] == readings;
  }

  /** A reading of a new run is added to the sum. */
  lemma ReadingAdded(before: seq<Reading>, reading: Reading)
    requires Rising(before) && (before != [] ==> before[|before| - 1].startedAt < reading.startedAt)
    ensures Rising(before + [reading])
    ensures WithReading(before, reading) == before + [reading]
    ensures SumReadings(before + [reading]) == SumReadings(before).Plus(reading.counters)
  {
    SumReadingsLast(before, reading);
    RisesTo(before, reading);
  }

  lemma RisesTo(before: seq<Reading>, reading: Reading)
    requires Rising(before) && (before != [] ==> before[|before| - 1].startedAt < reading.startedAt)
    ensures Rising(before + [reading])
  {
    forall i | 0 <= i < |before| ensures before[i].startedAt < reading.startedAt {
      assert before[i].startedAt <= before[|before| - 1].startedAt;
    }
  }

  /** A later reading of the same run replaces the earlier one, so only the excess is added. */
  lemma ReadingReplaced(init: seq<Reading>, last: Reading, reading: Reading)
    requires Rising(init + [last]) && last.startedAt == reading.startedAt
    ensures Rising(init + [reading])
    ensures WithReading(init + [last], reading) == init + [reading]
    ensures SumReadings(init + [last]) == SumReadings(init).Plus(last.counters)
    ensures SumReadings(init + [reading]) == SumReadings(init).Plus(reading.counters)
  {
    SumReadingsLast(init, last);
    SumReadingsLast(init, reading);
    var risen, next := init + [last], init + [reading];
    forall i, j | 0 <= i < j < |next| ensures next[i].startedAt < next[j].startedAt {
      assert risen[i].startedAt < risen[j].startedAt;
    }
  }

  /** The delta the server computes is the growth of the sum of last readings. */
  lemma DeltaIsGrowth(before: seq<Reading>, reading: Reading, startedAt: Option<int>, counters: Counters,
                      delta: Counters)
    requires Rising(before) && RecordedLast(before, startedAt, counters)
    requires CalculateUsageDelta(startedAt, counters, reading.startedAt, reading.counters) == Success(delta)
    ensures Rising(WithReading(before, reading))
    ensures SumReadings(WithReading(before, reading)) == SumReadings(before).Plus(delta)
  {
    if before != [] && before[|before| - 1].startedAt == reading.startedAt {
      assert before == before[..|before| - 1] + [before[|before| - 1]];
      ReadingReplaced(before[..|before| - 1], before[|before| - 1], reading);
    } else {
      ReadingAdded(before, reading);
    }
  }

  lemma WithReadingMembers(before: seq<Reading>, reading: Reading)
    ensures WithReading(before, reading) != []
    ensures WithReading(before, reading)[|WithReading(before, reading)| - 1] == reading
    ensures forall r :: r in WithReading(before, reading) ==> r in before || r == reading
  {}

  lemma LedgerCommit(node: Node, committed: seq<UsageEvent>, event: UsageEvent)
    requires Ledger(node, committed)
    requires CalculateUsageDelta(node.startedAt, node.counters, event.startedAt, event.counters) == Success(event.delta)
    ensures var readings := LastReadings(committed + [event]);
            && readings != [] && Rising(readings)
            && readings[|readings| - 1] == Reading(event.startedAt, event.counters)
            && SumReadings(readings) == node.usage.Plus(event.delta)
            && SumDeltas(committed + [event]) == node.usage.Plus(event.delta)
            && forall r :: r in readings ==>
                r in LastReadings(committed) || r == Reading(event.startedAt, event.counters)
  {
    CommittedLast(committed, event);
    var before := LastReadings(committed);
    var reading := Reading(event.startedAt, event.counters);
    WithReadingMembers(before, reading);
    DeltaIsGrowth(before, reading, node.startedAt, node.counters, event.delta);
  }

  lemma BehindCommit(node: Node, committed: seq<UsageEvent>, event: UsageEvent, after: Node)
    requires AllBehind(node, committed)
    requires CalculateUsageDelta(node.startedAt, node.counters, event.startedAt, event.counters) == Success(event.delta)
    requires after.startedAt == Some(event.startedAt) && after.counters == event.counters
    ensures AllBehind(after, committed + [event])
  {}

  lemma CredentialsCommit(node: Node, issued: set<Token>, committed: seq<UsageEvent>, event: UsageEvent, after: Node)
    requires Credentials(node, issued, committed) && node.lifecycle.Active?
    requires event.credentialVersion == node.credentialVersion == after.credentialVersion
    requires after.tokenHash == node.tokenHash && after.lifecycle == node.lifecycle
    ensures Credentials(after, issued, committed + [event])
  {}

  lemma CommitKeeps(s: System, message: Message, receivedAt: int)
    requires Inv(s) && message in s.authenticated
    ensures Inv(Apply(s, Commit(message, receivedAt)))
  {
    var after := Apply(s, Commit(message, receivedAt));
    match HeartbeatOutcome(s.server, message.token, message.heartbeat, receivedAt)
    case Accepted(event) =>
      var node := after.server.node;
      assert after.committed == s.committed + [event];
      LedgerCommit(s.server.node, s.committed, event);
      BehindCommit(s.server.node, s.committed, event, node);
      CredentialsCommit(s.server.node, s.issued, s.committed, event, node);
    case _ =>
      assert after.server == s.server;
  }

  /** The invariant survives a change of the runs and the log that keeps the account and shrinks no gain. */
  lemma InvWithRuns(s: System, runs: seq<Run>, log: Counters)
    requires Inv(s) && Accounted(runs, log)
    requires forall t :: GainOf(s.runs, t).Le(GainOf(runs, t))
    ensures Inv(s.(runs := runs, log := log))
  {
    GainsGrow(s, runs);
  }

  lemma PlusZero(c: Counters)
    ensures c.Plus(ZERO) == c && c.Le(c)
  {}

  /** Replacing the last run by one that gained `more` on top. */
  lemma GainsWithLast(runs: seq<Run>, run: Run, more: Counters)
    requires runs != []
    requires run.startedAt == runs[|runs| - 1].startedAt && run.gained == runs[|runs| - 1].gained.Plus(more)
    ensures var updated := runs[..|runs| - 1] + [run];
            && TotalGain(updated) == TotalGain(runs).Plus(more)
            && forall t :: GainOf(runs, t).Le(GainOf(updated, t))
  {
    var last := runs[|runs| - 1];
    assert runs == runs[..|runs| - 1] + [last];
    forall t ensures GainOf(runs, t).Le(GainOf(runs[..|runs| - 1] + [run], t)) {
      GainOfLast(runs, run, t);
      GainOfLast(runs, last, t);
    }
    GainOfLast(runs, run, 0);
    GainOfLast(runs, last, 0);
  }

  lemma AccountedAppend(runs: seq<Run>, log: Counters, entry: Counters)
    requires Accounted(runs, log) && runs != [] && runs[|runs| - 1].reporting
    ensures var run := runs[|runs| - 1];
            Accounted(runs[..|runs| - 1] + [run.(gained := run.gained.Plus(entry))], log.Plus(entry))
  {
    var run := runs[|runs| - 1];
    GainsWithLast(runs, run.(gained := run.gained.Plus(entry)), entry);
  }

  lemma AppendKeeps(s: System, entry: Counters)
    requires Inv(s)
    ensures Inv(Apply(s, AppendLog(entry)))
  {
    if Reporting(s) {
      var run := s.runs[|s.runs| - 1];
      var longer := run.(gained := run.gained.Plus(entry));
      GainsWithLast(s.runs, longer, entry);
      AccountedAppend(s.runs, s.log, entry);
      InvWithRuns(s, s.runs[..|s.runs| - 1] + [longer], s.log.Plus(entry));
    } else {
      forall t ensures GainOf(s.runs, t).Le(GainOf(s.runs, t)) { PlusZero(GainOf(s.runs, t)); }
      InvWithRuns(s, s.runs, s.log.Plus(entry));
    }
  }

  lemma RunUpdateKeeps(s: System, run: Run)
    requires Inv(s) && Reporting(s)
    requires run.gained == s.runs[|s.runs| - 1].gained && run.startedAt == s.runs[|s.runs| - 1].startedAt
    requires run.baseline == s.runs[|s.runs| - 1].baseline && run.latest.Le(s.log)
    ensures Inv(UpdateRun(s, run))
  {
    PlusZero(run.gained);
    PlusZero(TotalGain(s.runs));
    GainsWithLast(s.runs, run, ZERO);
    InvWithRuns(s, s.runs[..|s.runs| - 1] + [run], s.log);
  }

  /** A run that has gained nothing yet changes no total. */
  lemma GainsWithIdle(runs: seq<Run>, run: Run)
    requires run.gained == ZERO
    ensures TotalGain(runs + [run]) == TotalGain(runs)
    ensures forall t :: GainOf(runs, t).Le(GainOf(runs + [run], t))
  {
    forall t ensures GainOf(runs, t).Le(GainOf(runs + [run], t)) {
      GainOfAppend(runs, run, t);
      PlusZero(GainOf(runs, t));
    }
    GainOfAppend(runs, run, 0);
    PlusZero(TotalGain(runs));
  }

  lemma OnlyNewReports(runs: seq<Run>, log: Counters, run: Run)
    requires OnlyLastReports(runs, log) && (runs == [] || !runs[|runs| - 1].reporting)
    requires run.gained == ZERO && run.baseline == run.latest == log
    ensures OnlyLastReports(runs + [run], log)
  {
    PlusZero(log);
  }

  lemma StartKeeps(s: System, startedAt: int)
    requires Inv(s) && !Reporting(s)
    ensures Inv(Apply(s, StartReporter(startedAt)))
  {
    var run := Run(startedAt, s.log, s.log, ZERO, true);
    GainsWithIdle(s.runs, run);
    OnlyNewReports(s.runs, s.log, run);
    InvWithRuns(s, s.runs + [run], s.log);
    StartApplied(s, startedAt);
  }

  lemma StartApplied(s: System, startedAt: int)
    requires !Reporting(s)
    ensures Apply(s, StartReporter(startedAt)) ==
            s.(runs := s.runs + [Run(startedAt, s.log, s.log, ZERO, true)], log := s.log)
  {}

  lemma SendKeeps(s: System, token: Token, online: bool, discoverable: bool)
    requires Inv(s) && Reporting(s) && token in s.issued
    ensures Inv(Apply(s, Send(token, online, discoverable)))
  {
    var run := s.runs[|s.runs| - 1];
    GainAtLeastRun(s.runs, |s.runs| - 1);
    assert run.latest.Excess(run.baseline).Le(run.gained);
  }

  lemma CredentialChangeKeeps(s: System, server: Server, issued: set<Token>)
    requires Inv(s) && s.issued <= issued
    requires
      || server == AfterRevoke(s.server)
      || server == AfterDelete(s.server)
      || (exists token :: token in issued && server == AfterRotate(s.server, token))
      || server.node == s.server.node
    ensures Inv(s.(server := server, issued := issued))
  {}

  lemma StepKeeps(s: System, step: Step)
    requires Inv(s) && Enabled(s, step)
    ensures Inv(Apply(s, step))
  {
    match step
    case AppendLog(entry) => AppendKeeps(s, entry);
    case StartReporter(startedAt) => StartKeeps(s, startedAt);
    case Collect(telemetry) => RunUpdateKeeps(s, s.runs[|s.runs| - 1].(latest := telemetry));
    case Send(token, online, discoverable) => SendKeeps(s, token, online, discoverable);
    case StopReporter => RunUpdateKeeps(s, s.runs[|s.runs| - 1].(reporting := false));
    case Authenticate(_) =>
    case Commit(message, receivedAt) => CommitKeeps(s, message, receivedAt);
    case Rotate(token) => CredentialChangeKeeps(s, AfterRotate(s.server, token), s.issued + {token});
    case Revoke => CredentialChangeKeeps(s, AfterRevoke(s.server), s.issued);
    case Delete => CredentialChangeKeeps(s, AfterDelete(s.server), s.issued);
    case ExpireEvent(id) => CredentialChangeKeeps(s, s.server.(events := s.server.events - {id}), s.issued);
  }

  lemma {:induction false} RunsKeepInv(states: seq<System>, i: nat)
    requires IsRun(states) && i < |states|
    ensures Inv(states[i])
    decreases i
  {
    if i == 0 {
    } else {
      RunsKeepInv(states, i - 1);
      assert Next(states[i - 1], states[i - 1 + 1]);
      var step :| Enabled(states[i - 1], step) && states[i] == Apply(states[i - 1], step);
      StepKeeps(states[i - 1], step);
    }
  }

  // ---------- main results ----------

  /**
   * In every run: recorded usage is the sum of all committed deltas, which is the sum over daemon
   * runs of their last accepted counters, and never more than the log gained while runs reported.
   */
  lemma MeteringConserved(states: seq<System>, i: nat)
    requires IsRun(states) && i < |states|
    ensures var s := states[i];
            && s.server.node.usage == SumDeltas(s.committed)
            && s.server.node.usage == SumReadings(LastReadings(s.committed))
            && s.server.node.usage.Le(TotalGain(s.runs))
            && TotalGain(s.runs).Le(s.log)
  {
    RunsKeepInv(states, i);
    var s := states[i];
    var readings := LastReadings(s.committed);
    ReadingsWithinGains(readings, s.runs);
    GainsWithinTotal(readings, s.runs);
  }

  /**
   * A heartbeat that was accepted once cannot raise usage again in any later state, even after its
   * event row has expired: it is refused, recognised, or adds nothing.
   */
  lemma ReplayAddsNothing(states: seq<System>, i: nat, k: nat, token: Token, hb: Heartbeat, receivedAt: int)
    requires IsRun(states) && i < |states| && k < |states[i].committed|
    requires hb.startedAt == states[i].committed[k].startedAt && hb.counters == states[i].committed[k].counters
    ensures AfterHeartbeat(states[i].server, token, hb, receivedAt).node.usage == states[i].server.node.usage
    ensures match HeartbeatOutcome(states[i].server, token, hb, receivedAt)
            case Accepted(event) => event.delta == ZERO
            case _ => AfterHeartbeat(states[i].server, token, hb, receivedAt) == states[i].server
  {
    RunsKeepInv(states, i);
    assert Behind(states[i].server.node, hb.startedAt, hb.counters);
    BehindAddsNothing(states[i].server, token, hb, receivedAt);
  }

  /** Only a heartbeat that repeats the server's record can be accepted when it is behind it. */
  lemma BehindAddsNothing(server: Server, token: Token, hb: Heartbeat, receivedAt: int)
    requires Behind(server.node, hb.startedAt, hb.counters)
    ensures AfterHeartbeat(server, token, hb, receivedAt).node.usage == server.node.usage
    ensures match HeartbeatOutcome(server, token, hb, receivedAt)
            case Accepted(event) => event.delta == ZERO
            case _ => AfterHeartbeat(server, token, hb, receivedAt) == server
  {}

  /** The credential facts hold in every state a run reaches. */
  lemma CredentialLifecycle(states: seq<System>, i: nat)
    requires IsRun(states) && i < |states|
    ensures Credentials(states[i].server.node, states[i].issued, states[i].committed)
  {
    RunsKeepInv(states, i);
  }

  lemma StepRetires(s: System, s': System, token: Token)
    requires Next(s, s') && token in s.issued && s.server.node.tokenHash != Some(token)
    ensures token in s'.issued && s'.server.node.tokenHash != Some(token)
  {
    var step :| Enabled(s, step) && s' == Apply(s, step);
  }

  /**
   * Once a token is no longer the node's own it never is again, and no heartbeat carrying it
   * changes the server, whether or not it had been authenticated before.
   */
  lemma {:induction false} RetiredTokenNeverCommits(states: seq<System>, i: nat, j: nat, token: Token, hb: Heartbeat,
                                                    receivedAt: int)
    requires IsRun(states) && i <= j < |states|
    requires token in states[i].issued && states[i].server.node.tokenHash != Some(token)
    ensures token in states[j].issued && states[j].server.node.tokenHash != Some(token)
    ensures HeartbeatOutcome(states[j].server, token, hb, receivedAt) == Rejected(InvalidNodeCredential)
    ensures AfterHeartbeat(states[j].server, token, hb, receivedAt) == states[j].server
    decreases j - i
  {
    if i == j {
    } else {
      RetiredTokenNeverCommits(states, i, j - 1, token, hb, receivedAt);
      assert Next(states[j - 1], states[j - 1 + 1]);
      StepRetires(states[j - 1], states[j], token);
    }
  }

  lemma StepStaysDeleted(s: System, s': System)
    requires s.server.node.lifecycle.Deleted? && Next(s, s')
    ensures s'.server.node == s.server.node && s'.committed == s.committed
  {
    var step :| Enabled(s, step) && s' == Apply(s, step);
  }

  /** Deletion is final: the document never changes again, so neither does its usage. */
  lemma {:induction false} DeletedIsFinal(states: seq<System>, i: nat, j: nat)
    requires IsRun(states) && i <= j < |states| && states[i].server.node.lifecycle.Deleted?
    ensures states[j].server.node == states[i].server.node
    ensures states[j].committed == states[i].committed
    decreases j - i
  {
    if i == j {
    } else {
      DeletedIsFinal(states, i, j - 1);
      assert Next(states[j - 1], states[j - 1 + 1]);
      StepStaysDeleted(states[j - 1], states[j]);
    }
  }

  // ---------- what is reported to the end is counted in full ----------

  ghost predicate StartsRise(runs: seq<Run>) {
    forall i, j :: 0 <= i < j < |runs| ==> runs[i].startedAt < runs[j].startedAt
  }

  /** Messages and events come from the runs, and no event id is used before it is handed out. */
  ghost predicate Traced(s: System) {
    && (forall m :: m in s.network ==> FromRun(m.heartbeat.startedAt, s.runs))
    && s.authenticated <= s.network
    && (forall j :: 0 <= j < |s.committed| ==> FromRun(s.committed[j].startedAt, s.runs))
    && (forall id :: id in s.server.events ==> id < s.nextEvent)
    && (forall m :: m in s.network ==> m.heartbeat.eventId < s.nextEvent)
  }

  ghost predicate FromRun(startedAt: int, runs: seq<Run>) {
    exists k :: 0 <= k < |runs| && runs[k].startedAt == startedAt
  }

  ghost predicate SameStarts(before: seq<Run>, after: seq<Run>) {
    |before| <= |after| && forall k :: 0 <= k < |before| ==> after[k].startedAt == before[k].startedAt
  }

  lemma FromRunStays(startedAt: int, before: seq<Run>, after: seq<Run>)
    requires FromRun(startedAt, before) && SameStarts(before, after)
    ensures FromRun(startedAt, after)
  {
    var k :| 0 <= k < |before| && before[k].startedAt == startedAt;
    assert after[k].startedAt == startedAt;
  }

  lemma TracedWithRuns(s: System, runs: seq<Run>, log: Counters)
    requires Traced(s) && SameStarts(s.runs, runs)
    ensures Traced(s.(runs := runs, log := log))
  {
    forall m | m in s.network ensures FromRun(m.heartbeat.startedAt, runs) {
      FromRunStays(m.heartbeat.startedAt, s.runs, runs);
    }
    forall j | 0 <= j < |s.committed| ensures FromRun(s.committed[j].startedAt, runs) {
      FromRunStays(s.committed[j].startedAt, s.runs, runs);
    }
  }

  /** Steps that change no more than the runs and the log keep every start time. */
  lemma RunStepTraced(s: System, step: Step)
    requires Traced(s) && Enabled(s, step)
    requires step.AppendLog? || step.StartReporter? || step.Collect? || step.StopReporter?
    ensures Traced(Apply(s, step))
  {
    var after := Apply(s, step);
    TracedWithRuns(s, after.runs, after.log);
    assert after == s.(runs := after.runs, log := after.log);
  }

  lemma SendTraced(s: System, token: Token, online: bool, discoverable: bool)
    requires Traced(s) && Reporting(s)
    requires token in s.issued
    ensures Traced(Apply(s, Send(token, online, discoverable)))
  {
    assert FromRun(s.runs[|s.runs| - 1].startedAt, s.runs);
  }

  lemma CommitTraced(s: System, message: Message, receivedAt: int)
    requires Traced(s) && message in s.authenticated
    ensures Traced(Apply(s, Commit(message, receivedAt)))
  {
    HeartbeatAnswer(s.server, message.token, message.heartbeat, receivedAt);
  }

  lemma StepTraced(s: System, step: Step)
    requires Traced(s) && Enabled(s, step)
    ensures Traced(Apply(s, step))
  {
    match step
    case AppendLog(_) => RunStepTraced(s, step);
    case StartReporter(_) => RunStepTraced(s, step);
    case Collect(_) => RunStepTraced(s, step);
    case StopReporter => RunStepTraced(s, step);
    case Send(token, online, discoverable) => SendTraced(s, token, online, discoverable);
    case Commit(message, receivedAt) => CommitTraced(s, message, receivedAt);
    case _ =>
  }

  /** Every accepted heartbeat is covered by the last reading of its run. */
  ghost predicate Covered(committed: seq<UsageEvent>) {
    forall j :: 0 <= j < |committed| ==>
      CoveredBy(LastReadings(committed), committed[j].startedAt, committed[j].counters)
  }

  ghost predicate CoveredBy(readings: seq<Reading>, startedAt: int, counters: Counters) {
    exists r :: r in readings && r.startedAt == startedAt && counters.Le(r.counters)
  }

  lemma StaysCovered(before: seq<Reading>, reading: Reading, startedAt: int, counters: Counters)
    requires CoveredBy(before, startedAt, counters)
    requires before != [] && before[|before| - 1].startedAt == reading.startedAt ==>
               before[|before| - 1].counters.Le(reading.counters)
    ensures CoveredBy(WithReading(before, reading), startedAt, counters)
  {
    var r :| r in before && r.startedAt == startedAt && counters.Le(r.counters);
    var after := WithReading(before, reading);
    var k :| 0 <= k < |before| && before[k] == r;
    if before[|before| - 1].startedAt == reading.startedAt && k == |before| - 1 {
      assert after[k] == reading;
    } else {
      assert after[k] == r;
    }
  }

  lemma CommitCovers(node: Node, committed: seq<UsageEvent>, event: UsageEvent)
    requires Ledger(node, committed) && Covered(committed)
    requires CalculateUsageDelta(node.startedAt, node.counters, event.startedAt, event.counters) == Success(event.delta)
    ensures Covered(committed + [event])
  {
    CommittedLast(committed, event);
    var before, reading := LastReadings(committed), Reading(event.startedAt, event.counters);
    WithReadingMembers(before, reading);
    PlusZero(event.counters);
    var all := committed + [event];
    forall j | 0 <= j < |all| ensures CoveredBy(LastReadings(all), all[j].startedAt, all[j].counters) {
      if j < |committed| {
        StaysCovered(before, reading, committed[j].startedAt, committed[j].counters);
      } else {
        var after := LastReadings(all);
        assert after[|after| - 1] == reading && reading in after;
      }
    }
  }

  lemma StepCovers(s: System, step: Step)
    requires Inv(s) && Covered(s.committed) && Enabled(s, step)
    ensures Covered(Apply(s, step).committed)
  {
    if step.Commit? {
      match HeartbeatOutcome(s.server, step.message.token, step.message.heartbeat, step.receivedAt)
      case Accepted(event) => CommitCovers(s.server.node, s.committed, event);
      case _ =>
    }
  }

  lemma {:induction false} RunsTraced(states: seq<System>, i: nat)
    requires IsRun(states) && i < |states|
    ensures Traced(states[i]) && Covered(states[i].committed)
    decreases i
  {
    if i == 0 {
    } else {
      RunsTraced(states, i - 1);
      RunsKeepInv(states, i - 1);
      assert Next(states[i - 1], states[i - 1 + 1]);
      var step :| Enabled(states[i - 1], step) && states[i] == Apply(states[i - 1], step);
      StepTraced(states[i - 1], step);
      StepCovers(states[i - 1], step);
    }
  }

  /** For every run that has gained, some accepted heartbeat carries at least all it gained. */
  ghost predicate FullyReported(runs: seq<Run>, committed: seq<UsageEvent>) {
    forall k :: 0 <= k < |runs| ==> ReportedBy(committed, runs[k].startedAt, runs[k].gained)
  }

  ghost predicate ReportedBy(committed: seq<UsageEvent>, startedAt: int, gained: Counters) {
    exists j :: 0 <= j < |committed| && committed[j].startedAt == startedAt && gained.Le(committed[j].counters)
  }

  /** Readings of distinct runs that cover each run's gain add up to at least the total gain. */
  lemma {:induction false} CoverSum(readings: seq<Reading>, runs: seq<Run>)
    requires Rising(readings) && StartsRise(runs)
    requires forall k :: 0 <= k < |runs| ==> CoveredBy(readings, runs[k].startedAt, runs[k].gained)
    ensures TotalGain(runs).Le(SumReadings(readings))
    decreases |readings|
  {
    if runs == [] {
    } else {
      assert CoveredBy(readings, runs[0].startedAt, runs[0].gained);
      var init, r := readings[..|readings| - 1], readings[|readings| - 1];
      var last := runs[|runs| - 1];
      var fewer := if last.startedAt == r.startedAt then runs[..|runs| - 1] else runs;
      forall k | 0 <= k < |fewer| ensures CoveredBy(init, fewer[k].startedAt, fewer[k].gained) {
        CoveredEarlier(readings, runs, k);
      }
      CoverSum(init, fewer);
      if last.startedAt == r.startedAt { CoveredByLast(readings, last.gained); }
    }
  }

  lemma NoLaterCover(readings: seq<Reading>, startedAt: int, gained: Counters)
    requires Rising(readings) && CoveredBy(readings, startedAt, gained)
    ensures readings != [] && startedAt <= readings[|readings| - 1].startedAt
  {
    var r :| r in readings && r.startedAt == startedAt && gained.Le(r.counters);
    var at :| 0 <= at < |readings| && readings[at] == r;
  }

  /** A run other than the last reading's is covered by an earlier reading. */
  lemma CoveredEarlier(readings: seq<Reading>, runs: seq<Run>, k: nat)
    requires readings != [] && Rising(readings) && StartsRise(runs) && k < |runs|
    requires forall j :: 0 <= j < |runs| ==> CoveredBy(readings, runs[j].startedAt, runs[j].gained)
    requires runs[|runs| - 1].startedAt == readings[|readings| - 1].startedAt ==> k < |runs| - 1
    ensures CoveredBy(readings[..|readings| - 1], runs[k].startedAt, runs[k].gained)
  {
    NoLaterCover(readings, runs[|runs| - 1].startedAt, runs[|runs| - 1].gained);
    assert runs[k].startedAt != readings[|readings| - 1].startedAt;
    var r :| r in readings && r.startedAt == runs[k].startedAt && runs[k].gained.Le(r.counters);
    var at :| 0 <= at < |readings| && readings[at] == r;
    assert readings[..|readings| - 1][at] == r;
  }

  lemma CoveredByLast(readings: seq<Reading>, gained: Counters)
    requires readings != [] && Rising(readings)
    requires CoveredBy(readings, readings[|readings| - 1].startedAt, gained)
    ensures gained.Le(readings[|readings| - 1].counters)
  {
    var r :| r in readings && r.startedAt == readings[|readings| - 1].startedAt && gained.Le(r.counters);
    var at :| 0 <= at < |readings| && readings[at] == r;
  }

  lemma LeAntisymmetric(a: Counters, b: Counters)
    requires a.Le(b) && b.Le(a)
    ensures a == b
  {}

  lemma ReportedIsCovered(committed: seq<UsageEvent>, startedAt: int, gained: Counters)
    requires Covered(committed) && ReportedBy(committed, startedAt, gained)
    ensures CoveredBy(LastReadings(committed), startedAt, gained)
  {
    var j :| 0 <= j < |committed| && committed[j].startedAt == startedAt && gained.Le(committed[j].counters);
    assert CoveredBy(LastReadings(committed), committed[j].startedAt, committed[j].counters);
  }

  /**
   * In every run of the protocol whose daemon runs have rising start times: once each of them has
   * been reported to its end, recorded usage is exactly what the log gained while they reported.
   */
  lemma ReportedInFull(states: seq<System>, i: nat)
    requires IsRun(states) && i < |states|
    requires StartsRise(states[i].runs) && FullyReported(states[i].runs, states[i].committed)
    ensures states[i].server.node.usage == TotalGain(states[i].runs)
  {
    var s := states[i];
    RunsTraced(states, i);
    MeteringConserved(states, i);
    var readings := LastReadings(s.committed);
    RunsKeepInv(states, i);
    forall k | 0 <= k < |s.runs| ensures CoveredBy(readings, s.runs[k].startedAt, s.runs[k].gained) {
      assert ReportedBy(s.committed, s.runs[k].startedAt, s.runs[k].gained);
      ReportedIsCovered(s.committed, s.runs[k].startedAt, s.runs[k].gained);
    }
    CoverSum(readings, s.runs);
    LeAntisymmetric(s.server.node.usage, TotalGain(s.runs));
  }

  /** With rising start times the gain under the last run's start time is that run's own. */
  lemma {:induction false} NoGainElsewhere(runs: seq<Run>, startedAt: int)
    requires forall k :: 0 <= k < |runs| ==> runs[k].startedAt != startedAt
    ensures GainOf(runs, startedAt) == ZERO
  {
    if runs == [] {
    } else {
      NoGainElsewhere(runs[..|runs| - 1], startedAt);
    }
  }

  lemma LastGain(runs: seq<Run>)
    requires runs != [] && StartsRise(runs)
    ensures GainOf(runs, runs[|runs| - 1].startedAt) == runs[|runs| - 1].gained
  {
    NoGainElsewhere(runs[..|runs| - 1], runs[|runs| - 1].startedAt);
  }

  /** The record is that of the last accepted heartbeat. */
  lemma RecordIsLastCommit(node: Node, committed: seq<UsageEvent>)
    requires Ledger(node, committed)
    ensures committed == [] ==> node.startedAt == None
    ensures committed != [] ==> node.startedAt == Some(committed[|committed| - 1].startedAt)
  {
    if committed != [] {
      var init, last := committed[..|committed| - 1], committed[|committed| - 1];
      WithReadingMembers(LastReadings(init), Reading(last.startedAt, last.counters));
    }
  }

  /** With rising start times the record never exceeds what the run that reports has gained. */
  lemma RecordNotAhead(s: System)
    requires Inv(s) && Traced(s) && StartsRise(s.runs) && s.runs != []
    ensures var run := s.runs[|s.runs| - 1];
            || s.server.node.startedAt.None?
            || s.server.node.startedAt.value < run.startedAt
            || (s.server.node.startedAt.value == run.startedAt && s.server.node.counters.Le(run.gained))
  {
    var node, run := s.server.node, s.runs[|s.runs| - 1];
    RecordIsLastCommit(node, s.committed);
    if s.committed != [] {
      assert FromRun(s.committed[|s.committed| - 1].startedAt, s.runs);
      LastGain(s.runs);
      var readings := LastReadings(s.committed);
      assert readings != [] && readings[|readings| - 1] in readings;
    }
  }

  /** The state after collecting at the end of the log, sending, authenticating and committing. */
  ghost function ReportEnd(s: System, token: Token, online: bool, discoverable: bool, receivedAt: int): System
    requires Reporting(s) && token in s.issued && Authenticates(s.server.node, token)
  {
    PlusZero(s.log);
    var collected := Apply(s, Collect(s.log));
    var sent := Apply(collected, Send(token, online, discoverable));
    var message := EndMessage(s, token, online, discoverable);
    var authenticated := Apply(sent, Authenticate(message));
    Apply(authenticated, Commit(message, receivedAt))
  }

  ghost function EndMessage(s: System, token: Token, online: bool, discoverable: bool): Message
    requires Reporting(s)
  {
    var run := s.runs[|s.runs| - 1];
    Message(token, |s.runs| - 1,
            Heartbeat(s.nextEvent, run.startedAt, s.log.Excess(run.baseline), online, discoverable))
  }

  lemma ExcessIsGain(run: Run, log: Counters)
    requires Observes(run, log)
    ensures log.Excess(run.baseline) == run.gained
  {}

  /** With a valid token and rising start times the last heartbeat of a run is accepted, with all the run has gained. */
  lemma LastHeartbeatCommits(states: seq<System>, i: nat, token: Token, online: bool, discoverable: bool,
                             receivedAt: int)
    requires IsRun(states) && i < |states|
    requires Reporting(states[i]) && token in states[i].issued && Authenticates(states[i].server.node, token)
    requires StartsRise(states[i].runs)
    ensures var s, after := states[i], ReportEnd(states[i], token, online, discoverable, receivedAt);
            var run := s.runs[|s.runs| - 1];
            && |after.committed| == |s.committed| + 1 && after.committed[..|s.committed|] == s.committed
            && after.committed[|s.committed|].startedAt == run.startedAt
            && after.committed[|s.committed|].counters == run.gained
            && after.runs == s.runs[..|s.runs| - 1] + [run.(latest := s.log)]
  {
    var s := states[i];
    RunsKeepInv(states, i);
    RunsTraced(states, i);
    RecordNotAhead(s);
    ExcessIsGain(s.runs[|s.runs| - 1], s.log);
    HeartbeatAnswer(s.server, token, EndMessage(s, token, online, discoverable).heartbeat, receivedAt);
  }

  lemma ExtendRun(states: seq<System>, step: Step) returns (longer: seq<System>)
    requires IsRun(states) && Enabled(states[|states| - 1], step)
    ensures IsRun(longer) && longer[|longer| - 1] == Apply(states[|states| - 1], step)
  {
    var after := Apply(states[|states| - 1], step);
    assert Next(states[|states| - 1], after);
    longer := states + [after];
  }

  lemma ReportEndIsReached(states: seq<System>, token: Token, online: bool, discoverable: bool, receivedAt: int)
    returns (longer: seq<System>)
    requires IsRun(states) && Reporting(states[|states| - 1]) && token in states[|states| - 1].issued
    requires Authenticates(states[|states| - 1].server.node, token)
    ensures IsRun(longer)
    ensures longer[|longer| - 1] == ReportEnd(states[|states| - 1], token, online, discoverable, receivedAt)
  {
    var s := states[|states| - 1];
    var message := EndMessage(s, token, online, discoverable);
    PlusZero(s.log);
    longer := ExtendRun(states, Collect(s.log));
    longer := ExtendRun(longer, Send(token, online, discoverable));
    longer := ExtendRun(longer, Authenticate(message));
    longer := ExtendRun(longer, Commit(message, receivedAt));
  }

  /**
   * When daemon runs have rising start times and each reports once more at the end of its log with
   * a valid token, nothing is lost: if the earlier runs did, then after the last one's report usage
   * is exactly the total gain.
   */
  lemma LastReportCompletes(states: seq<System>, token: Token, online: bool, discoverable: bool, receivedAt: int)
    requires IsRun(states) && Reporting(states[|states| - 1]) && token in states[|states| - 1].issued
    requires Authenticates(states[|states| - 1].server.node, token) && StartsRise(states[|states| - 1].runs)
    requires var s := states[|states| - 1]; FullyReported(s.runs[..|s.runs| - 1], s.committed)
    ensures var s := states[|states| - 1];
            var after := ReportEnd(s, token, online, discoverable, receivedAt);
            && after.server.node.usage == TotalGain(s.runs)
            && FullyReported(after.runs, after.committed)
  {
    var s := states[|states| - 1];
    var after := ReportEnd(s, token, online, discoverable, receivedAt);
    LastHeartbeatCommits(states, |states| - 1, token, online, discoverable, receivedAt);
    var init, run := s.runs[..|s.runs| - 1], s.runs[|s.runs| - 1];
    OneMoreReported(init, run.(latest := s.log), s.committed, after.committed[|s.committed|]);
    assert after.committed == s.committed + [after.committed[|s.committed|]];
    var longer := ReportEndIsReached(states, token, online, discoverable, receivedAt);
    ReportedInFull(longer, |longer| - 1);
    assert s.runs == init + [run];
    GainOfLast(s.runs, run.(latest := s.log), 0);
    GainOfLast(s.runs, run, 0);
  }

  lemma OneMoreReported(runs: seq<Run>, run: Run, committed: seq<UsageEvent>, event: UsageEvent)
    requires FullyReported(runs, committed) && event.startedAt == run.startedAt && event.counters == run.gained
    ensures FullyReported(runs + [run], committed + [event])
  {
    PlusZero(run.gained);
    var all, events := runs + [run], committed + [event];
    forall k | 0 <= k < |all| ensures ReportedBy(events, all[k].startedAt, all[k].gained) {
      if k < |runs| {
        assert ReportedBy(committed, runs[k].startedAt, runs[k].gained);
        var j :| 0 <= j < |committed| && committed[j].startedAt == runs[k].startedAt
                 && runs[k].gained.Le(committed[j].counters);
        assert events[j] == committed[j];
      } else {
        assert events[|committed|] == event;
      }
    }
  }
}
