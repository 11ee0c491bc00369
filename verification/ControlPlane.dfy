/**
 * One node's document and usage events in the control plane, and the handlers that change them.
 * A database transaction is one step; credential hashes are plain numbers that never repeat.
 */
module ControlPlane {
  import opened Wrappers

  datatype Counters = Counters(requests: nat, bytesIn: nat, bytesOut: nat, errors: nat) {
    predicate Le(other: Counters) {
      requests <= other.requests && bytesIn <= other.bytesIn && bytesOut <= other.bytesOut && errors <= other.errors
    }

    function Plus(other: Counters): Counters {
      Counters(requests + other.requests, bytesIn + other.bytesIn, bytesOut + other.bytesOut, errors + other.errors)
    }

    function Minus(other: Counters): Counters
      requires other.Le(this)
    {
      Counters(requests - other.requests, bytesIn - other.bytesIn, bytesOut - other.bytesOut, errors - other.errors)
    }

    /** `Math.max(0, this - other)` field by field. */
    function Excess(other: Counters): Counters {
      Counters(Monus(requests, other.requests), Monus(bytesIn, other.bytesIn),
               Monus(bytesOut, other.bytesOut), Monus(errors, other.errors))
    }
  }

  function Monus(a: nat, b: nat): nat {
    if a <= b then 0 else a - b
  }

  const ZERO := Counters(0, 0, 0, 0)

  type Token = nat
  type EventId = nat

  datatype Lifecycle = Active | Revoked | Deleted

  datatype Node = Node(
    lifecycle: Lifecycle,
    tokenHash: Option<Token>,
    credentialVersion: nat,
    startedAt: Option<int>,
    counters: Counters,
    usage: Counters,
    lastSeenAt: Option<int>,
    reportedOnline: bool,
    publicDiscoverable: bool)

  datatype Heartbeat = Heartbeat(eventId: EventId, startedAt: int, counters: Counters, online: bool,
                                 publicDiscoverable: bool)

  datatype UsageEvent = UsageEvent(
    eventId: EventId, credentialVersion: nat, receivedAt: int, startedAt: int, counters: Counters, delta: Counters)

  datatype Server = Server(node: Node, events: map<EventId, UsageEvent>)

  datatype ApiError = InvalidNodeCredential | StaleHeartbeat | NodeNotFound

  /** A document as `initialNode` creates it. */
  function InitialNode(token: Token): Node {
    Node(Active, Some(token), 1, None, ZERO, ZERO, None, false, false)
  }

  function CalculateUsageDelta(previousStartedAt: Option<int>, previous: Counters, incomingStartedAt: int,
                               incoming: Counters)
    : Result<Counters, ApiError>
  {
    if previousStartedAt.None? then Success(incoming)
    else if incomingStartedAt < previousStartedAt.value then Failure(StaleHeartbeat)
    else if incomingStartedAt > previousStartedAt.value then Success(incoming)
    else if !previous.Le(incoming) then Failure(StaleHeartbeat)
    else Success(incoming.Minus(previous))
  }

  predicate Authenticates(node: Node, token: Token) {
    node.lifecycle.Active? && node.tokenHash == Some(token)
  }

  datatype Outcome = Accepted(event: UsageEvent) | Duplicate | Rejected(error: ApiError)

  /** How the heartbeat transaction answers. */
  function HeartbeatOutcome(s: Server, token: Token, hb: Heartbeat, receivedAt: int): Outcome {
    if !Authenticates(s.node, token) then Rejected(InvalidNodeCredential)
    else if hb.eventId in s.events then Duplicate
    else
      match CalculateUsageDelta(s.node.startedAt, s.node.counters, hb.startedAt, hb.counters)
      case Failure(error) => Rejected(error)
      case Success(delta) =>
        Accepted(UsageEvent(hb.eventId, s.node.credentialVersion, receivedAt, hb.startedAt, hb.counters, delta))
  }

  /** What the heartbeat transaction writes. */
  function AfterHeartbeat(s: Server, token: Token, hb: Heartbeat, receivedAt: int): Server {
    match HeartbeatOutcome(s, token, hb, receivedAt)
    case Accepted(event) =>
      Server(s.node.(lastSeenAt := Some(receivedAt), reportedOnline := hb.online, startedAt := Some(hb.startedAt),
                     counters := hb.counters, usage := s.node.usage.Plus(event.delta),
                     publicDiscoverable := hb.publicDiscoverable),
             s.events[hb.eventId := event])
    case _ => s
  }

  function AfterRotate(s: Server, token: Token): Server {
    if s.node.lifecycle.Deleted? then s
    else s.(node := s.node.(lifecycle := Active, tokenHash := Some(token), reportedOnline := false,
                            credentialVersion := s.node.credentialVersion + 1))
  }

  function AfterRevoke(s: Server): Server {
    if s.node.lifecycle.Deleted? then s
    else s.(node := s.node.(lifecycle := Revoked, tokenHash := None, reportedOnline := false,
                            publicDiscoverable := false))
  }

  function AfterDelete(s: Server): Server {
    if s.node.lifecycle.Deleted? then s
    else s.(node := s.node.(lifecycle := Deleted, tokenHash := None, reportedOnline := false,
                            publicDiscoverable := false))
  }

  /**
   * Which heartbeats are accepted, by the record alone: those of an active node's own token with an
   * unseen event id, that come first, or from a later daemon run, or from the recorded run with
   * counters that have not gone back. A first or later run adds all it counts, the recorded run
   * what it counts more than before.
   */
  lemma HeartbeatAnswer(s: Server, token: Token, hb: Heartbeat, receivedAt: int)
    ensures var known := s.node.lifecycle == Active && s.node.tokenHash == Some(token);
            var first := s.node.startedAt == None;
            var later := s.node.startedAt.Some? && hb.startedAt > s.node.startedAt.value;
            var same := s.node.startedAt == Some(hb.startedAt);
            var grown :=
              && hb.counters.requests >= s.node.counters.requests && hb.counters.bytesIn >= s.node.counters.bytesIn
              && hb.counters.bytesOut >= s.node.counters.bytesOut && hb.counters.errors >= s.node.counters.errors;
            var accepted := known && hb.eventId !in s.events && (first || later || (same && grown));
            var outcome := HeartbeatOutcome(s, token, hb, receivedAt);
            && (outcome == Rejected(InvalidNodeCredential) <==> !known)
            && (outcome == Duplicate <==> known && hb.eventId in s.events)
            && (outcome.Accepted? <==> accepted)
            && (outcome == Rejected(StaleHeartbeat) <==> known && hb.eventId !in s.events && !accepted)
            && (accepted ==>
                  && outcome.event.eventId == hb.eventId && outcome.event.startedAt == hb.startedAt
                  && outcome.event.counters == hb.counters && outcome.event.receivedAt == receivedAt
                  && outcome.event.credentialVersion == s.node.credentialVersion)
            && (accepted && (first || later) ==> outcome.event.delta == hb.counters)
            && (accepted && same ==>
                  && outcome.event.delta.requests == hb.counters.requests - s.node.counters.requests
                  && outcome.event.delta.bytesIn == hb.counters.bytesIn - s.node.counters.bytesIn
                  && outcome.event.delta.bytesOut == hb.counters.bytesOut - s.node.counters.bytesOut
                  && outcome.event.delta.errors == hb.counters.errors - s.node.counters.errors)
  {}

  /** What an accepted heartbeat changes: usage grows by the delta, the record is replaced, the credential stays. */
  lemma AcceptedChanges(s: Server, token: Token, hb: Heartbeat, receivedAt: int)
    requires HeartbeatOutcome(s, token, hb, receivedAt).Accepted?
    ensures var event := HeartbeatOutcome(s, token, hb, receivedAt).event;
            var after := AfterHeartbeat(s, token, hb, receivedAt);
            && after.node.usage.requests == s.node.usage.requests + event.delta.requests
            && after.node.usage.bytesIn == s.node.usage.bytesIn + event.delta.bytesIn
            && after.node.usage.bytesOut == s.node.usage.bytesOut + event.delta.bytesOut
            && after.node.usage.errors == s.node.usage.errors + event.delta.errors
            && after.node.startedAt == Some(hb.startedAt) && after.node.counters == hb.counters
            && after.node.lastSeenAt == Some(receivedAt) && after.node.reportedOnline == hb.online
            && after.node.publicDiscoverable == hb.publicDiscoverable
            && after.node.lifecycle == s.node.lifecycle && after.node.tokenHash == s.node.tokenHash
            && after.node.credentialVersion == s.node.credentialVersion
            && after.events == s.events[hb.eventId := event]
  {}

  /** The handlers, field by field. */
  class NodeStore {
    var node: Node
    var events: map<EventId, UsageEvent>

    function State(): Server
      reads this
    {
      Server(node, events)
    }

    constructor (token: Token)
      ensures State() == Server(InitialNode(token), map[])
      ensures (forall other :: Authenticates(node, other) <==> other == token) && node.startedAt.None?
      ensures node.usage == ZERO && node.credentialVersion == 1 && !node.reportedOnline && !node.publicDiscoverable
    {
      node, events := InitialNode(token), map[];
    }

    /** `handleNodeHeartbeat` from its transaction on; `duplicate` as the response reports it. */
    method HandleHeartbeat(token: Token, hb: Heartbeat, receivedAt: int)
      returns (duplicate: bool, error: Option<ApiError>)
      modifies this
      ensures State() == AfterHeartbeat(old(State()), token, hb, receivedAt)
      ensures match HeartbeatOutcome(old(State()), token, hb, receivedAt)
              case Accepted(event) => !duplicate && error == None && hb.eventId in events && events[hb.eventId] == event
              case Duplicate => duplicate && error == None
              case Rejected(reason) => !duplicate && error == Some(reason)
      ensures error == Some(InvalidNodeCredential) <==>
              !(old(node).lifecycle == Active && old(node).tokenHash == Some(token))
      ensures error == Some(InvalidNodeCredential) || error == Some(StaleHeartbeat) || error == None
      ensures error == None && !duplicate <==>
              && old(node).lifecycle == Active && old(node).tokenHash == Some(token) && hb.eventId !in old(events)
              && (|| old(node).startedAt.None? || hb.startedAt > old(node).startedAt.value
                  || (hb.startedAt == old(node).startedAt.value && old(node).counters.Le(hb.counters)))
      ensures duplicate || error.Some? ==> node == old(node) && events == old(events)
    {
      HeartbeatAnswer(State(), token, hb, receivedAt);
      duplicate := false;
      var fresh' := node;
      if !(fresh'.lifecycle.Active? && fresh'.tokenHash == Some(token)) {
        return false, Some(InvalidNodeCredential);
      }
      if hb.eventId in events {
        duplicate := true;
        return duplicate, None;
      }
      var delta := CalculateUsageDelta(fresh'.startedAt, fresh'.counters, hb.startedAt, hb.counters);
      if delta.Failure? {
        return false, Some(delta.error);
      }
      events := events[hb.eventId := UsageEvent(hb.eventId, fresh'.credentialVersion, receivedAt, hb.startedAt,
                                                hb.counters, delta.value)];
      node := node.(
        lastSeenAt := Some(receivedAt), reportedOnline := hb.online, startedAt := Some(hb.startedAt),
        counters := hb.counters, publicDiscoverable := hb.publicDiscoverable);
      node := node.(usage := node.usage.Plus(delta.value));
      return duplicate, None;
    }

    method HandleRotate(token: Token) returns (error: Option<ApiError>)
      modifies this
      ensures State() == AfterRotate(old(State()), token)
      ensures error == if old(node).lifecycle.Deleted? then Some(NodeNotFound) else None
      ensures error.Some? ==> node == old(node)
      ensures error.None? ==>
                && (forall other :: Authenticates(node, other) <==> other == token)
                && node.credentialVersion == old(node).credentialVersion + 1
                && node.usage == old(node).usage && node.counters == old(node).counters
                && node.startedAt == old(node).startedAt && node.publicDiscoverable == old(node).publicDiscoverable
    {
      if node.lifecycle.Deleted? { return Some(NodeNotFound); }
      node := node.(lifecycle := Active, tokenHash := Some(token), reportedOnline := false);
      node := node.(credentialVersion := node.credentialVersion + 1);
      return None;
    }

    method HandleRevoke() returns (error: Option<ApiError>)
      modifies this
      ensures State() == AfterRevoke(old(State()))
      ensures error == if old(node).lifecycle.Deleted? then Some(NodeNotFound) else None
      ensures error.Some? ==> node == old(node)
      ensures error.None? ==>
                && (forall token :: !Authenticates(node, token)) && !node.publicDiscoverable
                && node.credentialVersion == old(node).credentialVersion
                && node.usage == old(node).usage && node.counters == old(node).counters
    {
      if node.lifecycle.Deleted? { return Some(NodeNotFound); }
      node := node.(lifecycle := Revoked, tokenHash := None, reportedOnline := false, publicDiscoverable := false);
      return None;
    }

    method HandleDelete() returns (error: Option<ApiError>)
      modifies this
      ensures State() == AfterDelete(old(State()))
      ensures error == if old(node).lifecycle.Deleted? then Some(NodeNotFound) else None
      ensures error.Some? ==> node == old(node)
      ensures error.None? ==>
                && (forall token :: !Authenticates(node, token)) && !node.publicDiscoverable
                && node.credentialVersion == old(node).credentialVersion
                && node.usage == old(node).usage && node.counters == old(node).counters
    {
      if node.lifecycle.Deleted? { return Some(NodeNotFound); }
      node := node.(lifecycle := Deleted, tokenHash := None, reportedOnline := false, publicDiscoverable := false);
      return None;
    }
  }
}
