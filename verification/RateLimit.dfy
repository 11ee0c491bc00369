/**
 * Fixed-window rate limiting for one scope and identifier, with counters that a background task
 * deletes once they have expired. Times are milliseconds of one clock.
 */
module RateLimit {
  import opened Wrappers
  import opened Arithmetic

  datatype Counter = Counter(count: nat, expiresAt: int)

  type Counters = map<int, Counter>

  function Window(now: int, windowMs: nat): int
    requires windowMs > 0
  {
    now / windowMs
  }

  function WindowEnd(now: int, windowMs: nat): int
    requires windowMs > 0
  {
    (Window(now, windowMs) + 1) * windowMs
  }

  /** `Math.max(1, Math.ceil((bucketEnd - now) / 1000))`, in seconds. */
  function RetryAfter(now: int, windowMs: nat): int
    requires windowMs > 0
  {
    var seconds := (WindowEnd(now, windowMs) - now + 999) / 1000;
    if seconds < 1 then 1 else seconds
  }

  /** When the counter of a window expires. */
  function Expiry(w: int, windowMs: nat): int {
    (w + 1) * windowMs + windowMs
  }

  /** A division of time into windows, and when the counter of each expires. */
  datatype Windows = Windows(of: int -> int, expiry: int -> int)

  function Fixed(windowMs: nat): Windows
    requires windowMs > 0
  {
    Windows(now => Window(now, windowMs), w => Expiry(w, windowMs))
  }

  /** The upsert: count one more request, creating the counter with its expiry if there is none. */
  function Counted(counters: Counters, now: int, ws: Windows): Counters {
    var w := ws.of(now);
    if w in counters then counters[w := counters[w].(count := counters[w].count + 1)]
    else counters[w := Counter(1, ws.expiry(w))]
  }

  class RateLimiter {
    const limit: nat
    const windowMs: nat
    var counters: Counters

    constructor (limit: nat, windowMs: nat)
      ensures this.limit == limit && this.windowMs == windowMs && counters == map[]
    {
      this.limit, this.windowMs, this.counters := limit, windowMs, map[];
    }

    /** `consumeRateLimit`: None admits the request, Some carries the Retry-After seconds. */
    method Consume(now: int) returns (refused: Option<int>)
      requires windowMs > 0
      modifies this
      ensures counters == Counted(old(counters), now, Fixed(windowMs))
      ensures var w := now / windowMs;
              && w in counters && counters - {w} == old(counters) - {w}
              && counters[w].count == (if w in old(counters) then old(counters)[w].count else 0) + 1
      ensures refused == if counters[Window(now, windowMs)].count > limit then Some(RetryAfter(now, windowMs)) else None
      ensures refused.Some? ==>
                refused.value >= 1 && Window(now + 1000 * refused.value, windowMs) > Window(now, windowMs)
      ensures refused.Some? ==> Window(now + 1000 * (refused.value - 1), windowMs) == Window(now, windowMs)
    {
      RetryReachesLaterWindow(now, windowMs);
      var bucket := now / windowMs;
      var bucketEnd := (bucket + 1) * windowMs;
      if bucket in counters {
        counters := counters[bucket := counters[bucket].(count := counters[bucket].count + 1)];
      } else {
        counters := counters[bucket := Counter(1, bucketEnd + windowMs)];
      }
      if counters[bucket].count > limit {
        var seconds := (bucketEnd - now + 999) / 1000;
        return Some(if seconds < 1 then 1 else seconds);
      }
      return None;
    }
  }

  /** A request reads the clock, and its upsert is applied later, at `at`. */
  datatype Event = Request(clock: int, at: int) | Expire(at: int, window: int)

  /** The database applies upserts and deletions one after another. */
  ghost predicate Timed(events: seq<Event>) {
    forall i, j :: 0 <= i < j < |events| ==> events[i].at <= events[j].at
  }

  /** Each upsert of this window is applied before the window's counter could expire. */
  ghost predicate Prompt(events: seq<Event>, w: int, ws: Windows) {
    forall i :: 0 <= i < |events| && events[i].Request? && ws.of(events[i].clock) == w ==>
      events[i].at < ws.expiry(w)
  }

  /** The counters after a sequence of requests and deletions; only expired counters are deleted. */
  function CountersAfter(events: seq<Event>, ws: Windows): Counters {
    if events == [] then map[]
    else
      var before := CountersAfter(events[..|events| - 1], ws);
      match events[|events| - 1]
      case Request(clock, _) => Counted(before, clock, ws)
      case Expire(at, w) => if w in before && before[w].expiresAt <= at then before - {w} else before
  }

  /** The clock readings of the admitted requests, in the order of their upserts. */
  function Admitted(events: seq<Event>, limit: nat, ws: Windows): seq<int> {
    if events == [] then []
    else
      var init, last := events[..|events| - 1], events[|events| - 1];
      var before := Admitted(init, limit, ws);
      if last.Request? && CountersAfter(events, ws)[ws.of(last.clock)].count <= limit
      then before + [last.clock]
      else before
  }

  /** How many requests arrived in a window. */
  function Arrivals(events: seq<Event>, w: int, ws: Windows): nat {
    if events == [] then 0
    else
      var last := events[|events| - 1];
      Arrivals(events[..|events| - 1], w, ws)
      + if last.Request? && ws.of(last.clock) == w then 1 else 0
  }

  /**
   * Some request of the window found no counter although the window already had arrivals: its
   * upsert inserted a second counter.
   */
  predicate Restarted(events: seq<Event>, w: int, ws: Windows) {
    events != [] &&
    var init, last := events[..|events| - 1], events[|events| - 1];
    || Restarted(init, w, ws)
    || (&& last.Request? && ws.of(last.clock) == w
        && w !in CountersAfter(init, ws) && Arrivals(init, w, ws) > 0)
  }

  function CountWindow(times: seq<int>, w: int, ws: Windows): nat {
    if times == [] then 0
    else CountWindow(times[..|times| - 1], w, ws) + if ws.of(times[|times| - 1]) == w then 1 else 0
  }

  function CountBetween(times: seq<int>, from: int, to: int): nat {
    if times == [] then 0
    else CountBetween(times[..|times| - 1], from, to) + if from <= times[|times| - 1] < to then 1 else 0
  }

  // ---------- windows ----------

  lemma WindowBounds(now: int, windowMs: nat)
    requires windowMs > 0
    ensures Window(now, windowMs) * windowMs <= now < WindowEnd(now, windowMs)
    ensures WindowEnd(now, windowMs) == Window(now, windowMs) * windowMs + windowMs
  {
    assert now == (now / windowMs) * windowMs + now % windowMs;
  }

  /** A time lies in window `w` exactly when it lies between the window's ends. */
  lemma InWindowIff(now: int, w: int, windowMs: nat)
    requires windowMs > 0
    ensures Window(now, windowMs) == w <==> w * windowMs <= now < w * windowMs + windowMs
    ensures now >= w * windowMs + windowMs ==> Window(now, windowMs) > w
  {
    WindowBounds(now, windowMs);
    var v := Window(now, windowMs);
    if v < w {
      ProductMonotone(v + 1, w, windowMs);
      assert (v + 1) * windowMs == v * windowMs + windowMs;
    }
    if v > w {
      ProductMonotone(w + 1, v, windowMs);
      assert (w + 1) * windowMs == w * windowMs + windowMs;
    }
  }

  // ---------- what a counter counts ----------

  /** A counter never counts more than its window's arrivals, and exactly those unless it was restarted. */
  lemma {:induction false} CountersExact(events: seq<Event>, w: int, ws: Windows)
    ensures w in CountersAfter(events, ws) ==>
              var counter := CountersAfter(events, ws)[w];
              && counter.expiresAt == ws.expiry(w)
              && 1 <= counter.count <= Arrivals(events, w, ws)
              && (counter.count == Arrivals(events, w, ws) <==> !Restarted(events, w, ws))
    ensures Restarted(events, w, ws) ==> Arrivals(events, w, ws) >= 2
  {
    if events == [] {
    } else {
      CountersExact(events[..|events| - 1], w, ws);
    }
  }

  /** Deletion never loses the counter of a window that can still receive prompt requests, nor any of its count. */
  lemma {:induction false} LiveCounterSurvives(events: seq<Event>, w: int, ws: Windows)
    requires Timed(events) && events != [] && events[|events| - 1].at < ws.expiry(w)
    ensures Arrivals(events, w, ws) > 0 ==>
              && w in CountersAfter(events, ws)
              && CountersAfter(events, ws)[w].count == Arrivals(events, w, ws)
    ensures !Restarted(events, w, ws)
  {
    var init := events[..|events| - 1];
    if init == [] {
    } else {
      assert init[|init| - 1].at <= events[|events| - 1].at;
      LiveCounterSurvives(init, w, ws);
      CountersExact(init, w, ws);
    }
    CountersExact(events, w, ws);
  }

  /** A window whose upserts are all prompt is never restarted, in whatever order the clocks were read. */
  lemma {:induction false} PromptNeverRestarts(events: seq<Event>, w: int, ws: Windows)
    requires Timed(events) && Prompt(events, w, ws)
    ensures !Restarted(events, w, ws)
  {
    if events == [] {
    } else {
      var init, last := events[..|events| - 1], events[|events| - 1];
      PromptNeverRestarts(init, w, ws);
      if last.Request? && ws.of(last.clock) == w { LiveCounterSurvives(events, w, ws); }
    }
  }

  // ---------- how many requests are admitted ----------

  function Least(a: nat, b: nat): nat {
    if a <= b then a else b
  }

  /**
   * Unless its counter was restarted, of each window exactly the first `limit` requests are
   * admitted. If it was, all are admitted up to the limit, and more than the limit beyond it.
   */
  lemma {:induction false} AdmittedPerWindow(events: seq<Event>, limit: nat, w: int, ws: Windows)
    ensures var admitted := CountWindow(Admitted(events, limit, ws), w, ws);
            var arrivals := Arrivals(events, w, ws);
            && (!Restarted(events, w, ws) || arrivals <= limit || limit == 0 ==> admitted == Least(arrivals, limit))
            && (Restarted(events, w, ws) && arrivals > limit >= 1 ==> admitted > limit)
  {
    if events == [] {
    } else {
      var init, last := events[..|events| - 1], events[|events| - 1];
      AdmittedPerWindow(init, limit, w, ws);
      CountersExact(init, w, ws);
      CountersExact(events, w, ws);
      if last.Request? { CountOneMore(Admitted(init, limit, ws), last.clock, w, ws); }
    }
  }

  lemma CountOneMore(times: seq<int>, time: int, w: int, ws: Windows)
    ensures CountWindow(times + [time], w, ws) ==
            CountWindow(times, w, ws) + if ws.of(time) == w then 1 else 0
  {
    assert (times + [time])[..|times|] == times;
  }

  /** No more than the limit can be admitted of this window. */
  predicate Contained(events: seq<Event>, limit: nat, w: int, ws: Windows) {
    limit == 0 || Arrivals(events, w, ws) <= limit || !Restarted(events, w, ws)
  }

  /**
   * For every run, limit and window: at most `limit` requests of the window are admitted if and
   * only if no more arrive or the counter is not restarted.
   */
  lemma WindowBoundIff(events: seq<Event>, limit: nat, w: int, ws: Windows)
    ensures CountWindow(Admitted(events, limit, ws), w, ws) <= limit <==> Contained(events, limit, w, ws)
  {
    AdmittedPerWindow(events, limit, w, ws);
  }

  /** The bound holds for all limits exactly when the window's counter is never restarted. */
  lemma EveryLimitIff(events: seq<Event>, w: int, ws: Windows)
    ensures (forall limit: nat :: CountWindow(Admitted(events, limit, ws), w, ws) <= limit) <==>
            !Restarted(events, w, ws)
  {
    forall limit: nat
      ensures CountWindow(Admitted(events, limit, ws), w, ws) <= limit <==> Contained(events, limit, w, ws)
    {
      WindowBoundIff(events, limit, w, ws);
    }
    CountersExact(events, w, ws);
    WindowBoundIff(events, 1, w, ws);
  }

  lemma {:induction false} IntervalMeetsTwoWindows(times: seq<int>, from: int, windowMs: nat)
    requires windowMs > 0
    ensures var w := Window(from, windowMs);
            CountBetween(times, from, from + windowMs) <=
            CountWindow(times, w, Fixed(windowMs)) + CountWindow(times, w + 1, Fixed(windowMs))
  {
    if times == [] {
    } else {
      var last := times[|times| - 1];
      IntervalMeetsTwoWindows(times[..|times| - 1], from, windowMs);
      var w := Window(from, windowMs);
      WindowBounds(from, windowMs);
      InWindowIff(last, w, windowMs);
      InWindowIff(last, w + 1, windowMs);
      assert (w + 1) * windowMs == w * windowMs + windowMs;
    }
  }

  /** Any interval of one window length admits at most twice the limit, if the two windows it meets are contained. */
  lemma SlidingBound(events: seq<Event>, limit: nat, from: int, windowMs: nat)
    requires windowMs > 0
    requires Contained(events, limit, Window(from, windowMs), Fixed(windowMs))
    requires Contained(events, limit, Window(from, windowMs) + 1, Fixed(windowMs))
    ensures CountBetween(Admitted(events, limit, Fixed(windowMs)), from, from + windowMs) <= 2 * limit
  {
    var w := Window(from, windowMs);
    IntervalMeetsTwoWindows(Admitted(events, limit, Fixed(windowMs)), from, windowMs);
    WindowBoundIff(events, limit, w, Fixed(windowMs));
    WindowBoundIff(events, limit, w + 1, Fixed(windowMs));
  }

  /** So prompt upserts keep both bounds, whatever the order of the clocks. */
  lemma PromptBounds(events: seq<Event>, limit: nat, from: int, windowMs: nat)
    requires windowMs > 0 && Timed(events)
    requires Prompt(events, Window(from, windowMs), Fixed(windowMs))
    requires Prompt(events, Window(from, windowMs) + 1, Fixed(windowMs))
    ensures CountWindow(Admitted(events, limit, Fixed(windowMs)), Window(from, windowMs), Fixed(windowMs)) <= limit
    ensures CountBetween(Admitted(events, limit, Fixed(windowMs)), from, from + windowMs) <= 2 * limit
  {
    PromptNeverRestarts(events, Window(from, windowMs), Fixed(windowMs));
    PromptNeverRestarts(events, Window(from, windowMs) + 1, Fixed(windowMs));
    WindowBoundIff(events, limit, Window(from, windowMs), Fixed(windowMs));
    SlidingBound(events, limit, from, windowMs);
  }

  /** The bound is met: with a limit of one, a request late in a window and one early in the next are both admitted. */
  lemma SlidingBoundIsMet(a: int, b: int, windowMs: nat)
    requires windowMs > 0 && a <= b < a + windowMs && Window(b, windowMs) == Window(a, windowMs) + 1
    ensures Timed([Request(a, a), Request(b, b)])
    ensures forall w :: Prompt([Request(a, a), Request(b, b)], w, Fixed(windowMs))
    ensures CountBetween(Admitted([Request(a, a), Request(b, b)], 1, Fixed(windowMs)), a, a + windowMs) == 2
  {
    WindowBounds(a, windowMs);
    WindowBounds(b, windowMs);
    var events := [Request(a, a), Request(b, b)];
    var init := events[..1];
    assert init == [Request(a, a)];
    OneAdmitted(init, a, windowMs);
    var first := CountersAfter(init, Fixed(windowMs));
    assert CountersAfter(events, Fixed(windowMs)) == Counted(first, b, Fixed(windowMs));
    assert CountersAfter(events, Fixed(windowMs))[Window(b, windowMs)].count == 1;
    var times := Admitted(events, 1, Fixed(windowMs));
    assert times == [a] + [b];
    assert times[..1] == [a];
    CountOne(a, a, a + windowMs);
  }

  lemma OneAdmitted(init: seq<Event>, a: int, windowMs: nat)
    requires windowMs > 0 && init == [Request(a, a)]
    ensures CountersAfter(init, Fixed(windowMs)) == Counted(map[], a, Fixed(windowMs))
    ensures Admitted(init, 1, Fixed(windowMs)) == [a]
  {
    var none := init[..0];
    assert none == [];
    assert CountersAfter(none, Fixed(windowMs)) == map[] && Admitted(none, 1, Fixed(windowMs)) == [];
  }

  lemma CountOne(a: int, from: int, to: int)
    requires from <= a < to
    ensures CountBetween([a], from, to) == 1
  {
    assert [a][..0] == [];
  }

  /**
   * Restarts happen: an upsert applied after its window's counter has been deleted starts
   * the count again, and a window with a limit of one admits two requests.
   */
  lemma LateUpsertRestartsCount(a: int, windowMs: nat) returns (events: seq<Event>)
    requires windowMs > 0
    ensures Timed(events) && Restarted(events, Window(a, windowMs), Fixed(windowMs))
    ensures CountWindow(Admitted(events, 1, Fixed(windowMs)), Window(a, windowMs), Fixed(windowMs)) == 2
  {
    var w, late := Window(a, windowMs), WindowEnd(a, windowMs) + windowMs;
    WindowBounds(a, windowMs);
    var init := [Request(a, a)];
    var expired := init + [Expire(late, w)];
    events := expired + [Request(a, late)];
    OneAdmitted(init, a, windowMs);
    assert expired[..1] == init && events[..2] == expired;
    var counter := Counter(1, late);
    assert CountersAfter(init, Fixed(windowMs)) == map[w := counter];
    assert CountersAfter(expired, Fixed(windowMs)) == map[w := counter] - {w} == map[];
    assert Admitted(expired, 1, Fixed(windowMs)) == [a];
    assert CountersAfter(events, Fixed(windowMs)) == map[w := counter];
    assert Admitted(events, 1, Fixed(windowMs)) == [a] + [a];
    CountSame(a, windowMs);
  }

  lemma CountSame(a: int, windowMs: nat)
    requires windowMs > 0
    ensures CountWindow([a] + [a], Window(a, windowMs), Fixed(windowMs)) == 2
  {
    assert ([a] + [a])[..1] == [a] && [a][..0] == [];
    assert CountWindow([a], Window(a, windowMs), Fixed(windowMs)) == 1;
  }

  /** Waiting the Retry-After of a refusal always reaches a later window, and one second less never does. */
  lemma RetryReachesLaterWindow(now: int, windowMs: nat)
    requires windowMs > 0
    ensures Window(now + 1000 * RetryAfter(now, windowMs), windowMs) > Window(now, windowMs)
    ensures Window(now + 1000 * (RetryAfter(now, windowMs) - 1), windowMs) == Window(now, windowMs)
  {
    WindowBounds(now, windowMs);
    InWindowIff(now + 1000 * RetryAfter(now, windowMs), Window(now, windowMs), windowMs);
    InWindowIff(now + 1000 * (RetryAfter(now, windowMs) - 1), Window(now, windowMs), windowMs);
  }
}
