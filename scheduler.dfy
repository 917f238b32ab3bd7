/**
 * `temperature_from_api_task` of temperature_from_api.c: one refresh cycle of
 * its endless loop.  The cycle clears the "reading done" bit, waits for
 * Wi-Fi, performs up to MAX_RETRIES requests, sleeps RETRY_INTERVAL_SECS
 * after each one that leaves the static `temperature_from_json` at the error
 * code, and ends with a REFRESH_INTERVAL_MINS sleep.  Waits, sleeps and bit
 * operations are recorded in a trace; the transport is an oracle that gives
 * the events of every attempt.
 */
module Scheduler {
  import opened Wrappers
  import opened JsonReading
  import opened AccumulatorSpec
  import opened Accumulator

  const RefreshIntervalMins: nat := 5
  const RetryIntervalSecs: nat := 10
  const MaxRetries: nat := 10

  const WeatherApiUrl: string := "https://api.weatherapi.com/v1/"

  /** The request URL: the API base, then `current.json` with the key, the city and `aqi=no`. */
  function FullUrl(key: string, city: string): (url: string)
    ensures |url| == |WeatherApiUrl| + 17 + |key| + 3 + |city| + 7
    ensures url[..|WeatherApiUrl|] == WeatherApiUrl
    ensures url[|WeatherApiUrl|..|WeatherApiUrl| + 17] == "current.json?key="
    ensures url[|WeatherApiUrl| + 17..|WeatherApiUrl| + 17 + |key|] == key
    ensures url[|WeatherApiUrl| + 17 + |key|..|WeatherApiUrl| + 20 + |key|] == "&q="
    ensures url[|WeatherApiUrl| + 20 + |key|..|url| - 7] == city
    ensures url[|url| - 7..] == "&aqi=no"
  {
    WeatherApiUrl + "current.json?key=" + key + "&q=" + city + "&aqi=no"
  }

  /** The query can be read back from the URL: for keys of one length, the URL
      determines the key and the city. */
  lemma FullUrlDeterminesQuery(key: string, city: string, key': string, city': string)
    requires |key| == |key'| && FullUrl(key, city) == FullUrl(key', city')
    ensures key == key' && city == city'
  {
    var url := FullUrl(key, city);
    assert key == url[|WeatherApiUrl| + 17..|WeatherApiUrl| + 17 + |key|];
    assert city == url[|WeatherApiUrl| + 20 + |key|..|url| - 7];
  }

  /** What the task does that this model records instead of performing. */
  datatype TraceEntry =
    | ClearReadingDone
    | WaitWifiConnected
    | HttpPerform(attempt: nat)
    | DelaySecs(secs: nat)
    | DelayMins(mins: nat)

  /** What the transport delivers for one `esp_http_client_perform`. */
  datatype Attempt = Attempt(encoding: Encoding, events: seq<Event>, fill: char)

  /** The attempt's last event releases the buffer (ON_FINISH or DISCONNECTED). */
  predicate Releases(a: Attempt) {
    a.events != [] && (a.events[|a.events| - 1].OnFinish? || a.events[|a.events| - 1].Disconnected?)
  }

  /** The attempt delivers no body data, so it never takes hold of a buffer. */
  predicate Dataless(a: Attempt) {
    forall i :: 0 <= i < |a.events| ==> !a.events[i].OnData?
  }

  /** The attempt leaves the buffer released: it is closed by its last
      event, or never allocated one (a failed request, an empty response). */
  predicate Closed(a: Attempt) {
    Releases(a) || Dataless(a)
  }

  /** A closed attempt run from idle ends idle. */
  lemma ClosedAttemptEndsIdle(s: AccState, a: Attempt, parse: seq<char> -> Option<Json>)
    requires Idle(s) && Closed(a)
    ensures Inv(s, a.encoding) && Idle(Run(s, a.encoding, a.events, a.fill, parse))
  {
    IdleIsValid(s, a.encoding);
    if Releases(a) {
      ClosedRunIsIdle(s, a.encoding, a.events, a.fill, parse);
    } else {
      DatalessRunIsIdle(s, a.encoding, a.events, a.fill, parse);
    }
  }

  /** The oracle answers every attempt the cycle can make. */
  predicate Oracle(attempts: seq<Attempt>) {
    |attempts| >= MaxRetries && forall i :: 0 <= i < |attempts| ==> Closed(attempts[i])
  }

  /** The handler's effect on its state of one `esp_http_client_perform`. */
  type Performer = (AccState, Attempt) -> AccState

  /** `perform` is the event handler run over the attempt's events (for
      attempts that start and end with the buffer released). */
  ghost predicate Models(perform: Performer, parse: seq<char> -> Option<Json>) {
    forall s: AccState, enc: Encoding, evs: seq<Event>, fill: char
      {:trigger Run(s, enc, evs, fill, parse)} ::
      Idle(s) && Closed(Attempt(enc, evs, fill)) ==>
        Inv(s, enc) && perform(s, Attempt(enc, evs, fill)) == Run(s, enc, evs, fill, parse)
  }

  /** The handler's run over one attempt. */
  function AttemptRun(s: AccState, a: Attempt, parse: seq<char> -> Option<Json>): (r: AccState)
    requires Idle(s) && Closed(a)
    ensures Idle(r) && r == Run(s, a.encoding, a.events, a.fill, parse)
  {
    ClosedAttemptEndsIdle(s, a, parse);
    Run(s, a.encoding, a.events, a.fill, parse)
  }

  /** The performer of the task's handler: total, leaving states it is never given unchanged. */
  function HandlerPerformer(parse: seq<char> -> Option<Json>): Performer {
    (s: AccState, a: Attempt) => if Idle(s) && Closed(a) then AttemptRun(s, a, parse) else s
  }

  /** The task's handler is a performer the cycle lemmas apply to. */
  lemma HandlerPerformerModels(parse: seq<char> -> Option<Json>)
    ensures Models(HandlerPerformer(parse), parse)
  {
    forall s: AccState, enc: Encoding, evs: seq<Event>, fill: char | Idle(s) && Closed(Attempt(enc, evs, fill))
      ensures Inv(s, enc) && HandlerPerformer(parse)(s, Attempt(enc, evs, fill)) == Run(s, enc, evs, fill, parse)
    {
      IdleIsValid(s, enc);
      assert HandlerPerformer(parse)(s, Attempt(enc, evs, fill)) == AttemptRun(s, Attempt(enc, evs, fill), parse);
    }
  }

  /** An attempt counts as a success when it leaves the static result off the error code. */
  predicate Succeeded(s: AccState) {
    s.temperatureFromJson != TemperatureErrorCode
  }

  datatype CycleResult = CycleResult(state: AccState, attempts: nat, trace: seq<TraceEntry>)

  /** The inner `while (retry_count < MAX_RETRIES)` loop from `retry_count == count`. */
  function Retry(s: AccState, attempts: seq<Attempt>, perform: Performer, count: nat): (r: CycleResult)
    requires |attempts| >= MaxRetries && count <= MaxRetries
    ensures count <= r.attempts <= MaxRetries
    ensures count < MaxRetries ==> count < r.attempts
    decreases MaxRetries - count
  {
    if count >= MaxRetries then CycleResult(s, count, [])
    else
      var s' := perform(s, attempts[count]);
      if Succeeded(s') then CycleResult(s', count + 1, [HttpPerform(count)])
      else
        var r := Retry(s', attempts, perform, count + 1);
        CycleResult(r.state, r.attempts, [HttpPerform(count), DelaySecs(RetryIntervalSecs)] + r.trace)
  }

  /** One cycle of the task's outer loop. */
  function Cycle(s: AccState, attempts: seq<Attempt>, perform: Performer): (r: CycleResult)
    requires |attempts| >= MaxRetries
    ensures 1 <= r.attempts <= MaxRetries
    ensures |r.trace| >= 3 && r.trace[..2] == [ClearReadingDone, WaitWifiConnected]
    ensures r.trace[|r.trace| - 1] == DelayMins(RefreshIntervalMins)
  {
    var r := Retry(s.(readingDone := false), attempts, perform, 0);
    CycleResult(r.state, r.attempts,
                [ClearReadingDone, WaitWifiConnected] + r.trace + [DelayMins(RefreshIntervalMins)])
  }

  /** Reference definition: the states after each of the first `n` attempts,
      performed one after the other with no early stop (`t[0]` is the start). */
  function Trajectory(s: AccState, attempts: seq<Attempt>, perform: Performer, n: nat): (t: seq<AccState>)
    requires n <= |attempts|
    ensures |t| == n + 1 && t[0] == s
  {
    if n == 0 then [s]
    else
      var t := Trajectory(s, attempts, perform, n - 1);
      t + [perform(t[n - 1], attempts[n - 1])]
  }

  lemma {:induction false} TrajectoryStep(s: AccState, attempts: seq<Attempt>, perform: Performer, n: nat, k: nat)
    requires k < n <= |attempts|
    ensures var t := Trajectory(s, attempts, perform, n);
            t[k + 1] == perform(t[k], attempts[k])
    decreases n
  {
    var t := Trajectory(s, attempts, perform, n);
    var u := Trajectory(s, attempts, perform, n - 1);
    assert t == u + [perform(u[n - 1], attempts[n - 1])];
    if k + 1 < n {
      TrajectoryStep(s, attempts, perform, n - 1, k);
    }
  }

  /** The retry loop's trace for attempts `c` to `n - 1`: each request
      followed by a retry sleep, except a last one that succeeded. */
  function TraceFrom(c: nat, n: nat, lastSucceeded: bool): seq<TraceEntry>
    decreases n - c
  {
    if c >= n then []
    else if c == n - 1 && lastSucceeded then [HttpPerform(c)]
    else [HttpPerform(c), DelaySecs(RetryIntervalSecs)] + TraceFrom(c + 1, n, lastSucceeded)
  }

  /** The retry loop's trace for `n` attempts. */
  function RetryTrace(n: nat, lastSucceeded: bool): seq<TraceEntry> {
    TraceFrom(0, n, lastSucceeded)
  }

  /** Requests and retry sleeps alternate, request `c + k` at position `2 * k`;
      the trace is one entry short of two per request exactly when its last request succeeded. */
  lemma {:induction false} TraceFromShape(c: nat, n: nat, ok: bool)
    requires c <= n
    ensures var t := TraceFrom(c, n, ok);
            && |t| == 2 * (n - c) - (if ok && c < n then 1 else 0)
            && forall k :: 0 <= k < |t| ==>
                 t[k] == if k % 2 == 0 then HttpPerform(c + k / 2) else DelaySecs(RetryIntervalSecs)
    decreases n - c
  {
    if c < n && !(c == n - 1 && ok) {
      TraceFromShape(c + 1, n, ok);
      var t := TraceFrom(c, n, ok);
      var u := TraceFrom(c + 1, n, ok);
      assert t == [HttpPerform(c), DelaySecs(RetryIntervalSecs)] + u;
      forall k | 2 <= k < |t|
        ensures t[k] == if k % 2 == 0 then HttpPerform(c + k / 2) else DelaySecs(RetryIntervalSecs)
      {
        assert t[k] == u[k - 2];
        assert (k - 2) % 2 == k % 2 && c + 1 + (k - 2) / 2 == c + k / 2;
      }
    }
  }

  /** A cycle's retry loop alternates requests and RETRY_INTERVAL_SECS sleeps,
      request `i` at position `2 * i`; only a successful last request has no sleep after it. */
  lemma RetryTraceShape(n: nat, ok: bool)
    ensures var t := RetryTrace(n, ok);
            && |t| == 2 * n - (if ok && 0 < n then 1 else 0)
            && forall k :: 0 <= k < |t| ==>
                 t[k] == if k % 2 == 0 then HttpPerform(k / 2) else DelaySecs(RetryIntervalSecs)
  {
    TraceFromShape(0, n, ok);
  }

  /** The loop's trace from `count` on. */
  lemma {:induction false} RetryTraceIs(s: AccState, attempts: seq<Attempt>, perform: Performer, count: nat)
    requires |attempts| >= MaxRetries && count <= MaxRetries
    ensures var r := Retry(s, attempts, perform, count);
            r.trace == TraceFrom(count, r.attempts, Succeeded(r.state))
    decreases MaxRetries - count
  {
    if count < MaxRetries {
      var s' := perform(s, attempts[count]);
      if !Succeeded(s') {
        RetryTraceIs(s', attempts, perform, count + 1);
        var r := Retry(s', attempts, perform, count + 1);
        if count + 1 == MaxRetries {
          assert r.state == s' && r.attempts == count + 1;
        } else {
          assert count + 1 < r.attempts;
        }
      }
    }
  }

  /** The loop from `count` on, characterised by the reference trajectory. */
  lemma {:induction false} RetryCharacterised(s: AccState, attempts: seq<Attempt>, perform: Performer, count: nat)
    requires |attempts| >= MaxRetries && count <= MaxRetries
    requires var t := Trajectory(s, attempts, perform, MaxRetries);
             forall k :: 1 <= k <= count ==> !Succeeded(t[k])
    ensures var t := Trajectory(s, attempts, perform, MaxRetries);
            var r := Retry(t[count], attempts, perform, count);
            && r.state == t[r.attempts]
            && (count < MaxRetries ==> count < r.attempts)
            && (forall k :: 1 <= k < r.attempts ==> !Succeeded(t[k]))
            && (r.attempts < MaxRetries ==> Succeeded(r.state))
    decreases MaxRetries - count
  {
    var t := Trajectory(s, attempts, perform, MaxRetries);
    if count < MaxRetries {
      TrajectoryStep(s, attempts, perform, MaxRetries, count);
      if !Succeeded(t[count + 1]) {
        RetryCharacterised(s, attempts, perform, count + 1);
      }
    }
  }

  /** A cycle clears the bit and waits for Wi-Fi before any request, makes
      between 1 and MAX_RETRIES attempts, stops right after the first that
      leaves the static result off the error code, sleeps the retry interval
      after every other attempt, and ends with the refresh sleep. */
  lemma CycleCharacterised(s: AccState, attempts: seq<Attempt>, perform: Performer)
    requires |attempts| >= MaxRetries
    ensures var t := Trajectory(s.(readingDone := false), attempts, perform, MaxRetries);
            var r := Cycle(s, attempts, perform);
            && 1 <= r.attempts <= MaxRetries
            && r.state == t[r.attempts]
            && (forall k :: 1 <= k < r.attempts ==> !Succeeded(t[k]))
            && (r.attempts < MaxRetries ==> Succeeded(r.state))
            && r.trace == [ClearReadingDone, WaitWifiConnected]
                          + RetryTrace(r.attempts, Succeeded(r.state))
                          + [DelayMins(RefreshIntervalMins)]
  {
    RetryCharacterised(s.(readingDone := false), attempts, perform, 0);
    RetryTraceIs(s.(readingDone := false), attempts, perform, 0);
  }

  /** N failing attempts then a successful one (N < MAX_RETRIES): exactly N + 1
      requests, N retry sleeps, and the cycle ends in the state the successful attempt left. */
  lemma FailuresThenSuccess(s: AccState, attempts: seq<Attempt>, perform: Performer, n: nat)
    requires |attempts| >= MaxRetries && n < MaxRetries
    requires var t := Trajectory(s.(readingDone := false), attempts, perform, MaxRetries);
             (forall k :: 1 <= k <= n ==> !Succeeded(t[k])) && Succeeded(t[n + 1])
    ensures var t := Trajectory(s.(readingDone := false), attempts, perform, MaxRetries);
            var r := Cycle(s, attempts, perform);
            && r.attempts == n + 1
            && r.state == t[n + 1]
            && r.trace == [ClearReadingDone, WaitWifiConnected] + RetryTrace(n + 1, true)
                          + [DelayMins(RefreshIntervalMins)]
  {
    var t := Trajectory(s.(readingDone := false), attempts, perform, MaxRetries);
    var r := Cycle(s, attempts, perform);
    CycleCharacterised(s, attempts, perform);
    StopsAtFirstSuccess(t, r, n);
  }

  /** A cycle result as `CycleCharacterised` describes it, over a trajectory
      whose first success is attempt `n + 1`. */
  lemma StopsAtFirstSuccess(t: seq<AccState>, r: CycleResult, n: nat)
    requires MaxRetries < |t| && n < MaxRetries && 1 <= r.attempts <= MaxRetries
    requires r.state == t[r.attempts]
    requires (forall k :: 1 <= k < r.attempts ==> !Succeeded(t[k])) && (r.attempts < MaxRetries ==> Succeeded(r.state))
    requires r.trace == [ClearReadingDone, WaitWifiConnected] + RetryTrace(r.attempts, Succeeded(r.state))
                        + [DelayMins(RefreshIntervalMins)]
    requires (forall k :: 1 <= k <= n ==> !Succeeded(t[k])) && Succeeded(t[n + 1])
    ensures r.attempts == n + 1 && r.state == t[n + 1]
    ensures r.trace == [ClearReadingDone, WaitWifiConnected] + RetryTrace(n + 1, true) + [DelayMins(RefreshIntervalMins)]
  {
    FirstSuccessIs(t, r.attempts, n);
  }

  /** The attempt a cycle stops at is the first successful one. */
  lemma FirstSuccessIs(t: seq<AccState>, stop: nat, n: nat)
    requires 1 <= stop <= MaxRetries < |t| && n < MaxRetries
    requires (forall k :: 1 <= k < stop ==> !Succeeded(t[k])) && (stop < MaxRetries ==> Succeeded(t[stop]))
    requires (forall k :: 1 <= k <= n ==> !Succeeded(t[k])) && Succeeded(t[n + 1])
    ensures stop == n + 1
  {
  }

  /** Every attempt failing: exactly MAX_RETRIES requests, each followed by a retry sleep. */
  lemma Exhaustion(s: AccState, attempts: seq<Attempt>, perform: Performer)
    requires |attempts| >= MaxRetries
    requires var t := Trajectory(s.(readingDone := false), attempts, perform, MaxRetries);
             forall k :: 1 <= k <= MaxRetries ==> !Succeeded(t[k])
    ensures var r := Cycle(s, attempts, perform);
            && r.attempts == MaxRetries
            && r.trace == [ClearReadingDone, WaitWifiConnected] + RetryTrace(MaxRetries, false)
                          + [DelayMins(RefreshIntervalMins)]
  {
    CycleCharacterised(s, attempts, perform);
  }

  /** `temperature_from_json` is never reset: once a reading has been taken,
      a later cycle whose first request delivers no ON_FINISH (a timeout, a
      dropped connection) stops after that one request, publishes nothing,
      and sleeps no retry interval. */
  lemma StaleResultStopsRetries(s: AccState, attempts: seq<Attempt>, perform: Performer, parse: seq<char> -> Option<Json>)
    requires Models(perform, parse)
    requires Idle(s) && Oracle(attempts) && Succeeded(s)
    requires forall i :: 0 <= i < |attempts[0].events| ==> !attempts[0].events[i].OnFinish?
    ensures var r := Cycle(s, attempts, perform);
            && r.attempts == 1
            && r.state.outsideTemperature == s.outsideTemperature
            && !r.state.readingDone
            && r.trace == [ClearReadingDone, WaitWifiConnected, HttpPerform(0), DelayMins(RefreshIntervalMins)]
  {
    var s0 := s.(readingDone := false);
    var a := attempts[0];
    IdleIsValid(s0, a.encoding);
    NoFinishKeepsReading(s0, a.encoding, a.events, a.fill, parse);
    assert perform(s0, Attempt(a.encoding, a.events, a.fill)) == Run(s0, a.encoding, a.events, a.fill, parse);
    TrajectoryStep(s0, attempts, perform, MaxRetries, 0);
    CycleCharacterised(s, attempts, perform);
  }

  /** The task: the event handler it registers, the static `retry_count`, and the trace. */
  class TemperatureTask {
    const handler: HttpEventHandler
    /** `full_url`, the URL of every request. */
    const url: string
    var retryCount: nat
    var trace: seq<TraceEntry>

    ghost predicate Valid()
      reads this, handler
    {
      handler.Valid()
    }

    /** The task's start: the URL built from the configured key and city, and the handler at boot. */
    constructor (parse: seq<char> -> Option<Json>, apiKey: string, city: string)
      ensures Valid() && fresh(handler) && handler.parse == parse && Idle(handler.State())
      ensures url == FullUrl(apiKey, city) && retryCount == 0 && trace == []
    {
      handler := new HttpEventHandler(parse);
      url := FullUrl(apiKey, city);
      retryCount := 0;
      trace := [];
    }

    /** One `esp_http_client_perform` of the retry loop: the handler runs the
        attempt's events, as `perform` says, and ends released. */
    method PerformAttempt(attempt: Attempt, ghost perform: Performer)
      requires Valid() && Idle(handler.State()) && Closed(attempt) && Models(perform, handler.parse)
      modifies handler, handler.outputBuffer, handler.userData
      ensures Valid() && Idle(handler.State()) && handler.State() == perform(old(handler.State()), attempt)
      ensures fresh(handler.outputBuffer) || handler.outputBuffer == old(handler.outputBuffer)
    {
      ghost var before := handler.State();
      IdleIsValid(before, attempt.encoding);
      handler.Perform(attempt.events, attempt.encoding, attempt.fill);
      PerformedAsModelled(before, handler.State(), attempt, perform, handler.parse);
    }

    /** One iteration of the task's `while (true)`; `perform` is what one
        `esp_http_client_perform` does to the handler. */
    method RunCycle(attempts: seq<Attempt>, ghost perform: Performer)
      requires Valid() && Idle(handler.State()) && Oracle(attempts) && retryCount == 0
      requires Models(perform, handler.parse)
      modifies this, handler, handler.outputBuffer, handler.userData
      ensures Valid() && Idle(handler.State()) && retryCount == 0
      ensures var r := Cycle(old(handler.State()), attempts, perform);
              handler.State() == r.state && trace == old(trace) + r.trace
    {
      ghost var s0 := handler.State().(readingDone := false);
      handler.readingDone := false;
      trace := trace + [ClearReadingDone];
      trace := trace + [WaitWifiConnected];
      assert handler.State() == s0;
      RetryLoop(attempts, perform);
      retryCount := 0;
      trace := trace + [DelayMins(RefreshIntervalMins)];
      CycleEnds(old(handler.State()), attempts, perform, old(trace), Retry(s0, attempts, perform, 0));
    }

    /** The inner `while (retry_count < MAX_RETRIES)`: a request, then either
        the break on a result off the error code or the retry sleep. */
    method RetryLoop(attempts: seq<Attempt>, ghost perform: Performer)
      requires Valid() && Idle(handler.State()) && Oracle(attempts) && retryCount == 0
      requires Models(perform, handler.parse)
      modifies this, handler, handler.outputBuffer, handler.userData
      ensures Valid() && Idle(handler.State())
      ensures var r := Retry(old(handler.State()), attempts, perform, 0);
              handler.State() == r.state && trace == old(trace) + r.trace
    {
      ghost var r0 := Retry(handler.State(), attempts, perform, 0);
      ghost var t0 := trace;
      ghost var done := false;
      while retryCount < MaxRetries
        invariant Valid() && Idle(handler.State()) && retryCount <= MaxRetries
        invariant fresh(handler.outputBuffer) || handler.outputBuffer == old(handler.outputBuffer)
        invariant Continues(handler.State(), trace, retryCount, attempts, perform, r0, t0)
        invariant !done
        decreases MaxRetries - retryCount
      {
        ghost var before := handler.State();
        ghost var beforeTrace := trace;
        var attempt := attempts[retryCount];
        assert Closed(attempt);
        trace := trace + [HttpPerform(retryCount)];
        PerformAttempt(attempt, perform);
        if handler.temperatureFromJson != TemperatureErrorCode {
          ContinuesStops(before, beforeTrace, retryCount, attempts, perform, r0, t0);
          done := true;
          break;
        }
        trace := trace + [DelaySecs(RetryIntervalSecs)];
        ContinuesSteps(before, beforeTrace, retryCount, attempts, perform, r0, t0);
        retryCount := retryCount + 1;
      }
      if !done {
        ContinuesEnds(handler.State(), trace, retryCount, attempts, perform, r0, t0);
      }
    }
  }

  /** One run of the handler over a closed attempt is one step of `perform`, and leaves the handler idle. */
  lemma PerformedAsModelled(before: AccState, after: AccState, a: Attempt, perform: Performer,
                            parse: seq<char> -> Option<Json>)
    requires Models(perform, parse) && Idle(before) && Closed(a) && Inv(before, a.encoding)
    requires after == Run(before, a.encoding, a.events, a.fill, parse)
    ensures after == perform(before, a) && Idle(after)
  {
    ClosedAttemptEndsIdle(before, a, parse);
    assert a == Attempt(a.encoding, a.events, a.fill);
  }

  lemma CycleEnds(s: AccState, attempts: seq<Attempt>, perform: Performer, before: seq<TraceEntry>, r0: CycleResult)
    requires |attempts| >= MaxRetries && r0 == Retry(s.(readingDone := false), attempts, perform, 0)
    ensures var r := Cycle(s, attempts, perform);
            && r.state == r0.state
            && before + [ClearReadingDone] + [WaitWifiConnected] + r0.trace + [DelayMins(RefreshIntervalMins)]
               == before + r.trace
  {
  }

  /** The retry loop's invariant: what is left of the loop from `count`, with
      the trace so far, gives the whole loop's result `r0` after the trace `t0`. */
  ghost predicate Continues(s: AccState, trace: seq<TraceEntry>, count: nat, attempts: seq<Attempt>,
                            perform: Performer, r0: CycleResult, t0: seq<TraceEntry>)
    requires |attempts| >= MaxRetries
  {
    count <= MaxRetries &&
    var r := Retry(s, attempts, perform, count);
    r.state == r0.state && r.attempts == r0.attempts && trace + r.trace == t0 + r0.trace
  }

  lemma ContinuesSteps(s: AccState, trace: seq<TraceEntry>, count: nat, attempts: seq<Attempt>,
                       perform: Performer, r0: CycleResult, t0: seq<TraceEntry>)
    requires |attempts| >= MaxRetries && count < MaxRetries
    requires Continues(s, trace, count, attempts, perform, r0, t0)
    requires !Succeeded(perform(s, attempts[count]))
    ensures Continues(perform(s, attempts[count]), trace + [HttpPerform(count)] + [DelaySecs(RetryIntervalSecs)],
                      count + 1, attempts, perform, r0, t0)
  {
    var r := Retry(perform(s, attempts[count]), attempts, perform, count + 1);
    assert trace + [HttpPerform(count)] + [DelaySecs(RetryIntervalSecs)] + r.trace
        == trace + ([HttpPerform(count), DelaySecs(RetryIntervalSecs)] + r.trace);
  }

  lemma ContinuesStops(s: AccState, trace: seq<TraceEntry>, count: nat, attempts: seq<Attempt>,
                       perform: Performer, r0: CycleResult, t0: seq<TraceEntry>)
    requires |attempts| >= MaxRetries && count < MaxRetries
    requires Continues(s, trace, count, attempts, perform, r0, t0)
    requires Succeeded(perform(s, attempts[count]))
    ensures perform(s, attempts[count]) == r0.state && trace + [HttpPerform(count)] == t0 + r0.trace
  {
  }

  lemma ContinuesEnds(s: AccState, trace: seq<TraceEntry>, count: nat, attempts: seq<Attempt>,
                      perform: Performer, r0: CycleResult, t0: seq<TraceEntry>)
    requires |attempts| >= MaxRetries && count == MaxRetries
    requires Continues(s, trace, count, attempts, perform, r0, t0)
    ensures s == r0.state && trace == t0 + r0.trace
  {
    assert trace + [] == trace;
  }
}
