/** The proxy's circuit breaker, with any number of calls in flight. */
module CircuitBreaker {

  type Time = int

  datatype CircuitState = CLOSED | OPEN | HALF_OPEN

  const THRESHOLD := 5
  const RESET_TIMEOUT_MS := 10000

  /** The fields of a ProxyCircuitBreaker. */
  datatype Breaker = Breaker(state: CircuitState, failures: nat, lastFailureTime: Time)

  const INITIAL := Breaker(CLOSED, 0, 0)

  // ---------------------------------------------------------------- the three stretches of execute

  predicate Refuses(b: Breaker, now: Time)
  {
    b.state == OPEN && now - b.lastFailureTime <= RESET_TIMEOUT_MS
  }

  function Begun(b: Breaker, now: Time): Breaker
  {
    if b.state == OPEN && !Refuses(b, now) then b.(state := HALF_OPEN) else b
  }

  function Succeeded(b: Breaker): Breaker
  {
    if b.state == HALF_OPEN then b.(state := CLOSED, failures := 0) else b
  }

  function Failed(b: Breaker, started: Time): Breaker
  {
    Breaker(if b.failures + 1 >= THRESHOLD then OPEN else b.state, b.failures + 1, started)
  }

  class ProxyCircuitBreaker {
    var state: CircuitState
    var failures: nat
    var lastFailureTime: Time

    function Fields(): Breaker
      reads this
    {
      Breaker(state, failures, lastFailureTime)
    }

    constructor ()
      ensures Fields() == INITIAL
    {
      state, failures, lastFailureTime := CLOSED, 0, 0;
    }

    /** execute up to the await of the action. */
    method Begin(now: Time) returns (admitted: bool)
      modifies this
      ensures admitted == !Refuses(old(Fields()), now)
      ensures Fields() == Begun(old(Fields()), now)
    {
      if state == OPEN {
        if now - lastFailureTime > RESET_TIMEOUT_MS {
          state := HALF_OPEN;
        } else {
          return false;
        }
      }
      return true;
    }

    method FinishSuccess()
      modifies this
      ensures Fields() == Succeeded(old(Fields()))
    {
      if state == HALF_OPEN { Reset(); }
    }

    /** recordFailure is given the time at which the failing call began. */
    method FinishFailure(started: Time)
      modifies this
      ensures Fields() == Failed(old(Fields()), started)
    {
      failures := failures + 1;
      lastFailureTime := started;
      if failures >= THRESHOLD && state != OPEN { state := OPEN; }
    }

    method Reset()
      modifies this
      ensures Fields() == Breaker(CLOSED, 0, old(lastFailureTime))
    {
      state := CLOSED;
      failures := 0;
    }
  }

  // ---------------------------------------------------------------- interleaved runs

  /** A call begins, or a call in flight ends; calls end in any order. */
  datatype Event = Begin(now: Time) | Succeed(call: nat) | Fail(call: nat)

  /** The breaker, the calls in flight with their start times, and what has happened so far. */
  datatype Run = Run(breaker: Breaker, inFlight: map<nat, Time>, calls: nat, history: seq<Happening>)

  datatype Happening = Admitted(at: Time) | Refused(at: Time) | Success | Failure(started: Time)

  const START := Run(INITIAL, map[], 0, [])

  predicate Enabled(r: Run, e: Event)
  {
    match e
    case Begin(_) => true
    case Succeed(call) => call in r.inFlight
    case Fail(call) => call in r.inFlight
  }

  function Step(r: Run, e: Event): Run
    requires Enabled(r, e)
  {
    match e
    case Begin(now) =>
      if Refuses(r.breaker, now) then r.(calls := r.calls + 1, history := r.history + [Refused(now)])
      else Run(Begun(r.breaker, now), r.inFlight[r.calls := now], r.calls + 1, r.history + [Admitted(now)])
    case Succeed(call) => Run(Succeeded(r.breaker), r.inFlight - {call}, r.calls, r.history + [Success])
    case Fail(call) =>
      Run(Failed(r.breaker, r.inFlight[call]), r.inFlight - {call}, r.calls, r.history + [Failure(r.inFlight[call])])
  }

  /** A run is possible when every call ends at most once, after it was admitted. */
  predicate Possible(r: Run, es: seq<Event>)
    decreases |es|
  {
    es != [] ==> Enabled(r, es[0]) && Possible(Step(r, es[0]), es[1..])
  }

  function After(r: Run, es: seq<Event>): Run
    requires Possible(r, es)
    decreases |es|
  {
    if es == [] then r else After(Step(r, es[0]), es[1..])
  }

  // ---------------------------------------------------------------- what the history says

  function Last(h: seq<Happening>): Happening
    requires h != []
  {
    h[|h| - 1]
  }

  function Before(h: seq<Happening>): seq<Happening>
    requires h != []
  {
    h[..|h| - 1]
  }

  /** Whether a call was admitted since the last failure. */
  predicate ProbedSinceFailure(h: seq<Happening>)
  {
    h != [] && !Last(h).Failure? && (Last(h).Admitted? || ProbedSinceFailure(Before(h)))
  }

  /** Failed completions since the last reset. A reset is a success while five failures have piled up and a call has
      been admitted since the last of them. */
  function FailuresSinceReset(h: seq<Happening>): nat
  {
    if h == [] then 0
    else
      var n := FailuresSinceReset(Before(h));
      match Last(h)
      case Failure(_) => n + 1
      case Success => if n >= 5 && ProbedSinceFailure(Before(h)) then 0 else n
      case Admitted(_) => n
      case Refused(_) => n
  }

  /** The start time of the call that failed last. */
  function LastFailureStart(h: seq<Happening>): Time
  {
    if h == [] then 0 else if Last(h).Failure? then Last(h).started else LastFailureStart(Before(h))
  }

  function StateOf(h: seq<Happening>): CircuitState
  {
    if FailuresSinceReset(h) < 5 then CLOSED else if ProbedSinceFailure(h) then HALF_OPEN else OPEN
  }

  /** The fields that the history gives. */
  function FieldsOf(h: seq<Happening>): Breaker
  {
    Breaker(StateOf(h), FailuresSinceReset(h), LastFailureStart(h))
  }

  predicate Tracks(r: Run)
  {
    && r.breaker == FieldsOf(r.history)
    && (forall c :: c in r.inFlight ==> c < r.calls)
  }

  lemma HistorySnoc(h: seq<Happening>, x: Happening)
    ensures ProbedSinceFailure(h + [x]) == (!x.Failure? && (x.Admitted? || ProbedSinceFailure(h)))
    ensures LastFailureStart(h + [x]) == if x.Failure? then x.started else LastFailureStart(h)
    ensures FailuresSinceReset(h + [x])
            == if x.Failure? then FailuresSinceReset(h) + 1
               else if x.Success? && FailuresSinceReset(h) >= 5 && ProbedSinceFailure(h) then 0
               else FailuresSinceReset(h)
  {
    assert Before(h + [x]) == h && Last(h + [x]) == x;
  }

  lemma HappeningMovesFields(h: seq<Happening>, x: Happening)
    requires x.Refused? ==> Refuses(FieldsOf(h), x.at)
    requires x.Admitted? ==> !Refuses(FieldsOf(h), x.at)
    ensures FieldsOf(h + [x]) == match x
                                 case Admitted(at) => Begun(FieldsOf(h), at)
                                 case Refused(_) => FieldsOf(h)
                                 case Success => Succeeded(FieldsOf(h))
                                 case Failure(started) => Failed(FieldsOf(h), started)
  {
    HistorySnoc(h, x);
    hide FailuresSinceReset, ProbedSinceFailure, LastFailureStart;
  }

  lemma StepTracks(r: Run, e: Event)
    requires Tracks(r) && Enabled(r, e)
    ensures Tracks(Step(r, e))
  {
    hide FieldsOf, Refuses, Begun, Succeeded, Failed;
    match e
    case Begin(now) =>
      HappeningMovesFields(r.history, if Refuses(r.breaker, now) then Refused(now) else Admitted(now));
    case Succeed(_) => HappeningMovesFields(r.history, Success);
    case Fail(call) => HappeningMovesFields(r.history, Failure(r.inFlight[call]));
  }

  /** In every interleaving the three fields are functions of the history: CLOSED exactly below five failures since
      the last reset, half-open exactly once a call was let through since the last failure. */
  lemma {:induction false} RunTracks(r: Run, es: seq<Event>)
    requires Tracks(r) && Possible(r, es)
    ensures Tracks(After(r, es))
    decreases |es|
  {
    hide Tracks;
    if es != [] {
      StepTracks(r, es[0]);
      RunTracks(Step(r, es[0]), es[1..]);
    }
  }

  lemma {:induction false} FieldsFollowHistory(es: seq<Event>)
    requires Possible(START, es)
    ensures var r := After(START, es);
            && r.breaker.failures == FailuresSinceReset(r.history)
            && r.breaker.lastFailureTime == LastFailureStart(r.history)
            && r.breaker.state == StateOf(r.history)
            && (r.breaker.state == CLOSED <==> r.breaker.failures < 5)
  {
    RunTracks(START, es);
  }

  /** A call is refused exactly when at least five failures followed the last reset, none of the calls since the last
      failure was let through, and the call that failed last began at most ten seconds ago. */
  lemma {:induction false} RefusedExactlyWhen(es: seq<Event>, now: Time)
    requires Possible(START, es)
    ensures var r := After(START, es);
            var h := r.history;
            Last(Step(r, Begin(now)).history) == Refused(now) <==>
              && FailuresSinceReset(h) >= 5
              && !ProbedSinceFailure(h)
              && now - LastFailureStart(h) <= 10000
  {
    RunTracks(START, es);
  }

  /** Only a success that finds the breaker half-open resets it, and every such success does. */
  lemma {:induction false} OnlyProbeSuccessResets(es: seq<Event>, e: Event)
    requires Possible(START, es) && Enabled(After(START, es), e)
    ensures var b, b' := After(START, es).breaker, Step(After(START, es), e).breaker;
            && (b'.failures < b.failures <==> e.Succeed? && b.state == HALF_OPEN)
            && (b.state != CLOSED && b'.state == CLOSED <==> e.Succeed? && b.state == HALF_OPEN)
            && (b'.failures < b.failures ==> b'.failures == 0)
  {
    RunTracks(START, es);
  }

  /** An open breaker recovers: the first call more than ten seconds after the start of the last failing one is let
      through, and when it succeeds before any other call fails the breaker is closed. */
  lemma {:induction false} Recovers(es: seq<Event>, now: Time)
    requires Possible(START, es) && After(START, es).breaker.state == OPEN
    requires now - After(START, es).breaker.lastFailureTime > 10000
    ensures var r := After(START, es);
            && Possible(r, [Begin(now), Succeed(r.calls)])
            && After(r, [Begin(now), Succeed(r.calls)]).breaker == Breaker(CLOSED, 0, r.breaker.lastFailureTime)
  {
    var r := After(START, es);
    var e, f := Begin(now), Succeed(r.calls);
    assert [e, f][1..] == [f] && [f][1..] == [];
    assert Step(r, e).breaker.state == HALF_OPEN && r.calls in Step(r, e).inFlight;
    assert Possible(Step(r, e), [f]);
    assert After(Step(r, e), [f]) == Step(Step(r, e), f);
  }

  /** Half-open lets every call through, not one probe: refusals stop until a call fails. */
  lemma {:induction false} HalfOpenRefusesNothing(r: Run, es: seq<Event>)
    requires r.breaker.state != OPEN
    requires Possible(r, es) && forall i :: 0 <= i < |es| ==> !es[i].Fail?
    ensures After(r, es).breaker.state != OPEN
    ensures forall i :: |r.history| <= i < |After(r, es).history| ==> !After(r, es).history[i].Refused?
    ensures r.history <= After(r, es).history
    decreases |es|
  {
    if es != [] {
      var s := Step(r, es[0]);
      HalfOpenRefusesNothing(s, es[1..]);
      assert s.history == r.history + [Last(s.history)] && !Last(s.history).Refused?;
      assert After(r, es).history[|r.history|] == s.history[|r.history|];
    }
  }

  lemma {:induction false} OneMore(r: Run, es: seq<Event>, e: Event)
    requires Possible(r, es) && Enabled(After(r, es), e)
    ensures Possible(r, es + [e]) && After(r, es + [e]) == Step(After(r, es), e)
    decreases |es|
  {
    if es == [] {
      assert [] + [e] == [e] && [e][1..] == [];
    } else {
      OneMore(Step(r, es[0]), es[1..], e);
      assert (es + [e])[1..] == es[1..] + [e];
    }
  }

  /** The breaker remembers the call that failed last, not the one that began last: after five failures of calls that
      began at `t` it refuses at `t`, yet once a slow call from time 0 fails too it refuses nothing at `t`. */
  lemma {:induction false} LateFailureEndsTheBreak(t: Time) returns (es: seq<Event>)
    requires t > 10000
    ensures Possible(START, es) && Refuses(After(START, es).breaker, t)
    ensures Enabled(After(START, es), Fail(0)) && !Refuses(Step(After(START, es), Fail(0)).breaker, t)
  {
    es := [];
    OneMore(START, es, Begin(0));
    es := es + [Begin(0)];
    for i := 1 to 6
      invariant Possible(START, es)
      invariant After(START, es).breaker == INITIAL && After(START, es).calls == i
      invariant forall c: nat :: c < i ==> c in After(START, es).inFlight
      invariant forall c: nat :: c < i ==> After(START, es).inFlight[c] == if c == 0 then 0 else t
    {
      OneMore(START, es, Begin(t));
      es := es + [Begin(t)];
    }
    for i := 1 to 6
      invariant Possible(START, es)
      invariant After(START, es).breaker == Breaker(if i <= 5 then CLOSED else OPEN, i - 1, if i == 1 then 0 else t)
      invariant 0 in After(START, es).inFlight && After(START, es).inFlight[0] == 0
      invariant forall c: nat :: i <= c < 6 ==> c in After(START, es).inFlight
      invariant forall c: nat :: i <= c < 6 ==> After(START, es).inFlight[c] == t
    {
      OneMore(START, es, Fail(i));
      es := es + [Fail(i)];
    }
  }
}
