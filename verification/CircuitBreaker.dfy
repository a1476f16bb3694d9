/**
 The upstream circuit breaker. Every public call takes one lock, evaluates the pending timeout and
 then records, so a run is a sequence of atomic events. The value model `Step` specifies the
 object's methods; the lemmas say what holds over whole runs.

 A failure reads the clock twice (once to evaluate the timeout, once to record), so its event
 carries both readings. Times are milliseconds since the breaker was created.
 */
module CircuitBreakers {
  datatype CircuitState = Closed | Open | HalfOpen

  datatype Config = Config(failureThreshold: nat, windowMs: nat, resetMs: nat, successThreshold: nat)

  datatype Breaker = Breaker(
    state: CircuitState,
    failureCount: nat,
    windowStart: nat,
    openedAt: nat,
    halfOpenSuccesses: nat)

  datatype Event = Query(at: nat) | Success(at: nat) | Failure(at: nat, recordedAt: nat)

  const INITIAL := Breaker(Closed, 0, 0, 0, 0)

  /** Clock readings are at least 1, since 0 marks "no window". */
  function NowMillis(elapsed: nat): nat { if elapsed < 1 then 1 else elapsed }

  function Evaluate(c: Config, b: Breaker, elapsed: nat): Breaker {
    if b.state == Open && NowMillis(elapsed) > b.openedAt + c.resetMs
    then b.(state := HalfOpen, halfOpenSuccesses := 0)
    else b
  }

  function OnSuccess(c: Config, b: Breaker): Breaker {
    match b.state
    case Closed => b.(failureCount := 0, windowStart := 0)
    case HalfOpen =>
      if b.halfOpenSuccesses + 1 >= c.successThreshold
      then b.(state := Closed, failureCount := 0, windowStart := 0, halfOpenSuccesses := 0)
      else b.(halfOpenSuccesses := b.halfOpenSuccesses + 1)
    case Open => b
  }

  function OnFailure(c: Config, b: Breaker, elapsed: nat): Breaker {
    var now := NowMillis(elapsed);
    match b.state
    case Closed =>
      if b.windowStart == 0 || now > b.windowStart + c.windowMs then
        var b' := b.(windowStart := now, failureCount := 1);
        if c.failureThreshold == 1 then b'.(state := Open, openedAt := now) else b'
      else
        var b' := b.(failureCount := b.failureCount + 1);
        if b'.failureCount >= c.failureThreshold then b'.(state := Open, openedAt := now) else b'
    case HalfOpen => b.(state := Open, openedAt := now, halfOpenSuccesses := 0)
    case Open => b
  }

  function Step(c: Config, b: Breaker, e: Event): Breaker {
    var b' := Evaluate(c, b, e.at);
    match e
    case Query(_) => b'
    case Success(_) => OnSuccess(c, b')
    case Failure(_, recordedAt) => OnFailure(c, b', recordedAt)
  }

  function Run(c: Config, b: Breaker, es: seq<Event>): Breaker {
    if es == [] then b else Step(c, Run(c, b, es[..|es| - 1]), es[|es| - 1])
  }

  /** The breaker object; `history` records its calls, so that everything proved of `Run` holds of
      it. */
  class CircuitBreaker {
    const config: Config
    var failureCount: nat
    var windowStart: nat
    var openedAt: nat
    var halfOpenSuccesses: nat
    var circuit: CircuitState
    ghost var history: seq<Event>

    ghost function View(): Breaker
      reads this
    {
      Breaker(circuit, failureCount, windowStart, openedAt, halfOpenSuccesses)
    }

    ghost predicate Valid()
      reads this
    { View() == Run(config, INITIAL, history) }

    constructor (config: Config)
      ensures this.config == config && Valid() && history == []
    {
      this.config := config;
      circuit, failureCount, windowStart, openedAt, halfOpenSuccesses := Closed, 0, 0, 0, 0;
      history := [];
    }

    /** Records the event that took the object from `was` to its present state. */
    ghost method Record(was: Breaker, e: Event)
      requires was == Run(config, INITIAL, history) && View() == Step(config, was, e)
      modifies this`history
      ensures Valid() && history == old(history) + [e]
    {
      history := history + [e];
    }

    method EvaluateState(elapsed: nat)
      modifies this
      ensures View() == Evaluate(config, old(View()), elapsed) && history == old(history)
    {
      if circuit == Open {
        var now := NowMillis(elapsed);
        if now > openedAt + config.resetMs {
          circuit := HalfOpen;
          halfOpenSuccesses := 0;
        }
      }
    }

    method State(elapsed: nat) returns (state: CircuitState)
      requires Valid()
      modifies this
      ensures Valid() && history == old(history) + [Query(elapsed)] && state == View().state
    {
      ghost var was := View();
      EvaluateState(elapsed);
      Record(was, Query(elapsed));
      state := circuit;
    }

    method RecordSuccess(elapsed: nat)
      requires Valid()
      modifies this
      ensures Valid() && history == old(history) + [Success(elapsed)]
    {
      ghost var was := View();
      EvaluateState(elapsed);
      match circuit {
        case Closed =>
          failureCount := 0;
          windowStart := 0;
        case HalfOpen =>
          halfOpenSuccesses := halfOpenSuccesses + 1;
          if halfOpenSuccesses >= config.successThreshold {
            circuit := Closed;
            failureCount := 0;
            windowStart := 0;
            halfOpenSuccesses := 0;
          }
        case Open =>
      }
      Record(was, Success(elapsed));
    }

    method RecordFailure(elapsed: nat, recordedAt: nat)
      requires Valid()
      modifies this
      ensures Valid() && history == old(history) + [Failure(elapsed, recordedAt)]
    {
      ghost var was := View();
      EvaluateState(elapsed);
      var now := NowMillis(recordedAt);
      match circuit {
        case Closed =>
          if windowStart == 0 || now > windowStart + config.windowMs {
            windowStart := now;
            failureCount := 1;
            if config.failureThreshold == 1 {
              circuit := Open;
              openedAt := now;
            }
          } else {
            failureCount := failureCount + 1;
            if failureCount >= config.failureThreshold {
              circuit := Open;
              openedAt := now;
            }
          }
        case HalfOpen =>
          circuit := Open;
          openedAt := now;
          halfOpenSuccesses := 0;
        case Open =>
      }
      Record(was, Failure(elapsed, recordedAt));
    }
  }

  // ---------- Lazy evaluation is unobservable ----------

  function Last(e: Event): nat { if e.Failure? then e.recordedAt else e.at }

  /** A nondecreasing clock, starting no earlier than `from`. */
  ghost predicate Timed(es: seq<Event>, from: nat) {
    && (forall i | 0 <= i < |es| :: from <= es[i].at <= Last(es[i]))
    && (forall i, j | 0 <= i < j < |es| :: Last(es[i]) <= es[j].at)
  }

  function EndTime(es: seq<Event>, from: nat): nat { if es == [] then from else Last(es[|es| - 1]) }

  function Records(es: seq<Event>): seq<Event> {
    if es == [] then []
    else
      var front, e := Records(es[..|es| - 1]), es[|es| - 1];
      if e.Query? then front else front + [e]
  }

  /** Indistinguishable by anything that looks at time `t` or later. */
  ghost predicate Indistinguishable(c: Config, a: Breaker, b: Breaker, t: nat) {
    forall u: nat | u >= t :: Evaluate(c, a, u) == Evaluate(c, b, u)
  }

  /** Asking for the state never matters: a run and the same run with every query removed can not
      be told apart afterwards. */
  lemma {:induction false} QueriesAreInvisible(c: Config, b: Breaker, es: seq<Event>, from: nat)
    requires Timed(es, from)
    ensures Indistinguishable(c, Run(c, b, es), Run(c, b, Records(es)), EndTime(es, from))
  {
    if es != [] {
      var front, e := es[..|es| - 1], es[|es| - 1];
      QueriesAreInvisible(c, b, front, from);
      var lazy, bare := Run(c, b, front), Run(c, b, Records(front));
      assert EndTime(front, from) <= e.at;
      assert Evaluate(c, lazy, e.at) == Evaluate(c, bare, e.at);
      if e.Query? {
        forall u: nat | u >= e.at ensures Evaluate(c, Step(c, lazy, e), u) == Evaluate(c, bare, u) {
        }
      } else {
        var r := Records(es);
        assert r[..|r| - 1] == Records(front);
      }
    }
  }

  /** Hence two runs that record the same outcomes at the same times, with state queries sprinkled
      in differently, give the same answer to every later query. */
  lemma LazyEqualsEager(c: Config, xs: seq<Event>, ys: seq<Event>, t: nat)
    requires Timed(xs, 0) && Timed(ys, 0) && Records(xs) == Records(ys)
    requires EndTime(xs, 0) <= t && EndTime(ys, 0) <= t
    ensures Step(c, Run(c, INITIAL, xs), Query(t)) == Step(c, Run(c, INITIAL, ys), Query(t))
  {
    QueriesAreInvisible(c, INITIAL, xs, 0);
    QueriesAreInvisible(c, INITIAL, ys, 0);
  }

  // ---------- When it opens, how long it stays open, when it closes ----------

  /** A threshold of 0 acts like 2: the first failure only compares for equality with 1. */
  function FailuresToOpen(c: Config): nat { if c.failureThreshold == 0 then 2 else c.failureThreshold }

  function SuccessesToClose(c: Config): nat { if c.successThreshold == 0 then 1 else c.successThreshold }

  function Failures(es: seq<Event>): nat {
    if es == [] then 0 else Failures(es[..|es| - 1]) + if es[|es| - 1].Failure? then 1 else 0
  }

  function Successes(es: seq<Event>): nat {
    if es == [] then 0 else Successes(es[..|es| - 1]) + if es[|es| - 1].Success? then 1 else 0
  }

  /** A success-free stretch of `n` failures inside one window that its first event opens. */
  ghost predicate Streak(c: Config, es: seq<Event>, start: nat, n: nat) {
    && es != [] && es[0].Failure? && NowMillis(es[0].recordedAt) == start
    && Failures(es) == n
    && (forall e | e in es :: !e.Success?)
    && (forall e | e in es && e.Failure? :: NowMillis(e.recordedAt) <= start + c.windowMs)
  }

  /** A failure-free stretch with `n` successes, all after the reset timeout. */
  ghost predicate Recovery(c: Config, es: seq<Event>, openedAt: nat, n: nat) {
    && Successes(es) == n
    && (forall e | e in es :: !e.Failure?)
    && (forall e | e in es :: NowMillis(e.at) > openedAt + c.resetMs)
  }

  /** What the counters mean in terms of the run so far. */
  ghost predicate Justified(c: Config, b: Breaker, es: seq<Event>) {
    match b.state
    case Closed =>
      (b.windowStart == 0 <==> b.failureCount == 0) &&
      (b.windowStart != 0 ==>
        && b.failureCount < FailuresToOpen(c)
        && exists a :: 0 <= a < |es| && Streak(c, es[a..], b.windowStart, b.failureCount))
    case HalfOpen =>
      && b.halfOpenSuccesses < SuccessesToClose(c)
      && exists a :: 0 <= a < |es| && Recovery(c, es[a..], b.openedAt, b.halfOpenSuccesses)
    case Open => true
  }

  lemma StreakGrows(c: Config, es: seq<Event>, a: nat, e: Event, start: nat, n: nat)
    requires a < |es| && Streak(c, es[a..], start, n) && !e.Success?
    requires e.Failure? ==> NowMillis(e.recordedAt) <= start + c.windowMs
    ensures Streak(c, (es + [e])[a..], start, if e.Failure? then n + 1 else n)
  {
    var s := (es + [e])[a..];
    assert s == es[a..] + [e] && s[..|s| - 1] == es[a..];
  }

  lemma RecoveryGrows(c: Config, es: seq<Event>, a: nat, e: Event, openedAt: nat, n: nat)
    requires a <= |es| && Recovery(c, es[a..], openedAt, n) && !e.Failure?
    requires NowMillis(e.at) > openedAt + c.resetMs
    ensures Recovery(c, (es + [e])[a..], openedAt, if e.Success? then n + 1 else n)
  {
    var s := (es + [e])[a..];
    assert s == es[a..] + [e] && s[..|s| - 1] == es[a..];
  }

  lemma RecoveryContinues(c: Config, es: seq<Event>, e: Event, b: Breaker) returns (a: nat)
    requires Timed(es + [e], 0) && !e.Failure? && Justified(c, b, es)
    requires Evaluate(c, b, e.at).state == HalfOpen
    ensures a <= |es|
    ensures var h := Evaluate(c, b, e.at).halfOpenSuccesses;
            && h < SuccessesToClose(c)
            && Recovery(c, (es + [e])[a..], b.openedAt, if e.Success? then h + 1 else h)
  {
    if b.state == Open {
      a := |es|;
    } else {
      a :| 0 <= a < |es| && Recovery(c, es[a..], b.openedAt, b.halfOpenSuccesses);
      assert es[a] in es[a..] && (es + [e])[a] == es[a] && (es + [e])[|es|] == e;
      RecoveryGrows(c, es, a, e, b.openedAt, b.halfOpenSuccesses);
    }
  }

  /** Which stretch of the run the failure count stands for after one more failure. */
  lemma StreakContinues(c: Config, es: seq<Event>, e: Event, b: Breaker) returns (a: nat)
    requires e.Failure? && b.state == Closed && Justified(c, b, es)
    ensures a <= |es|
    ensures var b' := OnFailure(c, b, e.recordedAt);
            && b'.windowStart != 0
            && Streak(c, (es + [e])[a..], b'.windowStart, b'.failureCount)
            && b'.failureCount <= FailuresToOpen(c)
            && (b'.state == Open <==> b'.failureCount == FailuresToOpen(c))
  {
    if b.windowStart == 0 || NowMillis(e.recordedAt) > b.windowStart + c.windowMs {
      a := |es|;
    } else {
      a :| 0 <= a < |es| && Streak(c, es[a..], b.windowStart, b.failureCount);
      StreakGrows(c, es, a, e, b.windowStart, b.failureCount);
    }
  }

  lemma JustifiedStep(c: Config, es: seq<Event>, e: Event, b: Breaker)
    requires Timed(es + [e], 0) && Justified(c, b, es)
    ensures Justified(c, Step(c, b, e), es + [e])
  {
    var b', es' := Step(c, b, e), es + [e];
    if b.state == Closed {
      if e.Failure? {
        var a := StreakContinues(c, es, e, b);
        assert a < |es'|;
      } else if e.Query? && b.windowStart != 0 {
        var a :| 0 <= a < |es| && Streak(c, es[a..], b.windowStart, b.failureCount);
        StreakGrows(c, es, a, e, b.windowStart, b.failureCount);
        assert a < |es'|;
      }
    } else if Evaluate(c, b, e.at).state == HalfOpen && !e.Failure? {
      var a := RecoveryContinues(c, es, e, b);
      assert a < |es'|;
    }
  }

  /** In every run the counters are justified by the events so far. */
  lemma {:induction false} RunJustified(c: Config, es: seq<Event>)
    requires Timed(es, 0)
    ensures Justified(c, Run(c, INITIAL, es), es)
  {
    if es != [] {
      var front, e := es[..|es| - 1], es[|es| - 1];
      RunJustified(c, front);
      assert front + [e] == es;
      JustifiedStep(c, front, e, Run(c, INITIAL, front));
    }
  }

  /** Soundness of opening: in every run, Closed becomes Open only at a failure that completes a
      success-free streak of exactly the threshold inside one window. */
  lemma OpensOnlyAfterStreak(c: Config, es: seq<Event>, e: Event) returns (a: nat, start: nat)
    requires Timed(es + [e], 0)
    requires Run(c, INITIAL, es).state == Closed && Step(c, Run(c, INITIAL, es), e).state == Open
    ensures a <= |es| && e.Failure? && Streak(c, (es + [e])[a..], start, FailuresToOpen(c))
    ensures Step(c, Run(c, INITIAL, es), e).openedAt == NowMillis(e.recordedAt)
  {
    var b := Run(c, INITIAL, es);
    assert Timed(es, 0) by {
      forall i | 0 <= i < |es| ensures es[i] == (es + [e])[i] {}
    }
    RunJustified(c, es);
    a := StreakContinues(c, es, e, b);
    start := Step(c, b, e).windowStart;
  }

  /** Completeness of opening: a streak that starts a window keeps the breaker Closed until its
      threshold-th failure, and that failure opens it. */
  lemma {:induction false} StreakOpensExactly(c: Config, b: Breaker, es: seq<Event>, start: nat, n: nat)
    requires b.state == Closed && Streak(c, es, start, n)
    requires b.windowStart == 0 || start > b.windowStart + c.windowMs
    ensures 0 < n < FailuresToOpen(c) ==>
              Run(c, b, es) == b.(windowStart := start, failureCount := n)
    ensures n == FailuresToOpen(c) && es[|es| - 1].Failure? ==>
              && Run(c, b, es).state == Open
              && Run(c, b, es).openedAt == NowMillis(es[|es| - 1].recordedAt)
  {
    var front, e := es[..|es| - 1], es[|es| - 1];
    if front == [] {
      assert Run(c, b, front) == b && Failures(front) == 0;
    } else {
      assert front[0] == es[0];
      assert Streak(c, front, start, Failures(front));
      StreakOpensExactly(c, b, front, start, Failures(front));
      FirstFailureCounts(front);
    }
  }

  lemma {:induction false} FirstFailureCounts(es: seq<Event>)
    requires es != [] && es[0].Failure?
    ensures Failures(es) >= 1
  {
    if |es| > 1 {
      FirstFailureCounts(es[..|es| - 1]);
    } else {
      assert Failures(es[..0]) == 0;
    }
  }

  /** An open breaker ignores everything recorded up to `openedAt + reset`; from the next
      millisecond on it is observed half-open. */
  lemma {:induction false} StaysOpen(c: Config, b: Breaker, es: seq<Event>, t: nat)
    requires b.state == Open
    requires forall e | e in es :: NowMillis(e.at) <= b.openedAt + c.resetMs
    ensures Run(c, b, es) == b
    ensures Step(c, Run(c, b, es), Query(t)).state
         == if NowMillis(t) <= b.openedAt + c.resetMs then Open else HalfOpen
  {
    if es != [] { StaysOpen(c, b, es[..|es| - 1], t); }
  }

  /** Failure `i` of the run opens the breaker. */
  ghost predicate Opens(c: Config, es: seq<Event>, i: nat) {
    && i < |es| && es[i].Failure?
    && Evaluate(c, Run(c, INITIAL, es[..i]), es[i].at).state != Open
    && Run(c, INITIAL, es[..i + 1]).state == Open
  }

  lemma {:induction false} RunConcat(c: Config, b: Breaker, xs: seq<Event>, ys: seq<Event>)
    ensures Run(c, b, xs + ys) == Run(c, Run(c, b, xs), ys)
  {
    if ys == [] {
      assert xs + ys == xs;
    } else {
      RunConcat(c, b, xs, ys[..|ys| - 1]);
      assert (xs + ys)[..|xs + ys| - 1] == xs + ys[..|ys| - 1];
    }
  }

  /** An open breaker was opened by a failure, at its recorded time, and has been left alone since. */
  lemma {:induction false} OpenedByFailure(c: Config, es: seq<Event>) returns (i: nat)
    requires Run(c, INITIAL, es).state == Open
    ensures Opens(c, es, i) && Run(c, INITIAL, es).openedAt == NowMillis(es[i].recordedAt)
    ensures Run(c, INITIAL, es) == Run(c, INITIAL, es[..i + 1])
  {
    var front, e := es[..|es| - 1], es[|es| - 1];
    if Evaluate(c, Run(c, INITIAL, front), e.at).state == Open {
      i := OpenedByFailure(c, front);
      assert front[..i] == es[..i] && front[..i + 1] == es[..i + 1];
    } else {
      i := |front|;
      assert es[..i + 1] == es;
    }
  }

  lemma OpeningIsRecorded(c: Config, es: seq<Event>, i: nat)
    requires Opens(c, es, i)
    ensures Run(c, INITIAL, es[..i + 1]).openedAt == NowMillis(es[i].recordedAt)
  {
    var upTo := es[..i + 1];
    assert upTo[..i] == es[..i] && upTo[i] == es[i];
  }

  /** A failure that meets a half-open breaker opens it. */
  lemma FailedProbeOpens(c: Config, es: seq<Event>, i: nat)
    requires i < |es| && es[i].Failure? && Evaluate(c, Run(c, INITIAL, es[..i]), es[i].at).state == HalfOpen
    ensures Opens(c, es, i)
  {
    var upTo := es[..i + 1];
    assert upTo[..i] == es[..i] && upTo[i] == es[i];
  }

  /** Time `t` is no later than the reset timeout after failure `i` was recorded. */
  ghost predicate Shields(c: Config, es: seq<Event>, i: nat, t: nat) {
    Opens(c, es, i) && t <= (if es[i].recordedAt < 1 then 1 else es[i].recordedAt) + c.resetMs
  }

  /** Until then the breaker answers open, whatever else is recorded. */
  lemma StillShielded(c: Config, es: seq<Event>, i: nat, t: nat)
    requires Timed(es + [Query(t)], 0) && Shields(c, es, i, t)
    ensures Step(c, Run(c, INITIAL, es), Query(t)).state == Open
  {
    var later, all := es[i + 1..], es + [Query(t)];
    OpeningIsRecorded(c, es, i);
    forall e | e in later ensures e.at <= t {
      var k :| i < k < |es| && es[k] == e;
      assert all[k] == e && all[|es|] == Query(t);
    }
    StaysOpen(c, Run(c, INITIAL, es[..i + 1]), later, t);
    RunConcat(c, INITIAL, es[..i + 1], later);
    assert es[..i + 1] + later == es;
  }

  /** In every run, a query is answered open exactly when no more than the reset timeout has passed
      since the recorded time of some failure that opened the breaker. */
  lemma AnsweredOpenIff(c: Config, es: seq<Event>, t: nat)
    requires Timed(es + [Query(t)], 0)
    ensures Step(c, Run(c, INITIAL, es), Query(t)).state == Open <==> exists i: nat :: Shields(c, es, i, t)
  {
    if Step(c, Run(c, INITIAL, es), Query(t)).state == Open {
      var i := OpenedByFailure(c, es);
      assert Shields(c, es, i, t);
    }
    if i: nat :| Shields(c, es, i, t) { StillShielded(c, es, i, t); }
  }

  /** Half-open is not limited to one request: however many ask, each is told half-open, until an
      outcome is recorded. */
  lemma {:induction false} HalfOpenAdmitsAll(c: Config, b: Breaker, es: seq<Event>, i: nat)
    requires b.state == HalfOpen && i < |es| && forall e | e in es :: e.Query?
    ensures Run(c, b, es) == b && Step(c, Run(c, b, es[..i]), es[i]).state == HalfOpen
  {
    var front := es[..|es| - 1];
    assert es[i] in es && es[|es| - 1] in es;
    if i < |front| {
      HalfOpenAdmitsAll(c, b, front, i);
      assert front[..i] == es[..i];
    } else if front != [] {
      HalfOpenAdmitsAll(c, b, front, |front| - 1);
    }
  }

  /** Soundness of closing: in every run the breaker becomes Closed only from half-open, at a
      success that completes exactly the required number with no failure among them, all after the
      reset timeout. */
  lemma ClosesOnlyAfterRecovery(c: Config, es: seq<Event>, e: Event) returns (a: nat)
    requires Timed(es + [e], 0)
    requires Run(c, INITIAL, es).state != Closed && Step(c, Run(c, INITIAL, es), e).state == Closed
    ensures var b := Run(c, INITIAL, es);
            && a <= |es| && e.Success? && Evaluate(c, b, e.at).state == HalfOpen
            && Recovery(c, (es + [e])[a..], b.openedAt, SuccessesToClose(c))
  {
    assert Timed(es, 0) by {
      forall i | 0 <= i < |es| ensures es[i] == (es + [e])[i] {}
    }
    RunJustified(c, es);
    a := RecoveryContinues(c, es, e, Run(c, INITIAL, es));
  }

  /** Completeness of closing: after the reset timeout, failure-free successes keep an open breaker
      half-open until the required number is reached, and that success closes it. */
  lemma {:induction false} RecoveryClosesExactly(c: Config, b: Breaker, es: seq<Event>, n: nat)
    requires b.state == Open && es != [] && Recovery(c, es, b.openedAt, n)
    ensures n < SuccessesToClose(c) ==>
              Run(c, b, es) == b.(state := HalfOpen, halfOpenSuccesses := n)
    ensures n == SuccessesToClose(c) && es[|es| - 1].Success? ==>
              Run(c, b, es) == INITIAL.(openedAt := b.openedAt)
  {
    var front, e := es[..|es| - 1], es[|es| - 1];
    if front == [] {
      assert Run(c, b, front) == b && Successes(front) == 0;
    } else {
      assert Recovery(c, front, b.openedAt, Successes(front));
      RecoveryClosesExactly(c, b, front, Successes(front));
    }
  }

  /** The counters never pass the thresholds, so 32 bits are enough for them. */
  lemma {:induction false} CountersFit(c: Config, es: seq<Event>)
    ensures Run(c, INITIAL, es).failureCount <= FailuresToOpen(c)
    ensures Run(c, INITIAL, es).halfOpenSuccesses < SuccessesToClose(c)
    ensures Run(c, INITIAL, es).state == Closed ==> Run(c, INITIAL, es).failureCount < FailuresToOpen(c)
  {
    if es != [] { CountersFit(c, es[..|es| - 1]); }
  }
}
