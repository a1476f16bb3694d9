/**
 The sliding-window rate limiter. The object keeps one pruned timestamp list per key, throws idle
 keys away in a periodic sweep and again when its table is full, and refuses new keys when the
 table stays full. The main results are that none of this is visible: per key, the answers are those
 of a sliding window of its own and, while windows do not grow, of a log that is never pruned.

 A run is a sequence of lock acquisitions. `Sweep` is the effect of a periodic cleanup; its clock
 reading is taken before the lock, so it may be stale. `Check` reads the clock inside the lock,
 once for the eviction pass and once for the decision. Times are nanoseconds.
 */
module RateLimiting {
  import opened Text

  const NANOS := 1_000_000_000
  const MAX_WINDOW_SECS := 366 * 24 * 60 * 60
  const MAX_QUOTA := 1_000_000
  const MAX_PARTITIONS := 100_000
  const CLEANUP_THRESHOLD := 300 * NANOS

  function Min(a: nat, b: nat): nat { if a < b then a else b }

  /** `duration_since`, which saturates at zero. */
  function Since(now: nat, t: nat): nat { if now < t then 0 else now - t }

  // ---------- One window ----------

  datatype SlidingWindow = SlidingWindow(timestamps: seq<nat>, window: nat)

  datatype Answer =
    | Refused(limit: nat, retryAfter: nat)
    | Allowed(remaining: nat, limit: nat, resetInstant: nat)
    | Blocked(limit: nat, resetInstant: nat, retryAfter: nat)

  /** The timestamps younger than `window`, in order. */
  function Live(ts: seq<nat>, window: nat, now: nat): (live: seq<nat>)
    ensures |live| <= |ts|
    ensures forall t | t in live :: t in ts && Since(now, t) < window
  {
    if ts == [] then []
    else if Since(now, ts[0]) < window then [ts[0]] + Live(ts[1..], window, now)
    else Live(ts[1..], window, now)
  }

  function Decide(live: seq<nat>, window: nat, quota: nat, now: nat): Answer {
    var resetInstant := (if live == [] then now else live[0]) + window;
    if |live| < quota then Allowed(quota - |live| - 1, quota, resetInstant)
    else
      var secs := Since(resetInstant, now) / NANOS;
      Blocked(quota, resetInstant, if secs < 1 then 1 else secs)
  }

  /** Prune, decide, and record the request if it is allowed. */
  function CheckAndRecord(w: SlidingWindow, quota: nat, now: nat): (SlidingWindow, Answer) {
    var live := Live(w.timestamps, w.window, now);
    var answer := Decide(live, w.window, quota, now);
    (w.(timestamps := if answer.Allowed? then live + [now] else live), answer)
  }

  // ---------- The table ----------

  type Table = map<string, SlidingWindow>

  datatype Event =
    | Sweep(now: nat)
    | Check(key: string, quota: nat, windowSecs: nat, evictNow: nat, now: nat)
  {
    function Window(): nat
      requires Check?
    { Min(windowSecs, MAX_WINDOW_SECS) * NANOS }

    function Quota(): nat
      requires Check?
    { Min(quota, MAX_QUOTA) }
  }

  predicate Recent(w: SlidingWindow, now: nat) {
    exists t | t in w.timestamps :: Since(now, t) < CLEANUP_THRESHOLD
  }

  function SweepTable(windows: Table, now: nat): (swept: Table)
    ensures swept.Keys <= windows.Keys
    ensures forall k | k in swept :: swept[k] == windows[k]
    ensures forall k | k in windows && k !in swept :: !Recent(windows[k], now)
  {
    map k | k in windows && Recent(windows[k], now) :: windows[k]
  }

  /** The table after the eviction pass that a new key triggers when the table is full. */
  function Evict(windows: Table, e: Event): Table
    requires e.Check?
  {
    if |windows| >= MAX_PARTITIONS && e.key !in windows then SweepTable(windows, e.evictNow) else windows
  }

  predicate IsRefused(windows: Table, e: Event)
    requires e.Check?
  {
    e.key !in windows && |windows| >= MAX_PARTITIONS && |Evict(windows, e)| >= MAX_PARTITIONS
  }

  function Entry(windows: Table, key: string): seq<nat> {
    if key in windows then windows[key].timestamps else []
  }

  function CheckTable(windows: Table, e: Event): (Table, Answer)
    requires e.Check?
  {
    var evicted := Evict(windows, e);
    if IsRefused(windows, e) then
      (evicted, Refused(e.Quota(), if Min(e.windowSecs, MAX_WINDOW_SECS) < 1 then 1 else Min(e.windowSecs, MAX_WINDOW_SECS)))
    else
      var (w, answer) := CheckAndRecord(SlidingWindow(Entry(evicted, e.key), e.Window()), e.Quota(), e.now);
      (evicted[e.key := w], answer)
  }

  function Step(windows: Table, e: Event): Table {
    if e.Sweep? then SweepTable(windows, e.now) else CheckTable(windows, e).0
  }

  function Run(es: seq<Event>): Table {
    if es == [] then map[] else Step(Run(es[..|es| - 1]), es[|es| - 1])
  }

  /** The limiter object; `history` records its lock acquisitions, so that everything proved of
      `Run` holds of it. */
  class RateLimiter {
    var windows: Table
    var lastCleanup: nat
    ghost var history: seq<Event>

    ghost predicate Valid()
      reads this
    { windows == Run(history) }

    constructor (now: nat)
      ensures Valid() && history == [] && lastCleanup == now
    {
      windows, lastCleanup, history := map[], now, [];
    }

    /** The periodic sweep. `lastFree` and `tableFree` are the outcomes of the two `try_write`s;
        nothing is swept unless a full threshold has passed since the last sweep. */
    method MaybeCleanup(now: nat, lastFree: bool, tableFree: bool)
      requires Valid()
      modifies this
      ensures Valid()
      ensures var due := Since(now, old(lastCleanup)) >= 300_000_000_000 && lastFree;
              && lastCleanup == (if due then now else old(lastCleanup))
              && history == old(history) + if due && tableFree then [Sweep(now)] else []
    {
      if Since(now, lastCleanup) < CLEANUP_THRESHOLD {
        return;
      }
      if lastFree {
        lastCleanup := now;
        if tableFree {
          windows := SweepTable(windows, now);
          history := history + [Sweep(now)];
        }
      }
    }

    /** The locked part of `check`. */
    method CheckLocked(key: string, quota: nat, windowSecs: nat, evictNow: nat, now: nat) returns (answer: Answer)
      requires Valid()
      modifies this`windows, this`history
      ensures Valid() && |windows| <= 100_000
      ensures var e := Check(key, quota, windowSecs, evictNow, now);
              history == old(history) + [e] && answer == CheckTable(Run(old(history)), e).1
    {
      ghost var e := Check(key, quota, windowSecs, evictNow, now);
      TableBounded(history + [e]);
      answer := CheckWindows(key, quota, windowSecs, evictNow, now);
      history := history + [e];
    }

    /** The whole of `check`: the periodic sweep, then the locked part. */
    method CheckLimit(key: string, quota: nat, windowSecs: nat, cleanupNow: nat, lastFree: bool, tableFree: bool,
                      evictNow: nat, now: nat)
      returns (answer: Answer)
      requires Valid()
      modifies this
      ensures Valid() && |windows| <= 100_000
      ensures var e := Check(key, quota, windowSecs, evictNow, now);
              var due := Since(cleanupNow, old(lastCleanup)) >= 300_000_000_000 && lastFree;
              var before := old(history) + if due && tableFree then [Sweep(cleanupNow)] else [];
              && lastCleanup == (if due then cleanupNow else old(lastCleanup))
              && history == before + [e] && answer == CheckTable(Run(before), e).1
    {
      MaybeCleanup(cleanupNow, lastFree, tableFree);
      answer := CheckLocked(key, quota, windowSecs, evictNow, now);
    }

    method CheckWindows(key: string, quota: nat, windowSecs: nat, evictNow: nat, now: nat) returns (answer: Answer)
      modifies this`windows
      ensures (windows, answer) == CheckTable(old(windows), Check(key, quota, windowSecs, evictNow, now))
    {
      ghost var e := Check(key, quota, windowSecs, evictNow, now);
      var secs := Min(windowSecs, MAX_WINDOW_SECS);
      var q := Min(quota, MAX_QUOTA);
      if |windows| >= MAX_PARTITIONS && key !in windows {
        windows := SweepTable(windows, evictNow);
        if |windows| >= MAX_PARTITIONS {
          return Refused(q, if secs < 1 then 1 else secs);
        }
      }
      ghost var evicted := windows;
      assert evicted == Evict(old(windows), e) && !IsRefused(old(windows), e);
      if key !in windows {
        windows := windows[key := SlidingWindow([], secs * NANOS)];
      }
      var w := windows[key].(window := secs * NANOS);
      var (w', a) := CheckAndRecord(w, q, now);
      windows := windows[key := w'];
      assert windows == evicted[key := w'];
      answer := a;
    }
  }

  lemma SweepShrinks(windows: Table, now: nat)
    ensures |SweepTable(windows, now)| <= |windows|
  {
    SubsetSize(SweepTable(windows, now).Keys, windows.Keys);
  }

  // ---------- The reference: a log that is never pruned ----------

  datatype Request = Request(quota: nat, window: nat, now: nat)

  /** The admission log and the answers for a sequence of requests on one key. */
  function Logged(rs: seq<Request>): (r: (seq<nat>, seq<Answer>))
    ensures |r.1| == |rs|
  {
    if rs == [] then ([], [])
    else
      var (log, answers) := Logged(rs[..|rs| - 1]);
      var a := AnswerFromLog(log, rs[|rs| - 1]);
      (if a.Allowed? then log + [rs[|rs| - 1].now] else log, answers + [a])
  }

  function AnswerFromLog(log: seq<nat>, r: Request): Answer {
    Decide(Live(log, r.window, r.now), r.window, r.quota, r.now)
  }

  // ---------- What a run of the limiter does to one key ----------

  function Clock(es: seq<Event>): nat {
    if es == [] then 0
    else
      var before, now := Clock(es[..|es| - 1]), es[|es| - 1].now;
      if now < before then before else now
  }

  /** Clock readings inside the lock never go back; sweeps may carry an old reading. */
  ghost predicate Timed(es: seq<Event>) {
    es == [] ||
    var front, e := es[..|es| - 1], es[|es| - 1];
    Timed(front) && (e.Check? ==> Clock(front) <= e.evictNow <= e.now)
  }

  predicate Decides(windows: Table, e: Event, key: string) {
    e.Check? && e.key == key && !IsRefused(windows, e)
  }

  /** The requests on `key` that got past the capacity check. */
  function Requests(es: seq<Event>, key: string): seq<Request> {
    if es == [] then []
    else
      var front, e := es[..|es| - 1], es[|es| - 1];
      Requests(front, key) + if Decides(Run(front), e, key) then [Request(e.Quota(), e.Window(), e.now)] else []
  }

  function Answers(es: seq<Event>, key: string): (answers: seq<Answer>)
    ensures |answers| == |Requests(es, key)|
  {
    if es == [] then []
    else
      var front, e := es[..|es| - 1], es[|es| - 1];
      Answers(front, key) + if Decides(Run(front), e, key) then [CheckTable(Run(front), e).1] else []
  }

  function NewlyAdmitted(windows: Table, e: Event, key: string): seq<nat> {
    if Decides(windows, e, key) && CheckTable(windows, e).1.Allowed? then [e.now] else []
  }

  function Admitted(es: seq<Event>, key: string): seq<nat> {
    if es == [] then []
    else
      var front, e := es[..|es| - 1], es[|es| - 1];
      Admitted(front, key) + NewlyAdmitted(Run(front), e, key)
  }

  ghost predicate ShortWindows(rs: seq<Request>) {
    forall i | 0 <= i < |rs| :: rs[i].window <= CLEANUP_THRESHOLD
  }

  /** From the second request on, no window is longer than an earlier one. The first request has
      nothing to prune, so its window does not matter. */
  ghost predicate Narrowing(rs: seq<Request>) {
    forall i, j | 1 <= i < j < |rs| :: rs[j].window <= rs[i].window
  }

  // ---------- Pruning is invisible ----------

  lemma {:induction false} LiveConcat(a: seq<nat>, b: seq<nat>, window: nat, now: nat)
    ensures Live(a + b, window, now) == Live(a, window, now) + Live(b, window, now)
  {
    if a == [] {
      assert a + b == b;
    } else {
      LiveConcat(a[1..], b, window, now);
      var c := a + b;
      assert c[0] == a[0] && c[1..] == a[1..] + b;
      Assoc([a[0]], Live(a[1..], window, now), Live(b, window, now));
    }
  }

  /** Pruning with an earlier clock and a longer window first makes no difference. */
  lemma {:induction false} LivePruned(ts: seq<nat>, wide: nat, early: nat, window: nat, now: nat)
    requires window <= wide && early <= now
    ensures Live(Live(ts, wide, early), window, now) == Live(ts, window, now)
  {
    if ts != [] {
      LivePruned(ts[1..], wide, early, window, now);
    }
  }

  lemma {:induction false} LiveNothing(ts: seq<nat>, window: nat, now: nat)
    requires forall t | t in ts :: Since(now, t) >= window
    ensures Live(ts, window, now) == []
  {
    if ts != [] { LiveNothing(ts[1..], window, now); }
  }

  lemma SweptEntry(windows: Table, swept: nat, key: string, window: nat, now: nat)
    requires window <= CLEANUP_THRESHOLD && swept <= now
    ensures Live(Entry(SweepTable(windows, swept), key), window, now) == Live(Entry(windows, key), window, now)
  {
    if key in windows && key !in SweepTable(windows, swept) {
      forall t | t in windows[key].timestamps ensures Since(now, t) >= window {
        assert Since(swept, t) >= CLEANUP_THRESHOLD;
      }
      LiveNothing(windows[key].timestamps, window, now);
    }
  }

  lemma CheckedEntry(windows: Table, e: Event, key: string, window: nat, now: nat)
    requires e.Check? && e.evictNow <= e.now <= now && window <= CLEANUP_THRESHOLD
    requires Decides(windows, e, key) ==> window <= e.Window()
    ensures Live(Entry(CheckTable(windows, e).0, key), window, now)
         == Live(Entry(windows, key), window, now) + Live(NewlyAdmitted(windows, e, key), window, now)
  {
    var evicted := Evict(windows, e);
    SweptEntry(windows, e.evictNow, key, window, now);
    if Decides(windows, e, key) {
      var ts := Entry(evicted, key);
      LivePruned(ts, e.Window(), e.now, window, now);
      LiveConcat(Live(ts, e.Window(), e.now), [e.now], window, now);
    }
  }

  lemma SteppedEntry(windows: Table, e: Event, key: string, window: nat, now: nat)
    requires e.now <= now && window <= CLEANUP_THRESHOLD && (e.Check? ==> e.evictNow <= e.now)
    requires Decides(windows, e, key) ==> window <= e.Window()
    ensures Live(Entry(Step(windows, e), key), window, now)
         == Live(Entry(windows, key), window, now) + Live(NewlyAdmitted(windows, e, key), window, now)
  {
    if e.Sweep? {
      SweptEntry(windows, e.now, key, window, now);
    } else {
      CheckedEntry(windows, e, key, window, now);
    }
  }

  /** The pruned list and the full log have the same live part, now and later. */
  lemma {:induction false} PrunedMatchesLog(es: seq<Event>, key: string, window: nat, now: nat)
    requires Timed(es) && Clock(es) <= now && window <= CLEANUP_THRESHOLD
    requires forall r | r in Requests(es, key) :: window <= r.window
    ensures Live(Entry(Run(es), key), window, now) == Live(Admitted(es, key), window, now)
  {
    if es != [] {
      var front, e := es[..|es| - 1], es[|es| - 1];
      PrunedMatchesLog(front, key, window, now);
      if Decides(Run(front), e, key) {
        assert Request(e.Quota(), e.Window(), e.now) in Requests(es, key);
      }
      SteppedEntry(Run(front), e, key, window, now);
      LiveConcat(Admitted(front, key), NewlyAdmitted(Run(front), e, key), window, now);
    }
  }

  lemma LoggedSnoc(rs: seq<Request>, r: Request)
    ensures var a := AnswerFromLog(Logged(rs).0, r);
            && Logged(rs + [r]).0 == (if a.Allowed? then Logged(rs).0 + [r.now] else Logged(rs).0)
            && Logged(rs + [r]).1 == Logged(rs).1 + [a]
  {
    assert (rs + [r])[..|rs|] == rs;
  }

  // ---------- The key's own window ----------

  /** One sliding window that gets all requests of a key and is never swept or evicted: its
      timestamps, and its answers. */
  function Alone(rs: seq<Request>): (r: (seq<nat>, seq<Answer>))
    ensures |r.1| == |rs|
  {
    if rs == [] then ([], [])
    else
      var (ts, answers) := Alone(rs[..|rs| - 1]);
      var last := rs[|rs| - 1];
      var (w, a) := CheckAndRecord(SlidingWindow(ts, last.window), last.quota, last.now);
      (w.timestamps, answers + [a])
  }

  /** For windows of at most 300 seconds and from `now` on, two lists show the same. */
  ghost predicate SameFrom(a: seq<nat>, b: seq<nat>, now: nat) {
    forall window: nat, later: nat | window <= CLEANUP_THRESHOLD && now <= later :: Live(a, window, later) == Live(b, window, later)
  }

  lemma UndecidedStep(windows: Table, e: Event, key: string, now: nat)
    requires !Decides(windows, e, key) && e.now <= now && (e.Check? ==> e.evictNow <= e.now)
    ensures SameFrom(Entry(Step(windows, e), key), Entry(windows, key), now)
  {
    forall window: nat, later: nat | window <= CLEANUP_THRESHOLD && now <= later
      ensures Live(Entry(Step(windows, e), key), window, later) == Live(Entry(windows, key), window, later)
    {
      SteppedEntry(windows, e, key, window, later);
      assert Live([], window, later) == [];
    }
  }

  /** A decided check leaves in the table what the key's own window would hold. */
  lemma DecidedStep(windows: Table, e: Event, key: string, ts: seq<nat>)
    requires Decides(windows, e, key) && e.evictNow <= e.now && e.Window() <= CLEANUP_THRESHOLD
    requires Live(Entry(windows, key), e.Window(), e.now) == Live(ts, e.Window(), e.now)
    ensures var (w, a) := CheckAndRecord(SlidingWindow(ts, e.Window()), e.Quota(), e.now);
            Entry(Step(windows, e), key) == w.timestamps && CheckTable(windows, e).1 == a
  {
    SweptEntry(windows, e.evictNow, key, e.Window(), e.now);
  }

  /** In every run, every key is answered as by a sliding window of its own: sweeps, evictions and
      other keys make no difference, for windows of at most 300 seconds that may change from call
      to call. */
  lemma {:induction false} LimiterIsWindow(es: seq<Event>, key: string)
    requires Timed(es) && ShortWindows(Requests(es, key))
    ensures Answers(es, key) == Alone(Requests(es, key)).1
    ensures SameFrom(Entry(Run(es), key), Alone(Requests(es, key)).0, Clock(es))
  {
    if es != [] {
      var front, e := es[..|es| - 1], es[|es| - 1];
      var rs := Requests(front, key);
      assert ShortWindows(rs) by {
        assert forall i | 0 <= i < |rs| :: rs[i] == Requests(es, key)[i];
      }
      LimiterIsWindow(front, key);
      if Decides(Run(front), e, key) {
        var r := Request(e.Quota(), e.Window(), e.now);
        assert Requests(es, key) == rs + [r] && (rs + [r])[|rs|] == r;
        DecidedStep(Run(front), e, key, Alone(rs).0);
      } else {
        assert Requests(es, key) == rs && Answers(es, key) == Answers(front, key);
        UndecidedStep(Run(front), e, key, Clock(es));
      }
    }
  }

  // ---------- The window and the log ----------

  /** A look at `now` with `window`, after the requests and no wider than any that could prune. */
  ghost predicate LooksAfter(rs: seq<Request>, window: nat, now: nat) {
    && (forall i | 0 <= i < |rs| :: rs[i].now <= now)
    && (forall i | 1 <= i < |rs| :: window <= rs[i].window)
  }

  ghost predicate Regular(rs: seq<Request>) { AscendingRequests(rs) && Narrowing(rs) }

  lemma RegularPrefix(rs: seq<Request>)
    requires rs != [] && Regular(rs)
    ensures var front, r := rs[..|rs| - 1], rs[|rs| - 1];
            Regular(front) && LooksAfter(front, r.window, r.now)
  {
  }

  /** Pruning by requests whose windows do not grow never drops what a later request can see. */
  lemma {:induction false} AloneShowsLog(rs: seq<Request>, window: nat, now: nat)
    requires Regular(rs) && LooksAfter(rs, window, now)
    ensures Live(Alone(rs).0, window, now) == Live(Logged(rs).0, window, now)
  {
    if rs != [] {
      var front, r := rs[..|rs| - 1], rs[|rs| - 1];
      RegularPrefix(rs);
      if front == [] {
        FirstAgrees(rs, r);
      } else {
        AloneShowsLog(front, window, now);
        AloneShowsLog(front, r.window, r.now);
        AloneStep(front, r, window, now);
        assert front + [r] == rs;
      }
    }
  }

  lemma FirstAgrees(rs: seq<Request>, r: Request)
    requires rs == [r]
    ensures Alone(rs) == Logged(rs)
  {
    LoggedSnoc([], r);
    assert [] + [r] == rs && Live([], r.window, r.now) == [];
  }

  lemma AloneStep(front: seq<Request>, r: Request, window: nat, now: nat)
    requires window <= r.window && r.now <= now
    requires Live(Alone(front).0, r.window, r.now) == Live(Logged(front).0, r.window, r.now)
    requires Live(Alone(front).0, window, now) == Live(Logged(front).0, window, now)
    ensures Live(Alone(front + [r]).0, window, now) == Live(Logged(front + [r]).0, window, now)
  {
    var kept := Alone(front).0;
    LoggedSnoc(front, r);
    LivePruned(kept, r.window, r.now, window, now);
    LiveConcat(Live(kept, r.window, r.now), [r.now], window, now);
    LiveConcat(Logged(front).0, [r.now], window, now);
  }

  /** For windows that do not grow, the key's own window answers as the log does. */
  lemma {:induction false} AloneIsLog(rs: seq<Request>)
    requires Regular(rs)
    ensures Alone(rs).1 == Logged(rs).1
  {
    if rs != [] {
      var front, r := rs[..|rs| - 1], rs[|rs| - 1];
      assert front + [r] == rs;
      RegularPrefix(rs);
      AloneIsLog(front);
      AloneShowsLog(front, r.window, r.now);
      LoggedSnoc(front, r);
    }
  }

  /** Where a window grows, this fails: an admission is pruned by the short window and missing from
      the long one. */
  lemma GrowthForgets(ws: seq<nat>, i: nat, j: nat) returns (rs: seq<Request>)
    requires 1 <= i < j < |ws| && ws[i] < ws[j]
    ensures HasWindows(rs, ws) && AscendingRequests(rs) && Alone(rs).1 != Logged(rs).1
  {
    rs := seq(|ws|, k requires 0 <= k < |ws| =>
      Request(if k == 0 || k == j then 1 else 0, ws[k], if k < i then 0 else ws[i]));
    LogHoldsFirst(rs, j);
    FirstIsPruned(rs, i, j);
    LoggedPrefix(rs, j);
    AlonePrefix(rs, j);
    assert Logged(rs).1[j].Blocked? && Alone(rs).1[j].Allowed?;
  }

  ghost predicate HasWindows(rs: seq<Request>, ws: seq<nat>) {
    |rs| == |ws| && forall k | 0 <= k < |ws| :: rs[k].window == ws[k]
  }

  lemma {:induction false} AlonePrefix(rs: seq<Request>, j: nat)
    requires j < |rs|
    ensures Alone(rs).1[j] == CheckAndRecord(SlidingWindow(Alone(rs[..j]).0, rs[j].window), rs[j].quota, rs[j].now).1
  {
    var front, r := rs[..|rs| - 1], rs[|rs| - 1];
    assert front + [r] == rs;
    if j < |front| {
      AlonePrefix(front, j);
      assert front[..j] == rs[..j];
    }
  }

  /** Only the first of the first `k` requests, made at time 0, asks for anything. */
  ghost predicate OnlyFirst(rs: seq<Request>, k: nat) {
    1 <= k <= |rs| && rs[0].quota == 1 && rs[0].now == 0 && forall m | 1 <= m < k :: rs[m].quota == 0
  }

  lemma {:induction false} LogHoldsFirst(rs: seq<Request>, k: nat)
    requires OnlyFirst(rs, k)
    ensures Logged(rs[..k]).0 == [0]
  {
    var front, r := rs[..k - 1], rs[k - 1];
    assert rs[..k] == front + [r];
    LoggedSnoc(front, r);
    if k == 1 {
      assert front == [] && Live([], r.window, r.now) == [];
    } else {
      LogHoldsFirst(rs, k - 1);
    }
  }

  /** The window holds the first admission until request `i`, whose window it has just left. */
  lemma {:induction false} FirstIsPruned(rs: seq<Request>, i: nat, k: nat)
    requires 1 <= i < |rs| && OnlyFirst(rs, k) && rs[i].now == rs[i].window
    ensures if k <= i then Alone(rs[..k]).0 == [0] || Alone(rs[..k]).0 == [] else Alone(rs[..k]).0 == []
  {
    var front, r := rs[..k - 1], rs[k - 1];
    assert rs[..k] == front + [r];
    if k == 1 {
      assert front == [] && Alone(front).0 == [];
    } else {
      FirstIsPruned(rs, i, k - 1);
    }
  }

  ghost predicate LogGuaranteed(ws: seq<nat>) {
    forall rs | HasWindows(rs, ws) && AscendingRequests(rs) :: Alone(rs).1 == Logged(rs).1
  }

  /** A key's answers are those of the log, whatever quotas and times its requests have, exactly
      when its windows do not grow after the first. */
  lemma LogGuaranteedIff(ws: seq<nat>)
    ensures LogGuaranteed(ws) <==> forall i, j | 1 <= i < j < |ws| :: ws[j] <= ws[i]
  {
    if i, j :| 1 <= i < j < |ws| && ws[i] < ws[j] {
      var rs := GrowthForgets(ws, i, j);
    } else {
      forall rs | HasWindows(rs, ws) && AscendingRequests(rs) ensures Alone(rs).1 == Logged(rs).1 {
        AloneIsLog(rs);
      }
    }
  }

  /** The times of the allowed requests. */
  function AllowedTimes(rs: seq<Request>, answers: seq<Answer>): seq<nat>
    requires |rs| == |answers|
  {
    if rs == [] then []
    else
      AllowedTimes(rs[..|rs| - 1], answers[..|rs| - 1])
      + if answers[|rs| - 1].Allowed? then [rs[|rs| - 1].now] else []
  }

  lemma {:induction false} LogIsAllowedTimes(rs: seq<Request>)
    ensures Logged(rs).0 == AllowedTimes(rs, Logged(rs).1)
  {
    if rs != [] {
      var front, r := rs[..|rs| - 1], rs[|rs| - 1];
      assert front + [r] == rs;
      LoggedSnoc(front, r);
      LogIsAllowedTimes(front);
      assert Logged(rs).1[..|front|] == Logged(front).1;
    }
  }

  lemma {:induction false} AdmittedIsAllowedTimes(es: seq<Event>, key: string)
    ensures Admitted(es, key) == AllowedTimes(Requests(es, key), Answers(es, key))
  {
    if es != [] {
      var front, e := es[..|es| - 1], es[|es| - 1];
      AdmittedIsAllowedTimes(front, key);
      var rs, answers := Requests(es, key), Answers(es, key);
      if Decides(Run(front), e, key) {
        assert rs[..|rs| - 1] == Requests(front, key) && answers[..|rs| - 1] == Answers(front, key);
      } else {
        assert rs == Requests(front, key) && answers == Answers(front, key);
      }
    }
  }

  /** In every run, every key is answered exactly as by a log that is never pruned, swept or
      evicted; only a full table is visible, as an explicit refusal. */
  lemma LimiterIsLog(es: seq<Event>, key: string)
    requires Timed(es) && ShortWindows(Requests(es, key)) && Narrowing(Requests(es, key))
    ensures Admitted(es, key) == Logged(Requests(es, key)).0
    ensures Answers(es, key) == Logged(Requests(es, key)).1
  {
    LimiterIsWindow(es, key);
    RequestsAscend(es, key);
    AloneIsLog(Requests(es, key));
    LogIsAllowedTimes(Requests(es, key));
    AdmittedIsAllowedTimes(es, key);
  }

  /** The table never holds more than the allowed number of keys. */
  lemma {:induction false} TableBounded(es: seq<Event>)
    ensures |Run(es)| <= 100_000
  {
    if es != [] {
      var front, e := es[..|es| - 1], es[|es| - 1];
      TableBounded(front);
      SweepShrinks(Run(front), if e.Check? then e.evictNow else e.now);
    }
  }

  // ---------- The quota, over every interval ----------

  function CountIn(ts: seq<nat>, lo: nat, hi: nat): nat {
    if ts == [] then 0
    else CountIn(ts[..|ts| - 1], lo, hi) + if lo <= ts[|ts| - 1] < hi then 1 else 0
  }

  lemma CountSnoc(ts: seq<nat>, t: nat, lo: nat, hi: nat)
    ensures CountIn(ts + [t], lo, hi) == CountIn(ts, lo, hi) + if lo <= t < hi then 1 else 0
  {
    assert (ts + [t])[..|ts|] == ts;
  }

  // ---------- Every answer, exactly ----------

  function FirstIn(ts: seq<nat>, lo: nat, hi: nat): Option<nat> {
    if ts == [] then None else if lo <= ts[0] < hi then Some(ts[0]) else FirstIn(ts[1..], lo, hi)
  }

  /** The first instant from which an admission still counts at `now`. */
  function Earliest(now: nat, width: nat): nat { if now < width then 0 else now - width + 1 }

  ghost predicate Past(ts: seq<nat>, now: nat) { forall i | 0 <= i < |ts| :: ts[i] <= now }

  lemma {:induction false} LiveIsCount(ts: seq<nat>, width: nat, now: nat)
    requires Past(ts, now)
    ensures |Live(ts, width, now)| == CountIn(ts, Earliest(now, width), now + 1)
  {
    if ts != [] {
      var front, t := ts[..|ts| - 1], ts[|ts| - 1];
      assert ts == front + [t];
      LiveIsCount(front, width, now);
      LiveConcat(front, [t], width, now);
    }
  }

  lemma {:induction false} LiveStartsFirst(ts: seq<nat>, width: nat, now: nat)
    requires Past(ts, now)
    ensures FirstIn(ts, Earliest(now, width), now + 1)
         == if Live(ts, width, now) == [] then None else Some(Live(ts, width, now)[0])
  {
    if ts != [] { LiveStartsFirst(ts[1..], width, now); }
  }

  lemma {:induction false} AdmittedBefore(es: seq<Event>, key: string)
    requires Timed(es)
    ensures Past(Admitted(es, key), Clock(es))
  {
    if es != [] { AdmittedBefore(es[..|es| - 1], key); }
  }

  /** The answer to a request at `now` with this log of earlier admissions. */
  function Expected(log: seq<nat>, limit: nat, width: nat, now: nat): Answer {
    var taken, oldest := CountIn(log, Earliest(now, width), now + 1), FirstIn(log, Earliest(now, width), now + 1);
    var reset := (if oldest.Some? then oldest.value else now) + width;
    if taken < limit then Allowed(limit - taken - 1, limit, reset)
    else Blocked(limit, reset, if reset < now + 2_000_000_000 then 1 else (reset - now) / 1_000_000_000)
  }

  lemma DecideIsExpected(log: seq<nat>, limit: nat, width: nat, now: nat)
    requires Past(log, now)
    ensures Decide(Live(log, width, now), width, limit, now) == Expected(log, limit, width, now)
  {
    LiveIsCount(log, width, now);
    LiveStartsFirst(log, width, now);
  }

  lemma EntryShowsLog(es: seq<Event>, e: Event, width: nat)
    requires e.Check? && Timed(es) && Clock(es) <= e.evictNow <= e.now && width <= CLEANUP_THRESHOLD
    requires forall r | r in Requests(es, e.key) :: width <= r.window
    ensures Live(Entry(Evict(Run(es), e), e.key), width, e.now) == Live(Admitted(es, e.key), width, e.now)
  {
    PrunedMatchesLog(es, e.key, width, e.now);
    SweptEntry(Run(es), e.evictNow, e.key, width, e.now);
  }

  /** In every run, for windows of at most 300 seconds: a check is allowed exactly when fewer requests
      than its quota were admitted within its window, quotas above a million counting as a million;
      the answer reports what is left, and the end of the window of the oldest of them. */
  lemma CheckIsExact(es: seq<Event>, e: Event)
    requires e.Check? && Timed(es + [e]) && e.windowSecs <= 300 && !IsRefused(Run(es), e)
    requires forall c | c in es && c.Check? && c.key == e.key :: e.windowSecs <= c.windowSecs
    ensures CheckTable(Run(es), e).1
         == Expected(Admitted(es, e.key), if e.quota < 1_000_000 then e.quota else 1_000_000,
              e.windowSecs * 1_000_000_000, e.now)
  {
    var width := e.windowSecs * 1_000_000_000;
    assert (es + [e])[..|es|] == es;
    AdmittedBefore(es, e.key);
    WiderRequests(es, e);
    EntryShowsLog(es, e, width);
    DecideIsExpected(Admitted(es, e.key), e.Quota(), width, e.now);
  }

  lemma {:induction false} WiderRequests(es: seq<Event>, e: Event)
    requires e.Check? && e.windowSecs <= 300
    requires forall c | c in es && c.Check? && c.key == e.key :: e.windowSecs <= c.windowSecs
    ensures forall r | r in Requests(es, e.key) :: e.windowSecs * 1_000_000_000 <= r.window
  {
    if es != [] { WiderRequests(es[..|es| - 1], e); }
  }

  /** The first check of a key, with a window of any length: windows count for at most 366 days. */
  lemma FirstCheckIsExact(es: seq<Event>, e: Event)
    requires e.Check? && !IsRefused(Run(es), e) && forall c | c in es && c.Check? :: c.key != e.key
    ensures CheckTable(Run(es), e).1
         == Expected([], if e.quota < 1_000_000 then e.quota else 1_000_000,
              (if e.windowSecs < 31_622_400 then e.windowSecs else 31_622_400) * 1_000_000_000, e.now)
  {
    OnlyCheckedKeys(es);
    assert e.key !in Run(es);
    assert Live([], e.Window(), e.now) == [];
  }

  /** Every key has a request recorded in the last 300 seconds. */
  ghost predicate AllRecent(windows: Table, now: nat) {
    forall k | k in windows :: exists t | t in windows[k].timestamps :: now < t + 300_000_000_000
  }

  lemma SweepKeepsAllIff(windows: Table, now: nat)
    ensures |SweepTable(windows, now)| <= |windows|
    ensures |SweepTable(windows, now)| == |windows| <==> AllRecent(windows, now)
  {
    var swept := SweepTable(windows, now);
    SubsetSize(swept.Keys, windows.Keys);
    if |swept| == |windows| {
      SameSize(swept.Keys, windows.Keys);
      forall k | k in windows ensures exists t | t in windows[k].timestamps :: now < t + 300_000_000_000 {
        assert k in swept.Keys && Recent(windows[k], now);
      }
    }
    if AllRecent(windows, now) {
      forall k | k in windows ensures Recent(windows[k], now) {}
      assert swept.Keys == windows.Keys;
    }
  }

  /** A check is refused exactly if it brings a new key to a table of 100000 keys, each with a request
      recorded in the last 300 seconds. */
  lemma RefusedIff(es: seq<Event>, e: Event)
    requires e.Check?
    ensures IsRefused(Run(es), e) <==> e.key !in Run(es) && |Run(es)| == 100_000 && AllRecent(Run(es), e.evictNow)
    ensures CheckTable(Run(es), e).1.Refused? <==> IsRefused(Run(es), e)
    ensures var secs := if e.windowSecs < 31_622_400 then e.windowSecs else 31_622_400;
            IsRefused(Run(es), e) ==>
              CheckTable(Run(es), e).1 == Refused(if e.quota < 1_000_000 then e.quota else 1_000_000, if secs < 1 then 1 else secs)
  {
    TableBounded(es);
    SweepKeepsAllIff(Run(es), e.evictNow);
  }

  lemma SameSize<T>(a: set<T>, b: set<T>)
    requires a <= b && |a| == |b|
    ensures a == b
  {
    assert |b| == |a| + |b - a| by { assert a + (b - a) == b; }
    assert b - a == {};
  }

  /** Everything admitted in an interval of window length is still live at any time in it. */
  lemma {:induction false} IntervalIsLive(ts: seq<nat>, lo: nat, window: nat, now: nat)
    requires lo <= now < lo + window
    ensures CountIn(ts, lo, lo + window) <= |Live(ts, window, now)|
  {
    if ts != [] {
      var front, t := ts[..|ts| - 1], ts[|ts| - 1];
      IntervalIsLive(front, lo, window, now);
      assert ts == front + [t];
      LiveConcat(front, [t], window, now);
    }
  }

  lemma {:induction false} LogRespectsQuota(rs: seq<Request>, window: nat, quota: nat, lo: nat)
    requires forall r | r in rs :: r.window == window && r.quota <= quota
    ensures CountIn(Logged(rs).0, lo, lo + window) <= quota
  {
    if rs != [] {
      var front, r := rs[..|rs| - 1], rs[|rs| - 1];
      LogRespectsQuota(front, window, quota, lo);
      var log := Logged(front).0;
      assert front + [r] == rs;
      LoggedSnoc(front, r);
      CountSnoc(log, r.now, lo, lo + window);
      if lo <= r.now < lo + window {
        IntervalIsLive(log, lo, window, r.now);
      }
    }
  }

  /** Requests on one key that always carry the same window and at most the given quota. */
  ghost predicate FixedLimits(rs: seq<Request>, window: nat, quota: nat) {
    forall r | r in rs :: r.window == window && r.quota <= quota
  }

  /** In every run, a key with a fixed window of at most 300 seconds is admitted at most `quota`
      times in any interval of window length, whatever is swept or evicted meanwhile. */
  lemma QuotaRespected(es: seq<Event>, key: string, window: nat, quota: nat, lo: nat)
    requires Timed(es) && window <= CLEANUP_THRESHOLD && FixedLimits(Requests(es, key), window, quota)
    ensures CountIn(Admitted(es, key), lo, lo + window) <= quota
  {
    LimiterIsLog(es, key);
    LogRespectsQuota(Requests(es, key), window, quota, lo);
  }

  ghost predicate WithinQuota(ts: seq<nat>, window: nat, quota: nat, lo: nat) {
    CountIn(ts, lo, lo + window) <= quota
  }

  function WindowNanos(windowSecs: nat): nat { Min(windowSecs, MAX_WINDOW_SECS) * NANOS }

  /** The guarantee a caller of `check` with this window would want. */
  ghost predicate QuotaGuaranteed(windowSecs: nat) {
    forall es: seq<Event>, key: string, quota: nat, lo: nat
      | Timed(es) && FixedLimits(Requests(es, key), WindowNanos(windowSecs), quota) ::
      WithinQuota(Admitted(es, key), WindowNanos(windowSecs), quota, lo)
  }

  /** A request with quota 1 on a key that is new to a table with room is admitted. */
  lemma FreshKeyAdmitted(windows: Table, e: Event)
    requires |windows| < MAX_PARTITIONS && e.Check? && e.key !in windows && e.quota == 1
    ensures !IsRefused(windows, e) && NewlyAdmitted(windows, e, e.key) == [e.now]
    ensures Step(windows, e) == windows[e.key := SlidingWindow([e.now], e.Window())]
  {
    assert Entry(windows, e.key) == [];
    assert Live([], e.Window(), e.now) == [];
    assert [] + [e.now] == [e.now];
  }

  lemma SweptAway(windows: Table, key: string, window: nat)
    requires windows == map[key := SlidingWindow([0], window)]
    ensures Step(windows, Sweep(CLEANUP_THRESHOLD)) == map[]
  {
    assert Since(CLEANUP_THRESHOLD, 0) == CLEANUP_THRESHOLD;
    assert !Recent(windows[key], CLEANUP_THRESHOLD);
  }

  lemma FirstAdmission(key: string, windowSecs: nat) returns (es: seq<Event>)
    ensures Run(es) == map[key := SlidingWindow([0], WindowNanos(windowSecs))] && Admitted(es, key) == [0]
    ensures Timed(es) && Clock(es) == 0 && FixedLimits(Requests(es, key), WindowNanos(windowSecs), 1)
  {
    var a := Check(key, 1, windowSecs, 0, 0);
    es := [] + [a];
    FreshKeyAdmitted(map[], a);
  }

  lemma ThenSwept(key: string, windowSecs: nat) returns (es: seq<Event>)
    ensures Run(es) == map[] && Admitted(es, key) == [0]
    ensures Timed(es) && Clock(es) == CLEANUP_THRESHOLD && FixedLimits(Requests(es, key), WindowNanos(windowSecs), 1)
  {
    var once := FirstAdmission(key, windowSecs);
    var b := Sweep(CLEANUP_THRESHOLD);
    es := once + [b];
    SweptAway(Run(once), key, WindowNanos(windowSecs));
  }

  lemma LeakingRun(key: string, windowSecs: nat) returns (es: seq<Event>)
    ensures Timed(es) && Admitted(es, key) == [0, CLEANUP_THRESHOLD]
    ensures FixedLimits(Requests(es, key), WindowNanos(windowSecs), 1)
  {
    var swept := ThenSwept(key, windowSecs);
    var c := Check(key, 1, windowSecs, CLEANUP_THRESHOLD, CLEANUP_THRESHOLD);
    es := swept + [c];
    FreshKeyAdmitted(Run(swept), c);
  }

  /** A window longer than the cleanup threshold is forgotten by a sweep and admits twice. */
  lemma LongWindowLeaks(windowSecs: nat, key: string) returns (es: seq<Event>)
    requires windowSecs > 300
    ensures Timed(es) && FixedLimits(Requests(es, key), WindowNanos(windowSecs), 1)
    ensures !WithinQuota(Admitted(es, key), WindowNanos(windowSecs), 1, 0)
  {
    es := LeakingRun(key, windowSecs);
    var window := WindowNanos(windowSecs);
    CountSnoc([], 0, 0, window);
    CountSnoc([0], CLEANUP_THRESHOLD, 0, window);
    assert [] + [0] == [0] && [0] + [CLEANUP_THRESHOLD] == [0, CLEANUP_THRESHOLD];
  }

  /** The same on the object: two calls 300 seconds apart, whatever the window, are both admitted
      under a quota of 1. */
  method AdmitsTwice(key: string, windowSecs: nat) returns (first: Answer, second: Answer)
    ensures first.Allowed? && second.Allowed? && first.limit == second.limit == 1
    ensures windowSecs > 300 ==> CLEANUP_THRESHOLD < WindowNanos(windowSecs)
  {
    ghost var a := Check(key, 1, windowSecs, 0, 0);
    ghost var b := Sweep(CLEANUP_THRESHOLD);
    ghost var c := Check(key, 1, windowSecs, CLEANUP_THRESHOLD, CLEANUP_THRESHOLD);
    var limiter := new RateLimiter(0);
    FreshKeyAdmitted(limiter.windows, a);
    first := limiter.CheckLimit(key, 1, windowSecs, 0, true, true, 0, 0);
    SweptAway(limiter.windows, key, WindowNanos(windowSecs));
    FreshKeyAdmitted(Run(limiter.history + [b]), c);
    second := limiter.CheckLimit(key, 1, windowSecs, CLEANUP_THRESHOLD, true, true, CLEANUP_THRESHOLD, CLEANUP_THRESHOLD);
  }

  /** The quota holds in every run exactly for windows of at most 300 seconds. */
  lemma QuotaGuaranteedIff(windowSecs: nat)
    ensures QuotaGuaranteed(windowSecs) <==> windowSecs <= 300
  {
    if windowSecs > 300 {
      var es := LongWindowLeaks(windowSecs, "k");
    } else {
      var window := WindowNanos(windowSecs);
      forall es: seq<Event>, key: string, quota: nat, lo: nat
        | Timed(es) && FixedLimits(Requests(es, key), window, quota)
        ensures WithinQuota(Admitted(es, key), window, quota, lo)
      {
        QuotaRespected(es, key, window, quota, lo);
      }
    }
  }

  // ---------- Readmission ----------

  ghost predicate Ascending(ts: seq<nat>) { forall i, j | 0 <= i < j < |ts| :: ts[i] <= ts[j] }

  ghost predicate AscendingRequests(rs: seq<Request>) {
    forall i, j | 0 <= i < j < |rs| :: rs[i].now <= rs[j].now
  }

  lemma {:induction false} RequestsAscend(es: seq<Event>, key: string)
    requires Timed(es)
    ensures AscendingRequests(Requests(es, key))
    ensures forall r | r in Requests(es, key) :: r.now <= Clock(es)
  {
    if es != [] { RequestsAscend(es[..|es| - 1], key); }
  }

  lemma AscendingSnoc(ts: seq<nat>, t: nat)
    requires Ascending(ts) && forall x | x in ts :: x <= t
    ensures Ascending(ts + [t])
  {
    forall i | 0 <= i < |ts| ensures ts[i] <= t {
      assert ts[i] in ts;
    }
  }

  lemma {:induction false} LogAscends(rs: seq<Request>)
    requires AscendingRequests(rs)
    ensures Ascending(Logged(rs).0)
    ensures rs != [] ==> forall t | t in Logged(rs).0 :: t <= rs[|rs| - 1].now
  {
    if rs != [] {
      var front, r := rs[..|rs| - 1], rs[|rs| - 1];
      LogAscends(front);
      assert front + [r] == rs;
      assert front != [] ==> front[|front| - 1].now <= r.now;
      LoggedSnoc(front, r);
      AscendingSnoc(Logged(front).0, r.now);
    }
  }

  lemma {:induction false} LiveAscends(ts: seq<nat>, window: nat, now: nat)
    requires Ascending(ts)
    ensures Ascending(Live(ts, window, now))
  {
    if ts != [] {
      LiveAscends(ts[1..], window, now);
      var rest := Live(ts[1..], window, now);
      forall i | 0 <= i < |rest| ensures ts[0] <= rest[i] {
        assert rest[i] in ts[1..];
      }
    }
  }

  /** Until the oldest live admission expires, nothing expires. */
  lemma {:induction false} LiveUntilReset(live: seq<nat>, window: nat, now: nat)
    requires window > 0 && forall i | 0 <= i < |live| :: now < live[i] + window
    ensures Live(live, window, now) == live
  {
    if live != [] { LiveUntilReset(live[1..], window, now); }
  }

  /** With a fixed quota no more than `quota` admissions are ever live. */
  lemma {:induction false} LiveWithinQuota(rs: seq<Request>, window: nat, quota: nat, now: nat)
    requires forall r | r in rs :: r.window == window && r.quota == quota && r.now <= now
    requires AscendingRequests(rs)
    ensures |Live(Logged(rs).0, window, now)| <= quota
  {
    if rs != [] {
      var front, r := rs[..|rs| - 1], rs[|rs| - 1];
      assert front + [r] == rs;
      LoggedSnoc(front, r);
      var log := Logged(front).0;
      LiveWithinQuota(front, window, quota, now);
      if AnswerFromLog(log, r).Allowed? {
        LivePruned(log, window, r.now, window, now);
        LiveConcat(log, [r.now], window, now);
      }
    }
  }

  lemma {:induction false} LoggedPrefix(rs: seq<Request>, j: nat)
    requires j < |rs|
    ensures Logged(rs).1[j] == AnswerFromLog(Logged(rs[..j]).0, rs[j])
  {
    var front, r := rs[..|rs| - 1], rs[|rs| - 1];
    assert front + [r] == rs;
    LoggedSnoc(front, r);
    if j < |front| {
      LoggedPrefix(front, j);
      assert front[..j] == rs[..j];
    }
  }

  /** Between a block and its reset instant, the same log blocks again. */
  lemma BlockedUntilReset(log: seq<nat>, r: Request, now: nat)
    requires Ascending(log) && r.quota > 0 && AnswerFromLog(log, r).Blocked?
    requires r.now <= now < AnswerFromLog(log, r).resetInstant
    ensures AnswerFromLog(log, r.(now := now)).Blocked?
  {
    var live := Live(log, r.window, r.now);
    LiveAscends(log, r.window, r.now);
    assert live[0] in live;
    LiveUntilReset(live, r.window, now);
    LivePruned(log, r.window, r.now, r.window, now);
  }

  /** From the reset instant on, the oldest admission no longer counts. */
  lemma AdmittedAtReset(log: seq<nat>, r: Request, now: nat)
    requires r.quota > 0 && |Live(log, r.window, r.now)| <= r.quota && AnswerFromLog(log, r).Blocked?
    requires now >= AnswerFromLog(log, r).resetInstant && now >= r.now
    ensures AnswerFromLog(log, r.(now := now)).Allowed?
  {
    var live := Live(log, r.window, r.now);
    LivePruned(log, r.window, r.now, r.window, now);
    assert Live(live, r.window, now) == Live(live[1..], r.window, now);
  }

  lemma {:induction false} LogStandsStill(rs: seq<Request>, r: Request, later: seq<Request>, log: seq<nat>)
    requires Ascending(log) && r.quota > 0 && log == Logged(rs).0 && AnswerFromLog(log, r).Blocked?
    requires forall m | m in later ::
               m == r.(now := m.now) && r.now <= m.now < AnswerFromLog(log, r).resetInstant
    ensures Logged(rs + [r] + later).0 == log
  {
    if later == [] {
      assert rs + [r] + later == rs + [r];
    } else {
      var front, m := later[..|later| - 1], later[|later| - 1];
      var before := rs + [r] + front;
      LogStandsStill(rs, r, front, log);
      BlockedUntilReset(log, r, m.now);
      assert rs + [r] + later == before + [m];
    }
  }

  lemma {:induction false} LogUpTo(rs: seq<Request>, window: nat, quota: nat, i: nat)
    requires i < |rs| && AscendingRequests(rs)
    requires forall r | r in rs :: r.window == window && r.quota == quota
    ensures Ascending(Logged(rs[..i]).0)
    ensures |Live(Logged(rs[..i]).0, window, rs[i].now)| <= quota
  {
    LogAscends(rs[..i]);
    forall r | r in rs[..i] ensures r.now <= rs[i].now {
      assert exists k :: 0 <= k < i && rs[k] == r;
    }
    LiveWithinQuota(rs[..i], window, quota, rs[i].now);
  }

  lemma {:induction false} LogAtReset(rs: seq<Request>, window: nat, quota: nat, i: nat, j: nat, log: seq<nat>, reset: nat)
    requires i < j < |rs| && AscendingRequests(rs) && quota > 0
    requires forall r | r in rs :: r.window == window && r.quota == quota
    requires log == Logged(rs[..i]).0 && AnswerFromLog(log, rs[i]).Blocked?
    requires reset == AnswerFromLog(log, rs[i]).resetInstant
    requires forall m | i < m < j :: rs[m].now < reset
    ensures Ascending(log) && Logged(rs[..j]).0 == log
  {
    LogUpTo(rs, window, quota, i);
    var later := rs[i + 1..j];
    forall m | m in later ensures m == rs[i].(now := m.now) && rs[i].now <= m.now < reset {
      var k :| i < k < j && rs[k] == m;
    }
    assert rs[..j] == rs[..i] + [rs[i]] + later;
    LogStandsStill(rs[..i], rs[i], later, log);
  }

  lemma {:induction false} LogResetIsExact(rs: seq<Request>, window: nat, quota: nat, i: nat, j: nat)
    requires i < j < |rs| && AscendingRequests(rs) && quota > 0
    requires forall r | r in rs :: r.window == window && r.quota == quota
    requires Logged(rs).1[i].Blocked?
    requires forall m | i < m < j :: rs[m].now < Logged(rs).1[i].resetInstant
    ensures rs[j].now < Logged(rs).1[i].resetInstant ==> Logged(rs).1[j].Blocked?
    ensures rs[j].now >= Logged(rs).1[i].resetInstant ==> Logged(rs).1[j].Allowed?
  {
    var log, reset := Logged(rs[..i]).0, Logged(rs).1[i].resetInstant;
    LoggedPrefix(rs, i);
    LoggedPrefix(rs, j);
    LogUpTo(rs, window, quota, i);
    LogAtReset(rs, window, quota, i, j, log, reset);
    assert rs[j] == rs[i].(now := rs[j].now);
    if rs[j].now < reset {
      BlockedUntilReset(log, rs[i], rs[j].now);
    } else {
      AdmittedAtReset(log, rs[i], rs[j].now);
    }
  }

  /** `reset_instant` is exact: after a block, later requests stay blocked before it and the first
      one at or after it is admitted. */
  lemma {:induction false} ResetIsExact(es: seq<Event>, key: string, window: nat, quota: nat, i: nat, j: nat)
    requires Timed(es) && window <= CLEANUP_THRESHOLD && quota > 0
    requires forall r | r in Requests(es, key) :: r.window == window && r.quota == quota
    requires i < j < |Requests(es, key)|
    requires Answers(es, key)[i].Blocked?
    requires forall m | i < m < j :: Requests(es, key)[m].now < Answers(es, key)[i].resetInstant
    ensures Requests(es, key)[j].now < Answers(es, key)[i].resetInstant ==> Answers(es, key)[j].Blocked?
    ensures Requests(es, key)[j].now >= Answers(es, key)[i].resetInstant ==> Answers(es, key)[j].Allowed?
  {
    LimiterIsLog(es, key);
    RequestsAscend(es, key);
    LogResetIsExact(Requests(es, key), window, quota, i, j);
  }

  // ---------- Keys do not influence each other ----------

  /** The checks made on one key, whatever became of them. */
  function ChecksOn(es: seq<Event>, key: string): seq<Event> {
    if es == [] then []
    else
      var front, e := es[..|es| - 1], es[|es| - 1];
      ChecksOn(front, key) + if e.Check? && e.key == key then [e] else []
  }

  /** No check on `key` met a full table. */
  ghost predicate NeverRefused(es: seq<Event>, key: string) {
    es == [] ||
    var front, e := es[..|es| - 1], es[|es| - 1];
    NeverRefused(front, key) && (e.Check? && e.key == key ==> Decides(Run(front), e, key))
  }

  function AsRequests(checks: seq<Event>): seq<Request>
    requires forall e | e in checks :: e.Check?
  {
    if checks == [] then []
    else
      var e := checks[|checks| - 1];
      AsRequests(checks[..|checks| - 1]) + [Request(e.Quota(), e.Window(), e.now)]
  }

  lemma {:induction false} RequestsAreChecks(es: seq<Event>, key: string)
    requires NeverRefused(es, key)
    ensures forall e | e in ChecksOn(es, key) :: e.Check?
    ensures Requests(es, key) == AsRequests(ChecksOn(es, key))
  {
    if es != [] {
      var front, e := es[..|es| - 1], es[|es| - 1];
      RequestsAreChecks(front, key);
      if e.Check? && e.key == key {
        var cs := ChecksOn(es, key);
        assert cs == ChecksOn(front, key) + [e] && cs[..|cs| - 1] == ChecksOn(front, key);
      } else {
        assert ChecksOn(es, key) == ChecksOn(front, key);
      }
    }
  }

  /** While the table has room, the answers on a key depend on the checks made on that key alone:
      two runs that agree on them agree on the answers, whatever else they contain. */
  lemma KeysAreIndependent(xs: seq<Event>, ys: seq<Event>, key: string)
    requires Timed(xs) && Timed(ys) && NeverRefused(xs, key) && NeverRefused(ys, key)
    requires ChecksOn(xs, key) == ChecksOn(ys, key) && ShortWindows(Requests(xs, key))
    ensures Answers(xs, key) == Answers(ys, key)
  {
    RequestsAreChecks(xs, key);
    RequestsAreChecks(ys, key);
    LimiterIsWindow(xs, key);
    LimiterIsWindow(ys, key);
  }

  // ---------- Refusals ----------

  /** The answers to all checks on one key, refusals included. */
  function Outcomes(es: seq<Event>, key: string): seq<Answer> {
    if es == [] then []
    else
      var front, e := es[..|es| - 1], es[|es| - 1];
      Outcomes(front, key) + if e.Check? && e.key == key then [CheckTable(Run(front), e).1] else []
  }

  lemma {:induction false} RefusalsShow(es: seq<Event>, key: string)
    ensures NeverRefused(es, key) <==> forall a | a in Outcomes(es, key) :: !a.Refused?
    ensures NeverRefused(es, key) ==> Outcomes(es, key) == Answers(es, key)
  {
    if es != [] {
      var front, e := es[..|es| - 1], es[|es| - 1];
      RefusalsShow(front, key);
      if e.Check? && e.key == key {
        var a := CheckTable(Run(front), e).1;
        assert a.Refused? <==> IsRefused(Run(front), e);
        assert Outcomes(es, key) == Outcomes(front, key) + [a];
      }
    }
  }

  /** Two runs with the same checks on a key, the second never refusing it: the outcomes agree
      exactly when the first never refuses it either. */
  lemma OutcomesAgreeIff(xs: seq<Event>, ys: seq<Event>, key: string)
    requires Timed(xs) && Timed(ys) && NeverRefused(ys, key)
    requires ChecksOn(xs, key) == ChecksOn(ys, key) && ShortWindows(Requests(ys, key))
    ensures Outcomes(xs, key) == Outcomes(ys, key) <==> NeverRefused(xs, key)
  {
    RefusalsShow(xs, key);
    RefusalsShow(ys, key);
    if NeverRefused(xs, key) {
      KeysAreIndependent(ys, xs, key);
    }
  }

  // ---------- Room enough ----------

  /** The keys a run mentions. */
  function KeysChecked(es: seq<Event>): set<string> { set e | e in es && e.Check? :: e.key }

  lemma {:induction false} OnlyCheckedKeys(es: seq<Event>)
    ensures Run(es).Keys <= KeysChecked(es)
  {
    if es != [] {
      var front, e := es[..|es| - 1], es[|es| - 1];
      OnlyCheckedKeys(front);
      assert KeysChecked(front) <= KeysChecked(es);
      assert e in es;
    }
  }

  lemma NewKeyFits(windows: Table, e: Event, keys: set<string>)
    requires e.Check? && windows.Keys <= keys && e.key in keys && |keys| <= MAX_PARTITIONS
    ensures !IsRefused(windows, e)
  {
    if e.key !in windows {
      SubsetSize(windows.Keys + {e.key}, keys);
    }
  }

  /** A run that mentions no more keys than the table holds refuses none of them. */
  lemma {:induction false} FewKeysNeverRefused(es: seq<Event>, key: string)
    requires |KeysChecked(es)| <= 100_000
    ensures NeverRefused(es, key)
  {
    if es != [] {
      var front, e := es[..|es| - 1], es[|es| - 1];
      assert KeysChecked(front) <= KeysChecked(es);
      SubsetSize(KeysChecked(front), KeysChecked(es));
      FewKeysNeverRefused(front, key);
      if e.Check? {
        assert e in es;
        OnlyCheckedKeys(front);
        NewKeyFits(Run(front), e, KeysChecked(es));
      }
    }
  }
}
