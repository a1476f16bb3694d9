/**
 The TTL response cache. Expired entries linger until a sweep, a lookup ignores them, and a full
 table evicts the entry closest to expiry. The main result is an exact description of what a
 lookup sees: the latest unexpired `set` of an unbounded TTL map, except for keys lost to eviction,
 and evictions happen only with 10,000 live entries.

 A run is a sequence of lock acquisitions. `Get` reads the clock inside the lock; `Set` and `Sweep`
 read it before taking the lock, so their reading may be stale. `Set` carries the key that
 `min_by_key` would pick, since hash-map iteration order decides among ties.
 */
module ResponseCaching {
  import opened Text

  const NANOS := 1_000_000_000
  const MAX_TTL_SECS := 366 * 24 * 60 * 60
  const MAX_CACHE_ENTRIES := 10_000
  const CLEANUP_INTERVAL := 60 * NANOS

  datatype CacheEntry = CacheEntry(status: nat, headers: map<string, string>, body: Option<seq<nat>>)

  datatype InternalEntry = InternalEntry(entry: CacheEntry, expiresAt: nat)

  type Entries = map<string, InternalEntry>

  datatype Event =
    | Get(key: string, now: nat)
    | Set(key: string, entry: CacheEntry, ttlSecs: nat, now: nat, victim: string)
    | Invalidate(key: string)
    | Clear
    | Sweep(now: nat)

  // ---------- The table ----------

  function Live(entries: Entries, now: nat): (live: Entries)
    ensures live.Keys <= entries.Keys
    ensures forall k | k in live :: live[k] == entries[k]
    ensures forall k | k in entries :: k in live <==> entries[k].expiresAt > now
  {
    map k | k in entries && entries[k].expiresAt > now :: entries[k]
  }

  function Lookup(entries: Entries, key: string, now: nat): Option<CacheEntry> {
    if key in entries && entries[key].expiresAt > now then Some(entries[key].entry) else None
  }

  function Stored(e: Event): InternalEntry
    requires e.Set?
  {
    var ttl := if e.ttlSecs < MAX_TTL_SECS then e.ttlSecs else MAX_TTL_SECS;
    InternalEntry(e.entry, e.now + ttl * NANOS)
  }

  predicate IsFull(entries: Entries, key: string) { |entries| >= MAX_CACHE_ENTRIES && key !in entries }

  /** Does this `set` have to evict a live entry? */
  predicate Evicts(entries: Entries, e: Event) {
    e.Set? && IsFull(entries, e.key) && |Live(entries, e.now)| >= MAX_CACHE_ENTRIES
  }

  function MakeRoom(entries: Entries, e: Event): Entries
    requires e.Set?
  {
    if Evicts(entries, e) then Live(entries, e.now) - {e.victim}
    else if IsFull(entries, e.key) then Live(entries, e.now)
    else entries
  }

  function Step(entries: Entries, e: Event): Entries {
    match e
    case Get(_, _) => entries
    case Set(key, _, _, _, _) => MakeRoom(entries, e)[key := Stored(e)]
    case Invalidate(key) => entries - {key}
    case Clear => map[]
    case Sweep(now) => Live(entries, now)
  }

  ghost predicate IsMinimal(entries: Entries, victim: string) {
    victim in entries && forall k | k in entries :: entries[victim].expiresAt <= entries[k].expiresAt
  }

  /** An evicting `set` names a victim with minimal expiry. */
  ghost predicate Legal(entries: Entries, e: Event) {
    Evicts(entries, e) ==> IsMinimal(Live(entries, e.now), e.victim)
  }

  lemma LiveShrinks(entries: Entries, now: nat)
    ensures |Live(entries, now)| <= |entries|
    ensures |Live(entries, now)| == |entries| ==> Live(entries, now) == entries
  {
    var a, b := Live(entries, now).Keys, entries.Keys;
    assert |b| == |a| + |b - a| by { assert a + (b - a) == b; }
    if |a| == |b| {
      assert b - a == {};
      assert forall k | k in b :: k in a || k in b - a;
    }
  }

  lemma {:induction false} MinimalExists(entries: Entries) returns (victim: string)
    requires |entries| > 0
    ensures IsMinimal(entries, victim)
    decreases |entries|
  {
    var k :| k in entries;
    var rest := entries - {k};
    assert entries.Keys == rest.Keys + {k};
    if rest.Keys == {} {
      victim := k;
    } else {
      assert |rest.Keys| > 0;
      var v := MinimalExists(rest);
      victim := if entries[k].expiresAt < entries[v].expiresAt then k else v;
    }
  }

  lemma RunSnoc(es: seq<Event>, e: Event)
    ensures Run(es + [e]) == Step(Run(es), e)
    ensures LegalRun(es + [e]) <==> LegalRun(es) && Legal(Run(es), e)
  {
    assert (es + [e])[..|es|] == es;
  }

  /** The cache object; `history` records its lock acquisitions, so that everything proved of `Run`
      holds of it. */
  class ResponseCache {
    var entries: Entries
    var lastCleanup: nat
    ghost var history: seq<Event>

    ghost predicate Valid()
      reads this
    { LegalRun(history) && entries == Run(history) }

    constructor (now: nat)
      ensures Valid() && history == [] && lastCleanup == now
    {
      entries, lastCleanup, history := map[], now, [];
    }

    /** The periodic sweep; `lastFree` and `tableFree` are the outcomes of the two `try_write`s. */
    method MaybeCleanup(now: nat, lastFree: bool, tableFree: bool)
      requires Valid()
      modifies this
      ensures Valid()
      ensures var due := now - old(lastCleanup) >= 60_000_000_000 && lastFree;
              && lastCleanup == (if due then now else old(lastCleanup))
              && history == old(history) + if due && tableFree then [Sweep(now)] else []
    {
      if now - lastCleanup < CLEANUP_INTERVAL {
        return;
      }
      if lastFree {
        lastCleanup := now;
        if tableFree {
          entries := Live(entries, now);
          history := history + [Sweep(now)];
        }
      }
    }

    /** The locked part of `get`. */
    method GetLocked(key: string, now: nat) returns (result: Option<CacheEntry>)
      requires Valid()
      modifies this`history
      ensures Valid() && history == old(history) + [Get(key, now)]
      ensures result == Lookup(Run(old(history)), key, now)
    {
      history := history + [Get(key, now)];
      if key in entries {
        var internal := entries[key];
        if internal.expiresAt > now {
          return Some(internal.entry);
        }
      }
      return None;
    }

    /** `victim` is the key evicted to make room, if one had to be. */
    method Set(key: string, entry: CacheEntry, ttlSecs: nat, now: nat) returns (ghost victim: string)
      requires Valid()
      modifies this`entries, this`history
      ensures Valid() && |entries| <= 10_000
      ensures history == old(history) + [Event.Set(key, entry, ttlSecs, now, victim)]
    {
      var ttl := if ttlSecs < MAX_TTL_SECS then ttlSecs else MAX_TTL_SECS;
      var internal := InternalEntry(entry, now + ttl * NANOS);
      victim := MakeRoomFor(key, entry, ttlSecs, now);
      entries := entries[key := internal];
      ghost var e := Event.Set(key, entry, ttlSecs, now, victim);
      RunSnoc(history, e);
      history := history + [e];
      CacheBounded(history);
    }

    /** The part of `set` that keeps the table within its bound. */
    method MakeRoomFor(key: string, ghost entry: CacheEntry, ghost ttlSecs: nat, now: nat) returns (ghost victim: string)
      modifies this`entries
      ensures var e := Event.Set(key, entry, ttlSecs, now, victim);
              Legal(old(entries), e) && entries == MakeRoom(old(entries), e)
    {
      victim := key;
      if |entries| >= MAX_CACHE_ENTRIES && key !in entries {
        entries := Live(entries, now);
        if |entries| >= MAX_CACHE_ENTRIES {
          ghost var minimal := MinimalExists(entries);
          var v :| v in entries && forall k | k in entries :: entries[v].expiresAt <= entries[k].expiresAt;
          victim := v;
          entries := entries - {v};
        }
      }
    }

    method Invalidate(key: string)
      requires Valid()
      modifies this`entries, this`history
      ensures Valid() && history == old(history) + [Event.Invalidate(key)]
    {
      entries := entries - {key};
      history := history + [Event.Invalidate(key)];
    }

    method Clear()
      requires Valid()
      modifies this`entries, this`history
      ensures Valid() && history == old(history) + [Event.Clear]
    {
      entries := map[];
      history := history + [Event.Clear];
    }
  }

  lemma InsertSize(entries: Entries, key: string, v: InternalEntry)
    ensures |entries[key := v]| == |entries| + if key in entries then 0 else 1
  {
    assert entries[key := v].Keys == entries.Keys + {key};
  }

  lemma RemoveShrinks(entries: Entries, key: string)
    ensures |entries - {key}| == |entries| - if key in entries then 1 else 0
  {
    if key in entries {
      assert entries.Keys == (entries - {key}).Keys + {key};
    } else {
      assert entries - {key} == entries;
    }
  }

  // ---------- Runs, and the reference: an unbounded TTL map ----------

  function Run(es: seq<Event>): Entries {
    if es == [] then map[] else Step(Run(es[..|es| - 1]), es[|es| - 1])
  }

  ghost predicate LegalRun(es: seq<Event>) {
    es == [] || (LegalRun(es[..|es| - 1]) && Legal(Run(es[..|es| - 1]), es[|es| - 1]))
  }

  function Reading(e: Event): nat { if e.Invalidate? || e.Clear? then 0 else e.now }

  /** The latest clock reading of a run. */
  function Clock(es: seq<Event>): nat {
    if es == [] then 0
    else
      var before, now := Clock(es[..|es| - 1]), Reading(es[|es| - 1]);
      if now < before then before else now
  }

  /** A map without capacity, sweeping or eviction. */
  function Ideal(es: seq<Event>): Entries {
    if es == [] then map[] else IdealStep(Ideal(es[..|es| - 1]), es[|es| - 1])
  }

  function IdealStep(before: Entries, e: Event): Entries {
    match e
    case Set(key, _, _, _, _) => before[key := Stored(e)]
    case Invalidate(key) => before - {key}
    case Clear => map[]
    case _ => before
  }

  /** The keys evicted and not set again since. */
  function Lost(es: seq<Event>): set<string> {
    if es == [] then {}
    else
      var front, e := es[..|es| - 1], es[|es| - 1];
      match e
      case Set(key, _, _, _, victim) => Lost(front) + (if Evicts(Run(front), e) then {victim} else {}) - {key}
      case Invalidate(key) => Lost(front) - {key}
      case Clear => {}
      case _ => Lost(front)
  }

  // ---------- What a lookup sees ----------

  /** In every run, a lookup sees exactly the unbounded TTL map minus the lost keys; sweeping and
      dropping expired entries is never visible. */
  lemma {:induction false} LookupExact(es: seq<Event>, key: string, now: nat)
    requires Clock(es) <= now
    ensures Lookup(Run(es), key, now) == if key in Lost(es) then None else Lookup(Ideal(es), key, now)
  {
    if es != [] {
      var front, e := es[..|es| - 1], es[|es| - 1];
      LookupExact(front, key, now);
    }
  }

  /** Event `i` is the last one that concerns `key`, and it is a `set`. */
  ghost predicate IsLatestSet(es: seq<Event>, key: string, i: nat) {
    && i < |es| && es[i].Set? && es[i].key == key
    && forall j | i < j < |es| ::
         !es[j].Clear? && !((es[j].Set? || es[j].Invalidate?) && es[j].key == key)
  }

  lemma {:induction false} IdealIsLatestSet(es: seq<Event>, key: string) returns (i: nat)
    requires key in Ideal(es)
    ensures IsLatestSet(es, key, i) && Ideal(es)[key] == Stored(es[i])
  {
    var front, e := es[..|es| - 1], es[|es| - 1];
    if e.Set? && e.key == key {
      i := |front|;
    } else {
      i := IdealIsLatestSet(front, key);
      assert forall j | 0 <= j < |front| :: es[j] == front[j];
    }
  }

  /** Every hit returns the entry of the latest `set` of that key, not invalidated or cleared since,
      and strictly before its clamped expiry. */
  lemma HitIsLatestSet(es: seq<Event>, key: string, now: nat) returns (i: nat)
    requires Clock(es) <= now && Lookup(Run(es), key, now).Some?
    ensures IsLatestSet(es, key, i) && Lookup(Run(es), key, now) == Some(es[i].entry)
    ensures now < es[i].now + es[i].ttlSecs * 1_000_000_000 && now < es[i].now + 31_622_400 * 1_000_000_000
  {
    LookupExact(es, key, now);
    i := IdealIsLatestSet(es, key);
  }

  lemma {:induction false} LatestSetIsIdeal(es: seq<Event>, key: string, i: nat)
    requires IsLatestSet(es, key, i)
    ensures key in Ideal(es) && Ideal(es)[key] == Stored(es[i])
  {
    var front := es[..|es| - 1];
    if i < |front| {
      assert forall j | 0 <= j < |front| :: es[j] == front[j];
      LatestSetIsIdeal(front, key, i);
      assert !es[|front|].Clear?;
    }
  }

  /** In every run, a lookup is decided by the events: it gives the entry of the key's latest `set`
      if that was neither evicted nor is older than its time to live, which is at most 366 days, and
      nothing if there is no such `set`. */
  lemma LookupIff(es: seq<Event>, key: string, now: nat)
    requires Clock(es) <= now
    ensures forall i: nat | IsLatestSet(es, key, i) ::
              var ttl := if es[i].ttlSecs < 31_622_400 then es[i].ttlSecs else 31_622_400;
              Lookup(Run(es), key, now)
              == if key !in Lost(es) && now < es[i].now + ttl * 1_000_000_000 then Some(es[i].entry) else None
    ensures (forall i: nat :: !IsLatestSet(es, key, i)) ==> Lookup(Run(es), key, now) == None
  {
    LookupExact(es, key, now);
    forall i: nat | IsLatestSet(es, key, i) ensures key in Ideal(es) && Ideal(es)[key] == Stored(es[i]) {
      LatestSetIsIdeal(es, key, i);
    }
    if Lookup(Run(es), key, now).Some? {
      var i := HitIsLatestSet(es, key, now);
    }
  }

  // ---------- Capacity ----------

  lemma StepBounded(entries: Entries, e: Event)
    requires |entries| <= MAX_CACHE_ENTRIES && Legal(entries, e)
    ensures |Step(entries, e)| <= MAX_CACHE_ENTRIES
  {
    match e
    case Set(key, _, _, now, victim) =>
      LiveShrinks(entries, now);
      RemoveShrinks(Live(entries, now), victim);
      InsertSize(MakeRoom(entries, e), key, Stored(e));
    case Invalidate(key) => RemoveShrinks(entries, key);
    case Sweep(now) => LiveShrinks(entries, now);
    case _ =>
  }

  /** The table never holds more than 10,000 entries. */
  lemma {:induction false} CacheBounded(es: seq<Event>)
    requires LegalRun(es)
    ensures |Run(es)| <= 10_000
  {
    if es != [] {
      CacheBounded(es[..|es| - 1]);
      StepBounded(Run(es[..|es| - 1]), es[|es| - 1]);
    }
  }

  /** A live entry is evicted only by a new key, when the table holds exactly 10,000 entries, all of
      them live, and only if no entry expires earlier. */
  lemma EvictionJustified(es: seq<Event>, e: Event)
    requires LegalRun(es) && Legal(Run(es), e) && Evicts(Run(es), e)
    ensures |Run(es)| == 10_000 && e.key !in Run(es)
    ensures forall k | k in Run(es) :: Run(es)[k].expiresAt > e.now
    ensures IsMinimal(Run(es), e.victim)
  {
    CacheBounded(es);
    LiveShrinks(Run(es), e.now);
  }

  /** A lost key was the victim of an eviction and has not been set since. */
  lemma {:induction false} LostWasEvicted(es: seq<Event>, key: string) returns (i: nat)
    requires key in Lost(es)
    ensures i < |es| && Evicts(Run(es[..i]), es[i]) && es[i].victim == key
    ensures forall j | i <= j < |es| :: !(es[j].Set? && es[j].key == key)
  {
    var front, e := es[..|es| - 1], es[|es| - 1];
    if Evicts(Run(front), e) && e.victim == key {
      i := |front|;
    } else {
      i := LostWasEvicted(front, key);
      assert front[..i] == es[..i];
      assert forall j | 0 <= j < |front| :: es[j] == front[j];
    }
  }

  // ---------- Sweeps are invisible even at capacity ----------

  function WithoutSweeps(es: seq<Event>): seq<Event> {
    if es == [] then []
    else WithoutSweeps(es[..|es| - 1]) + if es[|es| - 1].Sweep? then [] else [es[|es| - 1]]
  }

  /** Every reading is current: no stale `set` or sweep. */
  ghost predicate Ordered(es: seq<Event>) {
    es == [] ||
    var front, e := es[..|es| - 1], es[|es| - 1];
    Ordered(front) && (e.Get? || e.Set? || e.Sweep? ==> Clock(front) <= e.now)
  }

  lemma LiveLive(entries: Entries, early: nat, now: nat)
    requires early <= now
    ensures Live(Live(entries, early), now) == Live(entries, now)
  {
  }

  /** The live part after a `set` depends only on the live part before it. */
  lemma SetThroughLive(entries: Entries, e: Event, now: nat)
    requires e.Set? && |entries| <= MAX_CACHE_ENTRIES && e.now <= now
    ensures Live(Step(entries, e), now) == Live(Step(Live(entries, e.now), e), now)
  {
    var live := Live(entries, e.now);
    LiveShrinks(entries, e.now);
    LiveLive(entries, e.now, e.now);
    assert Evicts(entries, e) <==> Evicts(live, e);
    var a, b := Live(Step(entries, e), now), Live(Step(live, e), now);
    forall k ensures (k in a <==> k in b) && (k in a ==> a[k] == b[k]) {
    }
  }

  /** When all readings are current, removing every sweep changes neither what is live afterwards
      nor which entries are evicted. */
  lemma {:induction false} OrderedSweepsInvisible(es: seq<Event>, now: nat)
    requires LegalRun(es) && Ordered(es) && Clock(es) <= now
    ensures |Run(WithoutSweeps(es))| <= MAX_CACHE_ENTRIES
    ensures Live(Run(es), now) == Live(Run(WithoutSweeps(es)), now)
    decreases |es|, 0
  {
    if es != [] {
      var front, e := es[..|es| - 1], es[|es| - 1];
      OrderedSweepsInvisible(front, now);
      SweptStep(front, e, now);
      var ws := WithoutSweeps(es);
      if e.Sweep? {
        assert ws == WithoutSweeps(front);
      } else {
        assert ws[..|ws| - 1] == WithoutSweeps(front);
      }
    }
  }

  lemma {:induction false} SweptStep(es: seq<Event>, e: Event, now: nat)
    requires LegalRun(es) && Legal(Run(es), e) && Ordered(es) && Clock(es) <= now && Reading(e) <= now
    requires e.Get? || e.Set? || e.Sweep? ==> Clock(es) <= e.now
    requires |Run(WithoutSweeps(es))| <= MAX_CACHE_ENTRIES
    requires Live(Run(es), now) == Live(Run(WithoutSweeps(es)), now)
    ensures e.Sweep? ==> Live(Step(Run(es), e), now) == Live(Run(WithoutSweeps(es)), now)
    ensures !e.Sweep? ==>
              && |Step(Run(WithoutSweeps(es)), e)| <= MAX_CACHE_ENTRIES
              && Live(Step(Run(es), e), now) == Live(Step(Run(WithoutSweeps(es)), e), now)
    decreases |es|, 1
  {
    var a, b := Run(es), Run(WithoutSweeps(es));
    match e
    case Sweep(n) => LiveLive(a, n, now);
    case Set(_, _, _, n, _) =>
      CacheBounded(es);
      OrderedSweepsInvisible(es, n);
      LegalThroughLive(a, b, e);
      StepBounded(b, e);
      SetThroughLive(a, e, now);
      SetThroughLive(b, e, now);
    case Invalidate(key) =>
      StepBounded(b, e);
      LiveWithout(a, key, now);
      LiveWithout(b, key, now);
    case _ =>
  }

  lemma LiveWithout(entries: Entries, key: string, now: nat)
    ensures Live(entries - {key}, now) == Live(entries, now) - {key}
  {
  }

  lemma LegalThroughLive(a: Entries, b: Entries, e: Event)
    requires e.Set? && |a| <= MAX_CACHE_ENTRIES && |b| <= MAX_CACHE_ENTRIES
    requires Live(a, e.now) == Live(b, e.now) && Legal(a, e)
    ensures Legal(b, e)
  {
    LiveShrinks(a, e.now);
    LiveShrinks(b, e.now);
  }

  // ---------- Sweeps are invisible in every run ----------

  /** The same event up to the choice of a victim. */
  predicate SameUpToVictim(e: Event, f: Event) {
    e == f || (e.Set? && f.Set? && e == f.(victim := e.victim))
  }

  ghost predicate SameUpToVictims(es: seq<Event>, fs: seq<Event>) {
    |es| == |fs| && forall i | 0 <= i < |es| :: SameUpToVictim(es[i], fs[i])
  }

  /** A minimal victim that is still live at `now` makes the whole full table live at `now`. */
  lemma LiveVictim(entries: Entries, e: Event, now: nat)
    requires e.Set? && Evicts(entries, e) && Legal(entries, e) && |entries| <= MAX_CACHE_ENTRIES
    requires e.now <= now && Live(entries, e.now)[e.victim].expiresAt > now
    ensures Live(entries, now) == entries && |entries| == MAX_CACHE_ENTRIES
  {
    LiveShrinks(entries, e.now);
    assert entries == Live(entries, e.now);
  }

  /** So two tables with the same live part are equal if one of them has such a victim. */
  lemma LiveVictimEquates(a: Entries, b: Entries, e: Event, now: nat)
    requires e.Set? && Evicts(a, e) && Legal(a, e) && |a| <= MAX_CACHE_ENTRIES && |b| <= MAX_CACHE_ENTRIES
    requires e.now <= now && Live(a, e.now)[e.victim].expiresAt > now && Live(a, now) == Live(b, now)
    ensures a == b
  {
    LiveVictim(a, e, now);
    LiveShrinks(b, now);
  }

  /** Unless its victim is live at `now`, a `set` adds its entry to what is live at `now` and does
      nothing else to it. */
  lemma SetShows(entries: Entries, e: Event, now: nat)
    requires e.Set? && e.now <= now
    requires Evicts(entries, e) ==> e.victim in Live(entries, e.now) && Live(entries, e.now)[e.victim].expiresAt <= now
    ensures Live(Step(entries, e), now) == Live(Live(entries, now)[e.key := Stored(e)], now)
  {
  }

  /** A victim for a table, if it needs one. */
  lemma ChooseVictim(entries: Entries, e: Event) returns (f: Event)
    requires e.Set?
    ensures SameUpToVictim(e, f) && f.Set? && f == e.(victim := f.victim) && Legal(entries, f)
  {
    f := e;
    if Evicts(entries, e) {
      var victim := MinimalExists(Live(entries, e.now));
      f := e.(victim := victim);
    }
  }

  /** The same `set` on two tables with the same live part: the second can choose its victim so that
      the live parts agree again. */
  lemma SetsAgree(a: Entries, b: Entries, e: Event, now: nat) returns (f: Event)
    requires e.Set? && e.now <= now && Legal(a, e) && |a| <= MAX_CACHE_ENTRIES && |b| <= MAX_CACHE_ENTRIES
    requires Live(a, now) == Live(b, now)
    ensures SameUpToVictim(e, f) && f.Set? && f.now == e.now && Legal(b, f)
    ensures Live(Step(a, e), now) == Live(Step(b, f), now)
  {
    f := ChooseVictim(b, e);
    if Evicts(a, e) && Live(a, e.now)[e.victim].expiresAt > now {
      LiveVictimEquates(a, b, e, now);
      f := e;
    } else if Evicts(b, f) && Live(b, f.now)[f.victim].expiresAt > now {
      LiveVictimEquates(b, a, f, now);
      f := e;
    } else {
      SetShows(a, e, now);
      SetShows(b, f, now);
    }
  }

  /** One event on two tables whose live parts agree from `clock` on. */
  lemma EventsAgree(a: Entries, b: Entries, e: Event, clock: nat, now: nat) returns (f: Event)
    requires !e.Sweep? && Legal(a, e) && |a| <= MAX_CACHE_ENTRIES && |b| <= MAX_CACHE_ENTRIES
    requires Live(a, clock) == Live(b, clock) && clock <= now && Reading(e) <= now
    ensures SameUpToVictim(e, f) && !f.Sweep? && Legal(b, f)
    ensures Live(Step(a, e), now) == Live(Step(b, f), now)
  {
    LiveLive(a, clock, now);
    LiveLive(b, clock, now);
    f := e;
    match e
    case Set(_, _, _, _, _) => f := SetsAgree(a, b, e, now);
    case Invalidate(key) =>
      LiveWithout(a, key, now);
      LiveWithout(b, key, now);
    case _ =>
  }

  lemma SnocSame(es: seq<Event>, fs: seq<Event>, e: Event, f: Event)
    requires SameUpToVictims(es, fs) && SameUpToVictim(e, f)
    ensures SameUpToVictims(es + [e], fs + [f])
  {
  }

  /** Every legal run, stale readings included, has a legal run without sweeps that differs only in
      victims and is in the same state as far as anyone can tell. */
  lemma {:induction false} SweepsInvisible(es: seq<Event>) returns (fs: seq<Event>)
    requires LegalRun(es)
    ensures SameUpToVictims(WithoutSweeps(es), fs) && LegalRun(fs)
    ensures Live(Run(es), Clock(es)) == Live(Run(fs), Clock(es))
    ensures Timed(es) ==> forall key :: Results(es, key) == Results(fs, key)
  {
    if es == [] {
      fs := [];
    } else {
      var front, e := es[..|es| - 1], es[|es| - 1];
      var before := SweepsInvisible(front);
      if e.Sweep? {
        fs := before;
        SweepStep(front, e, fs);
      } else {
        fs := EventStep(front, e, before);
        assert WithoutSweeps(es) == WithoutSweeps(front) + [e];
      }
      assert es == front + [e];
    }
  }

  lemma EventStep(front: seq<Event>, e: Event, before: seq<Event>) returns (fs: seq<Event>)
    requires !e.Sweep? && LegalRun(front) && Legal(Run(front), e) && LegalRun(before)
    requires SameUpToVictims(WithoutSweeps(front), before)
    requires Live(Run(front), Clock(front)) == Live(Run(before), Clock(front))
    requires Timed(front) ==> forall key :: Results(front, key) == Results(before, key)
    ensures SameUpToVictims(WithoutSweeps(front) + [e], fs) && LegalRun(fs)
    ensures Live(Run(front + [e]), Clock(front + [e])) == Live(Run(fs), Clock(front + [e]))
    ensures Timed(front + [e]) ==> forall key :: Results(front + [e], key) == Results(fs, key)
  {
    CacheBounded(front);
    CacheBounded(before);
    assert (front + [e])[..|front|] == front;
    var f := EventsAgree(Run(front), Run(before), e, Clock(front), Clock(front + [e]));
    fs := before + [f];
    SnocSame(WithoutSweeps(front), before, e, f);
    if Timed(front + [e]) { ResultsStep(front, e, before, f); }
  }

  lemma SweepStep(front: seq<Event>, e: Event, fs: seq<Event>)
    requires e.Sweep? && Live(Run(front), Clock(front)) == Live(Run(fs), Clock(front))
    ensures Live(Run(front + [e]), Clock(front + [e])) == Live(Run(fs), Clock(front + [e]))
    ensures Timed(front + [e]) <==> Timed(front)
    ensures forall key :: Results(front + [e], key) == Results(front, key)
    ensures WithoutSweeps(front + [e]) == WithoutSweeps(front)
  {
    var es := front + [e];
    assert es[..|front|] == front;
    LiveLive(Run(front), Clock(front), Clock(es));
    LiveLive(Run(fs), Clock(front), Clock(es));
    LiveLive(Run(front), e.now, Clock(es));
  }

  lemma LookupThroughLive(a: Entries, b: Entries, clock: nat, key: string, now: nat)
    requires Live(a, clock) == Live(b, clock) && clock <= now
    ensures Lookup(a, key, now) == Lookup(b, key, now)
  {
    assert Lookup(a, key, now) == Lookup(Live(a, clock), key, now);
    assert Lookup(b, key, now) == Lookup(Live(b, clock), key, now);
  }

  lemma ResultsStep(front: seq<Event>, e: Event, before: seq<Event>, f: Event)
    requires Timed(front + [e]) && SameUpToVictim(e, f)
    requires Live(Run(front), Clock(front)) == Live(Run(before), Clock(front))
    requires Timed(front) ==> forall key :: Results(front, key) == Results(before, key)
    ensures forall key :: Results(front + [e], key) == Results(before + [f], key)
  {
    assert (front + [e])[..|front|] == front;
    forall key ensures Results(front + [e], key) == Results(before + [f], key) {
      assert Results(front, key) == Results(before, key);
      if e.Get? { LookupThroughLive(Run(front), Run(before), Clock(front), key, e.now); }
    }
  }

  // ---------- Keys do not influence each other below capacity ----------

  /** The events that concern one key. */
  function OpsOn(es: seq<Event>, key: string): seq<Event> {
    if es == [] then []
    else
      var front, e := es[..|es| - 1], es[|es| - 1];
      OpsOn(front, key) + if e.Clear? || (!e.Sweep? && e.key == key) then [e] else []
  }

  /** The results of the lookups on one key, in order. */
  function Results(es: seq<Event>, key: string): seq<Option<CacheEntry>> {
    if es == [] then []
    else
      var front, e := es[..|es| - 1], es[|es| - 1];
      Results(front, key) + if e.Get? && e.key == key then [Lookup(Run(front), key, e.now)] else []
  }

  /** The same lookups answered by the unbounded map. */
  function IdealResults(es: seq<Event>, key: string): seq<Option<CacheEntry>> {
    if es == [] then []
    else
      var front, e := es[..|es| - 1], es[|es| - 1];
      IdealResults(front, key) + if e.Get? && e.key == key then [Lookup(Ideal(front), key, e.now)] else []
  }

  /** Lookups read the clock inside the lock. */
  ghost predicate Timed(es: seq<Event>) {
    es == [] ||
    var front, e := es[..|es| - 1], es[|es| - 1];
    Timed(front) && (e.Get? ==> Clock(front) <= e.now)
  }

  ghost predicate NoEviction(es: seq<Event>) {
    es == [] || (NoEviction(es[..|es| - 1]) && !Evicts(Run(es[..|es| - 1]), es[|es| - 1]))
  }

  lemma {:induction false} NothingLost(es: seq<Event>)
    requires NoEviction(es)
    ensures Lost(es) == {}
  {
    if es != [] { NothingLost(es[..|es| - 1]); }
  }

  lemma {:induction false} IdealIsLocal(es: seq<Event>, key: string)
    ensures key in Ideal(es) <==> key in Ideal(OpsOn(es, key))
    ensures key in Ideal(es) ==> Ideal(es)[key] == Ideal(OpsOn(es, key))[key]
  {
    if es != [] {
      var front, e := es[..|es| - 1], es[|es| - 1];
      IdealIsLocal(front, key);
      var ops := OpsOn(es, key);
      assert ops == OpsOn(front, key) || ops[..|ops| - 1] == OpsOn(front, key);
    }
  }

  lemma {:induction false} ResultsAreLocal(es: seq<Event>, key: string)
    requires Timed(es) && NoEviction(es)
    ensures Results(es, key) == IdealResults(OpsOn(es, key), key)
  {
    if es != [] {
      var front, e := es[..|es| - 1], es[|es| - 1];
      ResultsAreLocal(front, key);
      NothingLost(front);
      if e.Get? && e.key == key {
        LookupExact(front, key, e.now);
        IdealIsLocal(front, key);
      }
      var ops := OpsOn(es, key);
      assert ops == OpsOn(front, key) || (ops == OpsOn(front, key) + [e] && ops[..|ops| - 1] == OpsOn(front, key));
    }
  }

  /** An event without the choice of a victim. */
  function NoVictim(e: Event): Event { if e.Set? then e.(victim := []) else e }

  lemma StepIgnoresVictim(before: Entries, e: Event)
    ensures IdealStep(before, NoVictim(e)) == IdealStep(before, e)
  {
  }

  lemma {:induction false} IdealIgnoresVictims(es: seq<Event>)
    ensures Ideal(Map(NoVictim, es)) == Ideal(es)
  {
    if es != [] {
      var front, e, bare := es[..|es| - 1], es[|es| - 1], Map(NoVictim, es);
      IdealIgnoresVictims(front);
      assert bare[..|bare| - 1] == Map(NoVictim, front) && bare[|bare| - 1] == NoVictim(e);
      StepIgnoresVictim(Ideal(front), e);
    }
  }

  lemma {:induction false} ResultsIgnoreVictims(es: seq<Event>, key: string)
    ensures IdealResults(Map(NoVictim, es), key) == IdealResults(es, key)
  {
    if es != [] {
      var front, e, bare := es[..|es| - 1], es[|es| - 1], Map(NoVictim, es);
      ResultsIgnoreVictims(front, key);
      IdealIgnoresVictims(front);
      assert bare[..|bare| - 1] == Map(NoVictim, front) && bare[|bare| - 1] == NoVictim(e);
    }
  }

  /** Below capacity the results on a key depend on the events on that key alone, and not on the
      victims that would be chosen. */
  lemma KeysAreIndependent(xs: seq<Event>, ys: seq<Event>, key: string)
    requires Timed(xs) && Timed(ys) && NoEviction(xs) && NoEviction(ys)
    requires Map(NoVictim, OpsOn(xs, key)) == Map(NoVictim, OpsOn(ys, key))
    ensures Results(xs, key) == Results(ys, key)
  {
    ResultsAreLocal(xs, key);
    ResultsAreLocal(ys, key);
    ResultsIgnoreVictims(OpsOn(xs, key), key);
    ResultsIgnoreVictims(OpsOn(ys, key), key);
  }

  /** Result for result, `rs` is `ideal` with some hits turned into misses. */
  ghost predicate MissesApart(rs: seq<Option<CacheEntry>>, ideal: seq<Option<CacheEntry>>) {
    |rs| == |ideal| && forall i | 0 <= i < |rs| :: rs[i] == None || rs[i] == ideal[i]
  }

  /** In every run, evictions included, a lookup gives what an unbounded map that saw only the
      events on its key would give, or a miss. */
  lemma {:induction false} ResultsUpToMisses(es: seq<Event>, key: string)
    requires Timed(es)
    ensures MissesApart(Results(es, key), IdealResults(OpsOn(es, key), key))
  {
    if es != [] {
      var front, e := es[..|es| - 1], es[|es| - 1];
      ResultsUpToMisses(front, key);
      if e.Get? && e.key == key {
        LookupExact(front, key, e.now);
        IdealIsLocal(front, key);
      }
      var ops := OpsOn(es, key);
      assert ops == OpsOn(front, key) || (ops == OpsOn(front, key) + [e] && ops[..|ops| - 1] == OpsOn(front, key));
    }
  }

  // ---------- Room enough ----------

  /** The keys a run stores. */
  function KeysSet(es: seq<Event>): set<string> { set e | e in es && e.Set? :: e.key }

  lemma {:induction false} OnlySetKeys(es: seq<Event>)
    ensures Run(es).Keys <= KeysSet(es)
  {
    if es != [] {
      var front, e := es[..|es| - 1], es[|es| - 1];
      OnlySetKeys(front);
      assert KeysSet(front) <= KeysSet(es);
      assert e in es;
    }
  }

  lemma NewKeyFits(entries: Entries, e: Event, keys: set<string>)
    requires e.Set? && entries.Keys <= keys && e.key in keys && |keys| <= MAX_CACHE_ENTRIES
    ensures !Evicts(entries, e)
  {
    if e.key !in entries {
      SubsetSize(entries.Keys + {e.key}, keys);
    }
  }

  /** A run that stores under no more keys than the table holds evicts nothing. */
  lemma {:induction false} FewKeysNoEviction(es: seq<Event>)
    requires |KeysSet(es)| <= 10_000
    ensures NoEviction(es)
  {
    if es != [] {
      var front, e := es[..|es| - 1], es[|es| - 1];
      assert KeysSet(front) <= KeysSet(es);
      SubsetSize(KeysSet(front), KeysSet(es));
      FewKeysNoEviction(front);
      if e.Set? {
        assert e in es;
        OnlySetKeys(front);
        NewKeyFits(Run(front), e, KeysSet(es));
      }
    }
  }
}
