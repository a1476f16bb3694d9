/**
 Plugins share one rate limiter and one response cache through host functions that prefix every
 key with the plugin's name and a NUL. For NUL-free names the prefixing is injective, so a plugin
 gets the answers it would get from an instance of its own, whatever the other plugins do in
 between. What they still share is capacity: the limiter's answers agree exactly while it refuses
 no key for want of room, and a cache hit may turn into a miss.
 */
module Isolation {
  import opened Text
  import RL = RateLimiting
  import RC = ResponseCaching

  function NamespaceKey(plugin: string, key: string): string { plugin + ['\0'] + key }

  /** The first NUL delimits the plugin name, whatever the key contains. */
  lemma NamespaceInjective(p: string, k: string, q: string, l: string)
    requires '\0' !in p && '\0' !in q
    ensures NamespaceKey(p, k) == NamespaceKey(q, l) <==> p == q && k == l
  {
    if NamespaceKey(p, k) == NamespaceKey(q, l) {
      var s := NamespaceKey(p, k);
      assert s[|p|] == '\0' && s[|q|] == '\0';
      assert forall i | 0 <= i < |p| :: s[i] == p[i];
      assert forall i | 0 <= i < |q| :: s[i] == q[i];
      assert |p| == |q|;
      assert p == s[..|p|] && q == s[..|q|];
      assert k == s[|p| + 1..] && l == s[|q| + 1..];
    }
  }

  // ---------- The limiter ----------

  datatype LimiterCall =
    | Limit(plugin: string, key: string, quota: nat, windowSecs: nat, evictNow: nat, now: nat)
    | LimiterTick(now: nat)

  function LimiterEvent(c: LimiterCall): RL.Event {
    match c
    case Limit(plugin, key, quota, windowSecs, evictNow, now) =>
      RL.Check(NamespaceKey(plugin, key), quota, windowSecs, evictNow, now)
    case LimiterTick(now) => RL.Sweep(now)
  }

  function LimiterRun(cs: seq<LimiterCall>): seq<RL.Event> { Map(LimiterEvent, cs) }

  /** The plugin's own checks. */
  function OwnLimits(plugin: string, cs: seq<LimiterCall>): seq<LimiterCall> {
    if cs == [] then []
    else
      var c := cs[|cs| - 1];
      OwnLimits(plugin, cs[..|cs| - 1]) + if c.Limit? && c.plugin == plugin then [c] else []
  }

  /** A run of a limiter of the plugin's own: the same checks, and sweeps whenever it likes. */
  ghost predicate PrivateLimiter(plugin: string, cs: seq<LimiterCall>, own: seq<LimiterCall>) {
    && OwnLimits(plugin, own) == OwnLimits(plugin, cs) && RL.Timed(LimiterRun(own))
    && forall c | c in own && c.Limit? :: c.plugin == plugin
  }

  lemma LimiterRunSnoc(cs: seq<LimiterCall>, c: LimiterCall)
    ensures LimiterRun(cs + [c]) == LimiterRun(cs) + [LimiterEvent(c)]
  {
    MapConcat(LimiterEvent, cs, [c]);
  }

  lemma ChecksOnSnoc(es: seq<RL.Event>, e: RL.Event, key: string)
    ensures RL.ChecksOn(es + [e], key) == RL.ChecksOn(es, key) + if e.Check? && e.key == key then [e] else []
    ensures RL.Clock(es + [e]) == if e.now < RL.Clock(es) then RL.Clock(es) else e.now
    ensures RL.Timed(es + [e]) <==> RL.Timed(es) && (e.Check? ==> RL.Clock(es) <= e.evictNow <= e.now)
  {
    assert (es + [e])[..|es|] == es;
  }

  /** The checks on a key of the plugin are among the plugin's own. */
  lemma {:induction false} OwnChecksAreOwn(plugin: string, cs: seq<LimiterCall>, key: string)
    requires '\0' !in plugin && forall c | c in cs && c.Limit? :: '\0' !in c.plugin
    ensures RL.ChecksOn(LimiterRun(cs), NamespaceKey(plugin, key))
         == RL.ChecksOn(LimiterRun(OwnLimits(plugin, cs)), NamespaceKey(plugin, key))
  {
    if cs != [] {
      var front, c, full := cs[..|cs| - 1], cs[|cs| - 1], NamespaceKey(plugin, key);
      assert cs == front + [c];
      LimiterRunSnoc(front, c);
      ChecksOnSnoc(LimiterRun(front), LimiterEvent(c), full);
      OwnChecksAreOwn(plugin, front, key);
      if c.Limit? { NamespaceInjective(plugin, key, c.plugin, c.key); }
      if c.Limit? && c.plugin == plugin {
        LimiterRunSnoc(OwnLimits(plugin, front), c);
        ChecksOnSnoc(LimiterRun(OwnLimits(plugin, front)), LimiterEvent(c), full);
      } else {
        assert OwnLimits(plugin, cs) == OwnLimits(plugin, front);
      }
    }
  }

  lemma {:induction false} OwnLimitsArePart(plugin: string, cs: seq<LimiterCall>)
    ensures forall c :: c in OwnLimits(plugin, cs) <==> c in cs && c.Limit? && c.plugin == plugin
  {
    if cs != [] {
      OwnLimitsArePart(plugin, cs[..|cs| - 1]);
      assert cs == cs[..|cs| - 1] + [cs[|cs| - 1]];
    }
  }

  lemma PrivateHasOwnChecks(plugin: string, cs: seq<LimiterCall>, own: seq<LimiterCall>, key: string)
    requires '\0' !in plugin && forall c | c in cs && c.Limit? :: '\0' !in c.plugin
    requires PrivateLimiter(plugin, cs, own)
    ensures RL.ChecksOn(LimiterRun(own), NamespaceKey(plugin, key)) == RL.ChecksOn(LimiterRun(cs), NamespaceKey(plugin, key))
  {
    OwnChecksAreOwn(plugin, cs, key);
    OwnChecksAreOwn(plugin, own, key);
  }

  /** In every interleaving, a plugin that a limiter of its own would never refuse gets the answers
      of that limiter, whenever that one sweeps, exactly when the shared one never refuses it: when
      none of its checks brings a new key to a table full of recently used ones. */
  lemma LimiterIsolationIff(plugin: string, cs: seq<LimiterCall>, own: seq<LimiterCall>, key: string)
    requires '\0' !in plugin && forall c | c in cs && c.Limit? :: '\0' !in c.plugin
    requires RL.Timed(LimiterRun(cs)) && PrivateLimiter(plugin, cs, own)
    requires var full := NamespaceKey(plugin, key);
             RL.NeverRefused(LimiterRun(own), full) && RL.ShortWindows(RL.Requests(LimiterRun(own), full))
    ensures var full := NamespaceKey(plugin, key);
            RL.Outcomes(LimiterRun(cs), full) == RL.Outcomes(LimiterRun(own), full) <==> RL.NeverRefused(LimiterRun(cs), full)
  {
    PrivateHasOwnChecks(plugin, cs, own, key);
    RL.OutcomesAgreeIff(LimiterRun(cs), LimiterRun(own), NamespaceKey(plugin, key));
  }

  /** The prefixed keys that some calls check. */
  function KeysLimited(cs: seq<LimiterCall>): set<string> {
    set c | c in cs && c.Limit? :: NamespaceKey(c.plugin, c.key)
  }

  lemma KeysOfRun(cs: seq<LimiterCall>)
    ensures RL.KeysChecked(LimiterRun(cs)) == KeysLimited(cs)
  {
    var run := LimiterRun(cs);
    forall k | k in RL.KeysChecked(run) ensures k in KeysLimited(cs) {
      var i :| 0 <= i < |run| && run[i].Check? && run[i].key == k;
      assert run[i] == LimiterEvent(cs[i]) && cs[i] in cs;
    }
    forall k | k in KeysLimited(cs) ensures k in RL.KeysChecked(run) {
      var i :| 0 <= i < |cs| && cs[i].Limit? && NamespaceKey(cs[i].plugin, cs[i].key) == k;
      assert run[i] == LimiterEvent(cs[i]) && run[i] in run;
    }
  }

  ghost predicate ShortLimits(plugin: string, key: string, cs: seq<LimiterCall>) {
    forall c | c in cs && c.Limit? && c.plugin == plugin && c.key == key :: c.windowSecs <= 300
  }

  lemma {:induction false} ShortRequests(plugin: string, key: string, cs: seq<LimiterCall>)
    requires '\0' !in plugin && forall c | c in cs && c.Limit? :: '\0' !in c.plugin
    requires ShortLimits(plugin, key, cs)
    ensures RL.ShortWindows(RL.Requests(LimiterRun(cs), NamespaceKey(plugin, key)))
  {
    if cs != [] {
      var front, c := cs[..|cs| - 1], cs[|cs| - 1];
      var full := NamespaceKey(plugin, key);
      assert cs == front + [c];
      ShortRequests(plugin, key, front);
      LimiterRunSnoc(front, c);
      if c.Limit? { NamespaceInjective(plugin, key, c.plugin, c.key); }
    }
  }

  /** In every interleaving in which all plugins together check at most 100000 keys, a plugin whose
      windows are at most 300 seconds is answered as by a limiter of its own. */
  lemma LimiterIsolation(plugin: string, cs: seq<LimiterCall>, own: seq<LimiterCall>, key: string)
    requires '\0' !in plugin && forall c | c in cs && c.Limit? :: '\0' !in c.plugin
    requires RL.Timed(LimiterRun(cs)) && PrivateLimiter(plugin, cs, own)
    requires |KeysLimited(cs)| <= 100_000 && ShortLimits(plugin, key, cs)
    ensures RL.Outcomes(LimiterRun(cs), NamespaceKey(plugin, key)) == RL.Outcomes(LimiterRun(own), NamespaceKey(plugin, key))
  {
    var full := NamespaceKey(plugin, key);
    OwnLimitsArePart(plugin, cs);
    OwnLimitsArePart(plugin, own);
    forall c | c in own && c.Limit? ensures c in cs { assert c in OwnLimits(plugin, own); }
    KeysOfRun(cs);
    KeysOfRun(own);
    SubsetSize(KeysLimited(own), KeysLimited(cs));
    RL.FewKeysNeverRefused(LimiterRun(cs), full);
    RL.FewKeysNeverRefused(LimiterRun(own), full);
    ShortRequests(plugin, key, own);
    LimiterIsolationIff(plugin, cs, own, key);
  }

  // ---------- One plugin can fill the limiter's table ----------

  function Name(n: nat): string { seq(n, _ => 'k') }

  function Fresh(plugin: string, n: nat): LimiterCall { Limit(plugin, Name(n), 1, 1, 0, 0) }

  ghost predicate IsFilling(plugin: string, n: nat, key: string) {
    exists i: nat | i < n :: key == NamespaceKey(plugin, Name(i))
  }

  /** `n` fresh keys of one plugin occupy `n` places, all of them recently used. */
  ghost predicate Filled(plugin: string, n: nat, windows: RL.Table) {
    && |windows| == n
    && (forall k | k in windows :: windows[k].timestamps == [0])
    && (forall k | k in windows :: IsFilling(plugin, n, k))
  }

  lemma FillStep(plugin: string, n: nat, windows: RL.Table)
    requires n < RL.MAX_PARTITIONS && Filled(plugin, n, windows)
    ensures Filled(plugin, n + 1, RL.Step(windows, LimiterEvent(Fresh(plugin, n))))
  {
    var e := LimiterEvent(Fresh(plugin, n));
    assert e.key == NamespaceKey(plugin, Name(n));
    assert e.key !in windows;
    RL.FreshKeyAdmitted(windows, e);
    forall k | k in RL.Step(windows, e) ensures IsFilling(plugin, n + 1, k) {
      if k != e.key { assert IsFilling(plugin, n, k); }
    }
  }

  ghost predicate Fills(plugin: string, n: nat, cs: seq<LimiterCall>) {
    var run := LimiterRun(cs);
    Filled(plugin, n, RL.Run(run)) && RL.Timed(run) && RL.Clock(run) == 0
  }

  lemma FillingSnoc(plugin: string, n: nat, cs: seq<LimiterCall>) returns (more: seq<LimiterCall>)
    requires n < RL.MAX_PARTITIONS && Fills(plugin, n, cs)
    requires forall c | c in cs :: c.Limit? && c.plugin == plugin
    ensures Fills(plugin, n + 1, more)
    ensures forall c | c in more :: c.Limit? && c.plugin == plugin
  {
    var c, run := Fresh(plugin, n), LimiterRun(cs);
    more := cs + [c];
    LimiterRunSnoc(cs, c);
    ChecksOnSnoc(run, LimiterEvent(c), []);
    FillStep(plugin, n, RL.Run(run));
  }

  /** A run of calls by one plugin that leaves `n` keys in the table. */
  lemma {:induction false} FillTable(plugin: string, n: nat) returns (cs: seq<LimiterCall>)
    requires n <= RL.MAX_PARTITIONS
    ensures Fills(plugin, n, cs)
    ensures forall c | c in cs :: c.Limit? && c.plugin == plugin
  {
    if n == 0 {
      cs := [];
    } else {
      var front := FillTable(plugin, n - 1);
      cs := FillingSnoc(plugin, n - 1, front);
    }
  }

  /** A full table of recently used keys refuses every other key. */
  lemma FullTableRefuses(plugin: string, n: nat, windows: RL.Table, e: RL.Event)
    requires n >= RL.MAX_PARTITIONS && Filled(plugin, n, windows)
    requires e.Check? && e.evictNow == 0 && e.key !in windows
    ensures RL.IsRefused(windows, e)
  {
    forall k | k in windows ensures RL.Recent(windows[k], 0) {
      assert 0 in windows[k].timestamps;
    }
    assert RL.SweepTable(windows, 0) == windows;
  }

  lemma {:induction false} OthersHaveNoOwn(plugin: string, cs: seq<LimiterCall>)
    requires forall c | c in cs :: c.Limit? && c.plugin != plugin
    ensures OwnLimits(plugin, cs) == []
  {
    if cs != [] { OthersHaveNoOwn(plugin, cs[..|cs| - 1]); }
  }

  lemma PrivateOfLast(filler: string, fill: seq<LimiterCall>, c: LimiterCall)
    requires c.Limit? && c.evictNow == c.now && filler != c.plugin && forall x | x in fill :: x.Limit? && x.plugin == filler
    ensures PrivateLimiter(c.plugin, fill + [c], [c])
    ensures RL.NeverRefused(LimiterRun([c]), NamespaceKey(c.plugin, c.key))
  {
    OthersHaveNoOwn(c.plugin, fill);
    assert (fill + [c])[..|fill|] == fill && [c][..0] == [];
    var run := LimiterRun([c]);
    assert run == [LimiterEvent(c)] && run[..0] == [];
    assert RL.Timed([]) && RL.Clock([]) == 0;
  }

  lemma RefusedLast(cs: seq<LimiterCall>, c: LimiterCall)
    requires c.Limit? && RL.IsRefused(RL.Run(LimiterRun(cs)), LimiterEvent(c))
    ensures !RL.NeverRefused(LimiterRun(cs + [c]), NamespaceKey(c.plugin, c.key))
  {
    LimiterRunSnoc(cs, c);
    var run := LimiterRun(cs);
    assert (run + [LimiterEvent(c)])[..|run|] == run;
  }

  /** Once `filler` has filled the table, the first call of another plugin is refused. */
  lemma FillingRefuses(filler: string, n: nat, cs: seq<LimiterCall>, c: LimiterCall)
    requires c.Limit? && c.evictNow == 0 && n == RL.MAX_PARTITIONS && Fills(filler, n, cs)
    requires '\0' !in filler && '\0' !in c.plugin && filler != c.plugin
    ensures RL.IsRefused(RL.Run(LimiterRun(cs)), LimiterEvent(c))
  {
    var windows := RL.Run(LimiterRun(cs));
    forall k | k in windows ensures k != NamespaceKey(c.plugin, c.key) {
      assert IsFilling(filler, n, k);
      var i: nat :| i < n && k == NamespaceKey(filler, Name(i));
      NamespaceInjective(filler, Name(i), c.plugin, c.key);
    }
    FullTableRefuses(filler, n, windows, LimiterEvent(c));
  }

  lemma StillTimed(filler: string, n: nat, cs: seq<LimiterCall>, c: LimiterCall)
    requires Fills(filler, n, cs) && c.Limit? && c.evictNow == c.now == 0
    ensures RL.Timed(LimiterRun(cs + [c]))
  {
    LimiterRunSnoc(cs, c);
    ChecksOnSnoc(LimiterRun(cs), LimiterEvent(c), []);
  }

  /** Prefixing keys does not keep one plugin from exhausting the shared table for another: a run in
      which only `filler` makes calls before the first call of `other`, which is refused although a
      limiter of its own would take it. */
  lemma TableIsExhaustible(filler: string, other: string, key: string) returns (cs: seq<LimiterCall>)
    requires '\0' !in filler && '\0' !in other && filler != other
    ensures RL.Timed(LimiterRun(cs)) && forall c | c in cs :: c.Limit? && (c.plugin == filler || c.plugin == other)
    ensures PrivateLimiter(other, cs, [Limit(other, key, 1, 1, 0, 0)])
    ensures RL.NeverRefused(LimiterRun([Limit(other, key, 1, 1, 0, 0)]), NamespaceKey(other, key))
    ensures !RL.NeverRefused(LimiterRun(cs), NamespaceKey(other, key))
  {
    var c := Limit(other, key, 1, 1, 0, 0);
    var fill := FillTable(filler, RL.MAX_PARTITIONS);
    cs := fill + [c];
    FillingRefuses(filler, RL.MAX_PARTITIONS, fill, c);
    RefusedLast(fill, c);
    PrivateOfLast(filler, fill, c);
    StillTimed(filler, RL.MAX_PARTITIONS, fill, c);
  }

  // ---------- The cache ----------

  datatype CacheCall =
    | CacheGet(plugin: string, key: string, now: nat)
    | CacheSet(plugin: string, key: string, entry: RC.CacheEntry, ttlSecs: nat, now: nat, victim: string)
    | CacheTick(now: nat)

  function CacheEvent(c: CacheCall): RC.Event {
    match c
    case CacheGet(plugin, key, now) => RC.Get(NamespaceKey(plugin, key), now)
    case CacheSet(plugin, key, entry, ttlSecs, now, victim) =>
      RC.Set(NamespaceKey(plugin, key), entry, ttlSecs, now, victim)
    case CacheTick(now) => RC.Sweep(now)
  }

  function CacheRun(cs: seq<CacheCall>): seq<RC.Event> { Map(CacheEvent, cs) }

  /** A call without the victim that the shared cache would choose. */
  function Bare(c: CacheCall): CacheCall { if c.CacheSet? then c.(victim := []) else c }

  /** The plugin's own calls. */
  function OwnCached(plugin: string, cs: seq<CacheCall>): seq<CacheCall> {
    if cs == [] then []
    else
      var c := cs[|cs| - 1];
      OwnCached(plugin, cs[..|cs| - 1]) + if c.CacheTick? || c.plugin != plugin then [] else [Bare(c)]
  }

  /** A run of a cache of the plugin's own: the same calls, with sweeps and victims as it likes. */
  ghost predicate PrivateCache(plugin: string, cs: seq<CacheCall>, own: seq<CacheCall>) {
    && OwnCached(plugin, own) == OwnCached(plugin, cs) && RC.Timed(CacheRun(own))
    && forall c | c in own && !c.CacheTick? :: c.plugin == plugin
  }

  lemma CacheRunSnoc(cs: seq<CacheCall>, c: CacheCall)
    ensures CacheRun(cs + [c]) == CacheRun(cs) + [CacheEvent(c)]
  {
    MapConcat(CacheEvent, cs, [c]);
  }

  lemma OpsOnSnoc(es: seq<RC.Event>, e: RC.Event, key: string)
    ensures RC.OpsOn(es + [e], key) == RC.OpsOn(es, key) + if e.Clear? || (!e.Sweep? && e.key == key) then [e] else []
    ensures RC.Clock(es + [e]) == if RC.Reading(e) < RC.Clock(es) then RC.Clock(es) else RC.Reading(e)
    ensures RC.Timed(es + [e]) <==> RC.Timed(es) && (e.Get? ==> RC.Clock(es) <= e.now)
  {
    assert (es + [e])[..|es|] == es;
  }

  /** One call's part in the events on a key. */
  lemma OpsOnOne(plugin: string, cs: seq<CacheCall>, c: CacheCall, key: string)
    requires '\0' !in plugin && (!c.CacheTick? ==> '\0' !in c.plugin)
    ensures RC.OpsOn(CacheRun(cs + [c]), NamespaceKey(plugin, key))
         == RC.OpsOn(CacheRun(cs), NamespaceKey(plugin, key))
            + if !c.CacheTick? && c.plugin == plugin && c.key == key then [CacheEvent(c)] else []
  {
    CacheRunSnoc(cs, c);
    OpsOnSnoc(CacheRun(cs), CacheEvent(c), NamespaceKey(plugin, key));
    if !c.CacheTick? { NamespaceInjective(plugin, key, c.plugin, c.key); }
  }

  lemma {:induction false} OwnOpsAreOwn(plugin: string, cs: seq<CacheCall>, key: string)
    requires '\0' !in plugin && forall c | c in cs && !c.CacheTick? :: '\0' !in c.plugin
    ensures Map(RC.NoVictim, RC.OpsOn(CacheRun(cs), NamespaceKey(plugin, key)))
         == RC.OpsOn(CacheRun(OwnCached(plugin, cs)), NamespaceKey(plugin, key))
  {
    if cs != [] {
      var front, c, full := cs[..|cs| - 1], cs[|cs| - 1], NamespaceKey(plugin, key);
      var own := OwnCached(plugin, front);
      assert cs == front + [c];
      OpsOnOne(plugin, front, c, key);
      OwnOpsAreOwn(plugin, front, key);
      if c.CacheTick? || c.plugin != plugin {
        assert OwnCached(plugin, cs) == own;
      } else {
        assert OwnCached(plugin, cs) == own + [Bare(c)];
        OpsOnOne(plugin, own, Bare(c), key);
        assert RC.NoVictim(CacheEvent(c)) == CacheEvent(Bare(c));
        MapConcat(RC.NoVictim, RC.OpsOn(CacheRun(front), full), [CacheEvent(c)]);
      }
    }
  }

  lemma {:induction false} OwnSetsArePart(plugin: string, cs: seq<CacheCall>, key: string)
    ensures (exists c | c in OwnCached(plugin, cs) :: c.CacheSet? && c.key == key)
       <==> exists c | c in cs :: c.CacheSet? && c.plugin == plugin && c.key == key
  {
    if cs != [] {
      var front, c := cs[..|cs| - 1], cs[|cs| - 1];
      OwnSetsArePart(plugin, front, key);
      assert cs == front + [c];
      var last := if c.CacheTick? || c.plugin != plugin then [] else [Bare(c)];
      assert OwnCached(plugin, cs) == OwnCached(plugin, front) + last;
      if c.CacheSet? && c.plugin == plugin && c.key == key {
        assert last[0] in OwnCached(plugin, cs);
      }
    }
  }

  /** The prefixed keys that some calls store under. */
  function KeysCached(cs: seq<CacheCall>): set<string> {
    set c | c in cs && c.CacheSet? :: NamespaceKey(c.plugin, c.key)
  }

  /** Few keys stored by all plugins together: neither the shared nor the private cache evicts. */
  lemma FewKeysCached(plugin: string, cs: seq<CacheCall>, own: seq<CacheCall>)
    requires |KeysCached(cs)| <= 10_000 && PrivateCache(plugin, cs, own)
    ensures RC.NoEviction(CacheRun(cs)) && RC.NoEviction(CacheRun(own))
  {
    forall k | k in KeysCached(own) ensures k in KeysCached(cs) {
      var c :| c in own && c.CacheSet? && NamespaceKey(c.plugin, c.key) == k;
      OwnSetsArePart(plugin, own, c.key);
      OwnSetsArePart(plugin, cs, c.key);
    }
    SubsetSize(RC.KeysSet(CacheRun(cs)), KeysCached(cs));
    SubsetSize(RC.KeysSet(CacheRun(own)), KeysCached(cs));
    RC.FewKeysNoEviction(CacheRun(cs));
    RC.FewKeysNoEviction(CacheRun(own));
  }

  /** In every interleaving, evictions included, a plugin's lookup in the shared cache gives what an
      unbounded private cache would give, or a miss. Without evictions, and so whenever all plugins
      together store under at most 10000 keys, it gives what a private cache gives, whenever that one
      sweeps. */
  lemma CacheIsolation(plugin: string, cs: seq<CacheCall>, own: seq<CacheCall>, key: string)
    requires '\0' !in plugin && forall c | c in cs && !c.CacheTick? :: '\0' !in c.plugin
    requires RC.Timed(CacheRun(cs)) && PrivateCache(plugin, cs, own)
    ensures var full := NamespaceKey(plugin, key);
            && RC.MissesApart(RC.Results(CacheRun(cs), full), RC.IdealResults(RC.OpsOn(CacheRun(own), full), full))
            && (RC.NoEviction(CacheRun(cs)) && RC.NoEviction(CacheRun(own)) ==>
                  RC.Results(CacheRun(cs), full) == RC.Results(CacheRun(own), full))
            && (|KeysCached(cs)| <= 10_000 ==> RC.Results(CacheRun(cs), full) == RC.Results(CacheRun(own), full))
  {
    var full, shared, private := NamespaceKey(plugin, key), CacheRun(cs), CacheRun(own);
    OwnOpsAreOwn(plugin, cs, key);
    OwnOpsAreOwn(plugin, own, key);
    RC.ResultsUpToMisses(shared, full);
    RC.ResultsIgnoreVictims(RC.OpsOn(shared, full), full);
    RC.ResultsIgnoreVictims(RC.OpsOn(private, full), full);
    if |KeysCached(cs)| <= 10_000 {
      FewKeysCached(plugin, cs, own);
    }
    if RC.NoEviction(shared) && RC.NoEviction(private) {
      RC.KeysAreIndependent(shared, private, full);
    }
  }

  /** Whatever the other plugins do, a hit returns the entry of the plugin's own latest `set` of that
      key. */
  lemma HitsAreOwn(plugin: string, cs: seq<CacheCall>, key: string, now: nat) returns (i: nat)
    requires '\0' !in plugin && forall c | c in cs && !c.CacheTick? :: '\0' !in c.plugin
    requires RC.Clock(CacheRun(cs)) <= now
    requires RC.Lookup(RC.Run(CacheRun(cs)), NamespaceKey(plugin, key), now).Some?
    ensures i < |cs| && cs[i].CacheSet? && cs[i].plugin == plugin && cs[i].key == key
    ensures RC.Lookup(RC.Run(CacheRun(cs)), NamespaceKey(plugin, key), now) == Some(cs[i].entry)
    ensures forall j | i < j < |cs| :: !(cs[j].CacheSet? && cs[j].plugin == plugin && cs[j].key == key)
  {
    var run := CacheRun(cs);
    i := RC.HitIsLatestSet(run, NamespaceKey(plugin, key), now);
    assert run[i] == CacheEvent(cs[i]);
    assert cs[i] in cs;
    NamespaceInjective(cs[i].plugin, cs[i].key, plugin, key);
    forall j | i < j < |cs| ensures !(cs[j].CacheSet? && cs[j].plugin == plugin && cs[j].key == key) {
      assert run[j] == CacheEvent(cs[j]);
    }
  }
}
