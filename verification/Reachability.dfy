/**
 Which routes of a table can answer a request, and under which names. A route answers exactly the
 requests of its method for which its pattern is the most specific one, unless a later route has
 displaced it; and there is such a request unless a longer wildcard route takes all of them.
 */
module Reachability {
  import opened Text
  import opened PathTemplates
  import opened Routing
  import opened TemplatePatterns

  /** Every route carries its position in the table. */
  ghost predicate Numbered(rs: seq<Route>) { forall k | 0 <= k < |rs| :: rs[k].index == k }

  predicate Collide(r: Route, s: Route) { SamePattern(r.segs, s.segs) && r.httpMethod == s.httpMethod }

  /** A later route has the same pattern and method. */
  ghost predicate Displaced(rs: seq<Route>, i: nat)
    requires i < |rs|
  {
    exists j | i < j < |rs| :: Collide(rs[i], rs[j])
  }

  // ---------- The last one wins ----------

  lemma {:induction false} LastWins(rs: seq<Route>, p: seq<Segment>, m: string, i: nat)
    requires Numbered(rs)
    ensures IndexAt(rs, p, m) == Some(i)
       <==> i < |rs| && SamePattern(p, rs[i].segs) && rs[i].httpMethod == m
            && forall j | i < j < |rs| && SamePattern(p, rs[j].segs) :: rs[j].httpMethod != m
  {
    if rs != [] {
      var front := rs[..|rs| - 1];
      LastWins(front, p, m, i);
      assert forall j | 0 <= j < |front| :: front[j] == rs[j];
    }
  }

  /** A route keeps its own place in the trie exactly when no later one collides with it. */
  lemma {:induction false} KeptIff(rs: seq<Route>, i: nat)
    requires Numbered(rs) && i < |rs|
    ensures IndexAt(rs, rs[i].segs, rs[i].httpMethod) == Some(i) <==> !Displaced(rs, i)
  {
    LastWins(rs, rs[i].segs, rs[i].httpMethod, i);
    SamePatternReflexive(rs[i].segs);
  }

  lemma {:induction false} SamePatternReflexive(p: seq<Segment>)
    ensures SamePattern(p, p)
  {
    if p != [] { SamePatternReflexive(p[1..]); }
  }

  // ---------- Patterns stand for each other ----------

  lemma {:induction false} BeginsByPattern(p: seq<Segment>, q: seq<Segment>, segs: seq<Segment>)
    requires SamePattern(p, q)
    ensures Begins(p, segs) <==> Begins(q, segs)
    decreases |p|
  {
    if p != [] && segs != [] { BeginsByPattern(p[1..], q[1..], segs[1..]); }
  }

  lemma {:induction false} BeforeByPattern(p: seq<Segment>, q: seq<Segment>, r: seq<Segment>)
    requires SamePattern(p, q) && Before(p, r)
    ensures Before(q, r)
    decreases |p|
  {
    if SameKind(p[0], r[0]) && Before(p[1..], r[1..]) { BeforeByPattern(p[1..], q[1..], r[1..]); }
  }

  lemma MostSpecificByPattern(rs: seq<Route>, path: seq<string>, p: seq<Segment>, q: seq<Segment>)
    requires MostSpecific(rs, path, p) && SamePattern(p, q)
    ensures MostSpecific(rs, path, q)
  {
    FitsByPattern(p, q, path);
    SamePatternSymmetric(p, q);
    if p != [] {
      var r :| r in rs && Begins(p, r.segs);
      BeginsByPattern(p, q, r.segs);
    }
    forall t | Fits(t, path) && Planted(rs, t) ensures SamePattern(q, t) || Before(q, t) {
      if SamePattern(p, t) { SamePatternTransitive(q, p, t); } else { BeforeByPattern(p, q, t); }
    }
  }

  lemma {:induction false} FirstNameByPattern(rs: seq<Route>, p: seq<Segment>, q: seq<Segment>)
    requires p != [] && SamePattern(p, q)
    ensures q != [] && FirstName(rs, p) == FirstName(rs, q)
  {
    if rs != [] {
      FirstNameByPattern(rs[..|rs| - 1], p, q);
      BeginsByPattern(p, q, rs[|rs| - 1].segs);
    }
  }

  lemma {:induction false} SamePatternSnoc(p: seq<Segment>, q: seq<Segment>, s: Segment, t: Segment)
    requires SamePattern(p, q) && SameKind(s, t)
    ensures SamePattern(p + [s], q + [t])
    decreases |p|
  {
    if p == [] {
      assert p + [s] == [s] && q + [t] == [t];
    } else {
      SamePatternSnoc(p[1..], q[1..], s, t);
      assert (p + [s])[1..] == p[1..] + [s] && (q + [t])[1..] == q[1..] + [t];
    }
  }

  lemma {:induction false} CapturesByPattern(rs: seq<Route>, x: seq<Segment>, y: seq<Segment>,
                                             p: seq<Segment>, q: seq<Segment>, path: seq<string>)
    requires SamePattern(x, y) && SamePattern(p, q) && Fits(p, path)
    ensures Fits(q, path) && Captures(rs, x, p, path) == Captures(rs, y, q, path)
    decreases |p|
  {
    FitsByPattern(p, q, path);
    if p != [] {
      SamePatternSnoc(x, y, p[0], q[0]);
      FirstNameByPattern(rs, x + [p[0]], y + [q[0]]);
      if !p[0].Tail? {
        CapturesByPattern(rs, x + [p[0]], y + [q[0]], p[1..], q[1..], path[1..]);
      }
    }
  }

  // ---------- Which requests a route answers ----------

  ghost predicate AnsweredBy(rs: seq<Route>, path: seq<string>, m: string, i: nat) {
    var found := Lookup(Build(rs), path, m);
    found.Found? && found.index == i
  }

  /** A route answers exactly the requests of its method for which its pattern is the most specific,
      and none at all once it is displaced. */
  lemma AnswerIff(rs: seq<Route>, i: nat, path: seq<string>, m: string)
    requires Numbered(rs) && i < |rs|
    ensures AnsweredBy(rs, path, m, i)
       <==> m == rs[i].httpMethod && MostSpecific(rs, path, rs[i].segs) && !Displaced(rs, i)
  {
    var own := rs[i].segs;
    var p := LookupExact(rs, path, m);
    LastWins(rs, p, m, i);
    if AnsweredBy(rs, path, m, i) {
      MostSpecificByPattern(rs, path, p, own);
      forall j | i < j < |rs| ensures !Collide(rs[i], rs[j]) {
        if SamePattern(own, rs[j].segs) { SamePatternTransitive(p, own, rs[j].segs); }
      }
    }
    if m == rs[i].httpMethod && MostSpecific(rs, path, own) && !Displaced(rs, i) {
      OneMostSpecific(rs, path, p, own);
      SamePatternSymmetric(p, own);
      forall j | i < j < |rs| && SamePattern(p, rs[j].segs) ensures rs[j].httpMethod != m {
        SamePatternTransitive(own, p, rs[j].segs);
        assert !Collide(rs[i], rs[j]);
      }
    }
  }

  /** A route that answers reports the values under its own names exactly when, at each parameter, the
      first route through that place uses the same name. */
  lemma NamesIff(rs: seq<Route>, i: nat, path: seq<string>, m: string)
    requires Numbered(rs) && i < |rs| && AnsweredBy(rs, path, m, i)
    ensures Fits(rs[i].segs, path)
    ensures Lookup(Build(rs), path, m).params == OwnCaptures(rs[i].segs, path)
       <==> forall k | 0 <= k < |rs[i].segs| :: OwnName(rs, [], rs[i].segs, k)
  {
    var own := rs[i].segs;
    AnswerIff(rs, i, path, m);
    var p := LookupExact(rs, path, m);
    OneMostSpecific(rs, path, p, own);
    CapturesByPattern(rs, [], [], p, own, path);
    assert [] + own == own;
    OwnNamesIff(rs, [], own, path);
  }

  // ---------- Routes that no request reaches ----------

  /** `q` continues the beginning of `p` with parameters where `p` has its wildcard, and then ends in
      a wildcard as well. */
  predicate Shadows(q: seq<Segment>, p: seq<Segment>) {
    && p != [] && |q| > |p| && p[|p| - 1].Tail? && q[|q| - 1].Tail?
    && Begins(p[..|p| - 1], q)
    && forall k | |p| - 1 <= k < |q| - 1 :: q[k].Single?
  }

  lemma {:induction false} SinglesFit(q: seq<Segment>, path: seq<string>) returns (t: seq<Segment>)
    requires |q| > 1 && q[|q| - 1].Tail? && path != []
    requires forall k | 0 <= k < |q| - 1 :: q[k].Single?
    ensures t != [] && t[0].Single? && Fits(t, path) && Begins(t, q)
    decreases |q|
  {
    var rest: seq<Segment> := [];
    if |path| > 1 && |q| == 2 {
      rest := q[1..];
      WholeBegins(rest);
    } else if |path| > 1 {
      rest := SinglesFit(q[1..], path[1..]);
    }
    t := [q[0]] + rest;
    assert t[1..] == rest;
  }

  /** Whatever path `p` fits, something more specific on the way to `q` fits as well. */
  lemma {:induction false} ShadowFits(q: seq<Segment>, p: seq<Segment>, path: seq<string>) returns (t: seq<Segment>)
    requires Shadows(q, p) && Fits(p, path)
    ensures Fits(t, path) && Begins(t, q) && Before(t, p)
    decreases |p|
  {
    if |p| == 1 {
      t := SinglesFit(q, path);
    } else {
      var front := p[..|p| - 1];
      assert front[1..] == p[1..][..|p| - 2];
      assert !p[0].Tail?;
      assert SameKind(p[0], q[0]) && Begins(front[1..], q[1..]);
      var rest := ShadowFits(q[1..], p[1..], path[1..]);
      t := [q[0]] + rest;
      assert t[1..] == rest;
    }
  }

  lemma ShadowedIsUnreached(rs: seq<Route>, p: seq<Segment>, j: nat, path: seq<string>)
    requires j < |rs| && Shadows(rs[j].segs, p)
    ensures !MostSpecific(rs, path, p)
  {
    if MostSpecific(rs, path, p) {
      var t := ShadowFits(rs[j].segs, p, path);
      assert rs[j] in rs && Planted(rs, t);
      BeforeIsStrict(t, p);
      if SamePattern(p, t) { SamePatternSymmetric(p, t); }
    }
  }

  // ---------- A path for every other route ----------

  /** No route has this text, and none is as long. */
  ghost predicate Unused(rs: seq<Route>, text: string, size: nat) {
    forall r | r in rs :: |r.segs| < size && NotText(r.segs, text)
  }

  ghost predicate NotText(p: seq<Segment>, text: string) {
    forall k | 0 <= k < |p| && p[k].Fixed? :: |p[k].text| < |text|
  }

  lemma {:induction false} LongText(p: seq<Segment>, least: string) returns (text: string)
    requires IsPart(least)
    ensures IsPart(text) && |text| >= |least| && NotText(p, text)
  {
    text := least;
    if p != [] {
      text := LongText(p[1..], least);
      if p[0].Fixed? && |p[0].text| >= |text| {
        text := seq(|p[0].text| + 1, i => 'x');
      }
    }
  }

  lemma {:induction false} UnusedExists(rs: seq<Route>) returns (text: string, size: nat)
    ensures IsPart(text) && size > 0 && Unused(rs, text, size)
  {
    if rs == [] {
      text, size := "x", 1;
    } else {
      text, size := UnusedExists(rs[1..]);
      text := LongText(rs[0].segs, text);
      if size <= |rs[0].segs| { size := |rs[0].segs| + 1; }
      assert rs == [rs[0]] + rs[1..];
    }
  }

  /** Unused text for every parameter, and a long row of it for a wildcard. */
  function Fresh(p: seq<Segment>, text: string, size: nat): seq<string>
    decreases |p|
  {
    if p == [] then []
    else if p[0].Tail? then seq(size, i => text)
    else [if p[0].Fixed? then p[0].text else text] + Fresh(p[1..], text, size)
  }

  lemma {:induction false} FreshFits(p: seq<Segment>, text: string, size: nat)
    requires Proper(p) && IsPart(text) && size > 0
    ensures Fits(p, Fresh(p, text, size)) && AllParts(Fresh(p, text, size))
    decreases |p|
  {
    if p != [] && !p[0].Tail? {
      FreshFits(p[1..], text, size);
      assert Fresh(p, text, size)[1..] == Fresh(p[1..], text, size);
    }
  }

  /** What fits a long row of unused text is parameters and a wildcard. */
  lemma {:induction false} RowFits(q: seq<Segment>, text: string, size: nat)
    requires NotText(q, text) && |q| < size && Fits(q, seq(size, i => text))
    ensures q != [] && q[|q| - 1].Tail? && forall k | 0 <= k < |q| - 1 :: q[k].Single?
    decreases size
  {
    var row := seq(size, i => text);
    assert row[0] == text;
    if !q[0].Tail? {
      assert row[1..] == seq(size - 1, i => text);
      RowFits(q[1..], text, size - 1);
      assert forall k | 1 <= k < |q| :: q[k] == q[1..][k - 1];
    }
  }

  /** Whatever fits the fresh path is as specific, less specific, or shadows the pattern. */
  lemma {:induction false} FreshIsBest(p: seq<Segment>, q: seq<Segment>, text: string, size: nat)
    requires Proper(p) && NotText(q, text) && |q| < size && Fits(q, Fresh(p, text, size))
    ensures SamePattern(p, q) || Before(p, q) || Shadows(q, p)
    decreases |p|
  {
    if p != [] {
      var path := Fresh(p, text, size);
      if p[0].Tail? {
        RowFits(q, text, size);
        assert p == [p[0]];
        if |q| == 1 { assert SamePattern(p[1..], q[1..]); } else { assert Begins(p[..0], q); }
      } else if SameKind(p[0], q[0]) {
        assert path[1..] == Fresh(p[1..], text, size);
        FreshIsBest(p[1..], q[1..], text, size);
        if Shadows(q[1..], p[1..]) {
          assert p[..|p| - 1][1..] == p[1..][..|p| - 2];
          assert forall k | 1 <= k < |q| :: q[k] == q[1..][k - 1];
        }
      }
    }
  }

  lemma {:induction false} BeginsAt(p: seq<Segment>, q: seq<Segment>, k: nat)
    requires Begins(p, q) && k < |p|
    ensures k < |q| && SameKind(p[k], q[k])
    decreases |p|
  {
    if k > 0 { BeginsAt(p[1..], q[1..], k - 1); }
  }

  lemma BeginsNotText(p: seq<Segment>, q: seq<Segment>, text: string)
    requires Begins(p, q) && NotText(q, text)
    ensures NotText(p, text) && |p| <= |q|
  {
    forall k | 0 <= k < |p| && p[k].Fixed? ensures |p[k].text| < |text| { BeginsAt(p, q, k); }
    if p != [] { BeginsEnd(p, q); }
  }

  /** The beginning of a route that shadows is the whole route. */
  lemma ShadowIsRoute(q: seq<Segment>, segs: seq<Segment>, p: seq<Segment>)
    requires Begins(q, segs) && Shadows(q, p) && Proper(segs)
    ensures Shadows(segs, p)
  {
    BeginsEnd(q, segs);
    assert |q| == |segs|;
    forall k | 0 <= k < |q| ensures SameKind(q[k], segs[k]) { BeginsAt(q, segs, k); }
    SamePatternIff(q, segs);
    BeginsOfSame(p[..|p| - 1], q, segs);
  }

  lemma {:induction false} BeginsOfSame(p: seq<Segment>, q: seq<Segment>, segs: seq<Segment>)
    requires Begins(p, q) && SamePattern(q, segs)
    ensures Begins(p, segs)
    decreases |p|
  {
    if p != [] { BeginsOfSame(p[1..], q[1..], segs[1..]); }
  }

  ghost predicate Shadowed(rs: seq<Route>, p: seq<Segment>) { exists j | 0 <= j < |rs| :: Shadows(rs[j].segs, p) }

  /** Every route that is not shadowed is the most specific one for some request path. */
  lemma PathForRoute(rs: seq<Route>, i: nat) returns (path: seq<string>)
    requires i < |rs| && !Shadowed(rs, rs[i].segs) && forall r | r in rs :: Proper(r.segs)
    ensures AllParts(path) && MostSpecific(rs, path, rs[i].segs)
  {
    var text, size := UnusedExists(rs);
    var p := rs[i].segs;
    assert rs[i] in rs;
    path := Fresh(p, text, size);
    FreshFits(p, text, size);
    WholeBegins(p);
    forall q | Fits(q, path) && Planted(rs, q) ensures SamePattern(p, q) || Before(p, q) {
      if q != [] {
        var r :| r in rs && Begins(q, r.segs);
        BeginsNotText(q, r.segs, text);
        FreshIsBest(p, q, text, size);
        if Shadows(q, p) { ShadowIsRoute(q, r.segs, p); }
      } else {
        FreshIsBest(p, q, text, size);
      }
    }
  }

  ghost predicate Reached(rs: seq<Route>, i: nat) {
    exists path: string, m :: AnsweredBy(rs, Segments(path), m, i)
  }

  /** Some request reaches a route exactly when no later one collides with it and no wildcard route
      shadows it. */
  lemma ReachedIff(rs: seq<Route>, i: nat)
    requires Numbered(rs) && i < |rs| && forall r | r in rs :: Proper(r.segs)
    ensures Reached(rs, i) <==> !Displaced(rs, i) && !Shadowed(rs, rs[i].segs)
  {
    forall path: string, m | AnsweredBy(rs, Segments(path), m, i) ensures !Displaced(rs, i) && !Shadowed(rs, rs[i].segs) {
      AnswerIff(rs, i, Segments(path), m);
      if j :| 0 <= j < |rs| && Shadows(rs[j].segs, rs[i].segs) {
        ShadowedIsUnreached(rs, rs[i].segs, j, Segments(path));
      }
    }
    if !Displaced(rs, i) && !Shadowed(rs, rs[i].segs) {
      var path := PathForRoute(rs, i);
      PartsAreSegments(path);
      AnswerIff(rs, i, path, rs[i].httpMethod);
      assert AnsweredBy(rs, Segments(Join(path, '/')), rs[i].httpMethod, i);
    }
  }
}
