/**
 What the compiler's route checks mean to the router. An accepted operation keeps a place of its own
 in the trie exactly when no later entry of the table has the same kinds of segments and the same HTTP
 method, and it can be reached exactly when, in addition, no wildcard operation shadows it. Where the
 compiler's comparison of texts and the router's comparison of segments differ, accepted operations
 displace each other.
 */
module RoutedTables {
  import opened Lex
  import opened Sorting
  import opened Text
  import opened PathTemplates
  import opened Routing
  import opened TemplatePatterns
  import opened Reachability
  import Routes

  /** Message operations are served over HTTP methods. */
  function HttpMethod(m: string): string {
    if m == "SEND" then "POST" else if m == "RECEIVE" then "GET" else m
  }

  function RouteOf(c: Routes.CompiledOperation): Route { Route(ParseTemplate(c.path), HttpMethod(c.httpMethod), c.index) }

  function RoutesOf(table: seq<Routes.CompiledOperation>): seq<Route> { Map(RouteOf, table) }

  /** The routes that the data plane inserts for the specs, in order. */
  function SpecRoutes(specs: seq<Routes.Spec>): seq<Route> { RoutesOf(Routes.Table(specs)) }

  lemma RoutesAreNumbered(specs: seq<Routes.Spec>)
    ensures |SpecRoutes(specs)| == |Routes.Table(specs)| && Numbered(SpecRoutes(specs))
  {
    Routes.TableOrdered(specs);
  }

  /** Entry `i` is inserted under its template; sending a message becomes POST, receiving one becomes
      GET, and every other method stays. */
  lemma RouteOfEntry(specs: seq<Routes.Spec>, i: nat)
    requires i < |Routes.Table(specs)|
    ensures i < |SpecRoutes(specs)|
    ensures var c, r := Routes.Table(specs)[i], SpecRoutes(specs)[i];
            && r.index == i && r.segs == ParseTemplate(c.path)
            && (c.httpMethod == "SEND" ==> r.httpMethod == "POST") && (c.httpMethod == "RECEIVE" ==> r.httpMethod == "GET")
            && (c.httpMethod != "SEND" && c.httpMethod != "RECEIVE" ==> r.httpMethod == c.httpMethod)
  {
    RoutesAreNumbered(specs);
  }

  predicate Differ(x: Routes.CompiledOperation, y: Routes.CompiledOperation) {
    Normalize(x.path) != Normalize(y.path) || x.httpMethod != y.httpMethod
  }

  /** In an accepted table no two entries share normal form and method. */
  lemma TableDiffers(checks: Routes.Checks, specs: seq<Routes.Spec>)
    requires Routes.PassSpecs(checks, [], specs) == None
    ensures PairwiseBy(Differ, Routes.Table(specs))
  {
    Routes.AcceptsIff(checks, specs);
    var ds, compiler := Routes.Flatten(specs), Routes.Compiler(Routes.RootMcp(specs));
    var ops := Map(compiler, ds);
    forall i, j | 0 <= i < j < |ops| ensures Differ(ops[i], ops[j]) {
      assert Routes.Compatible(ds[i], ds[j]);
    }
    SortPermutes(Routes.KeyLe, ops);
    PairwisePermutes(Differ, ops, Sort(Routes.KeyLe, ops));
  }

  lemma EntryIsDeclared(specs: seq<Routes.Spec>, i: nat) returns (d: Routes.Declared)
    requires i < |Routes.Table(specs)|
    ensures d in Routes.Flatten(specs)
    ensures Routes.Table(specs)[i].path == d.op.path && Routes.Table(specs)[i].httpMethod == d.op.httpMethod
  {
    var c := Routes.Unnumbered(Routes.Table(specs)[i]);
    assert Map(Routes.Unnumbered, Routes.Table(specs))[i] == c;
    Routes.TableHasEntry(specs, c);
    var ops := Map(Routes.Compiler(Routes.RootMcp(specs)), Routes.Flatten(specs));
    var k :| 0 <= k < |ops| && ops[k] == c;
    d := Routes.Flatten(specs)[k];
  }

  lemma EntryIsTemplate(checks: Routes.Checks, specs: seq<Routes.Spec>, i: nat) returns (ts: seq<Token>)
    requires Routes.PassSpecs(checks, [], specs) == None && i < |Routes.Table(specs)|
    ensures Template(checks.unicode, ts) && Routes.Table(specs)[i].path == Print(ts)
  {
    Routes.AcceptsIff(checks, specs);
    var d := EntryIsDeclared(specs, i);
    assert Routes.LocalOk(checks, d);
    ts := ValidateReads(checks.unicode, d.op.path);
  }

  // ---------- Exactly when operations are kept, and reached ----------

  /** The templates of the table's paths, in order. */
  ghost predicate Reads(unicode: char -> bool, table: seq<Routes.CompiledOperation>, templates: seq<seq<Token>>) {
    && |templates| == |table|
    && forall i | 0 <= i < |table| :: Template(unicode, templates[i]) && table[i].path == Print(templates[i])
  }

  /** What decides an entry's place: the kinds of its segments, and its HTTP method. */
  function Place(table: seq<Routes.CompiledOperation>, templates: seq<seq<Token>>, j: nat): (seq<Segment>, string)
    requires |table| == |templates| && j < |table|
  {
    (Kinds(templates[j]), HttpMethod(table[j].httpMethod))
  }

  /** After a successful compile, an operation keeps its own place in the trie exactly when no later
      entry has the same kinds of segments and the same HTTP method. */
  lemma OperationKeptIff(checks: Routes.Checks, specs: seq<Routes.Spec>, templates: seq<seq<Token>>, i: nat)
    requires Routes.PassSpecs(checks, [], specs) == None && i < |Routes.Table(specs)|
    requires Reads(checks.unicode, Routes.Table(specs), templates)
    ensures IndexAt(SpecRoutes(specs), RouteOf(Routes.Table(specs)[i]).segs, RouteOf(Routes.Table(specs)[i]).httpMethod) == Some(i)
       <==> forall j | i < j < |templates| :: Place(Routes.Table(specs), templates, j) != Place(Routes.Table(specs), templates, i)
  {
    var table, rs := Routes.Table(specs), SpecRoutes(specs);
    RoutesAreNumbered(specs);
    KeptIff(rs, i);
    forall j | 0 <= j < |table|
      ensures Collide(rs[i], rs[j]) <==> Place(table, templates, j) == Place(table, templates, i)
    {
      PatternByGroups(checks.unicode, templates[i], templates[j]);
    }
  }

  /** Why accepted operations collide: one is a message operation next to an HTTP one, the slashes are
      laid out differently, or parameters enclose different segments. */
  lemma CollisionCause(checks: Routes.Checks, specs: seq<Routes.Spec>, i: nat, j: nat, a: seq<Token>, b: seq<Token>)
    requires Routes.PassSpecs(checks, [], specs) == None && i < j < |Routes.Table(specs)|
    requires Template(checks.unicode, a) && Routes.Table(specs)[i].path == Print(a)
    requires Template(checks.unicode, b) && Routes.Table(specs)[j].path == Print(b)
    requires Collide(RouteOf(Routes.Table(specs)[i]), RouteOf(Routes.Table(specs)[j]))
    ensures |Groups(a)| == |Groups(b)|
    ensures || Routes.Table(specs)[i].httpMethod != Routes.Table(specs)[j].httpMethod
            || Layout(a) != Layout(b)
            || exists k | 0 <= k < |Groups(a)| :: Enclosed(Groups(a)[k]) && Skeleton(Groups(a)[k]) != Skeleton(Groups(b)[k])
  {
    TableDiffers(checks, specs);
    assert Differ(Routes.Table(specs)[i], Routes.Table(specs)[j]);
    NormalizeIff(checks.unicode, a, b);
    SamePatternIsSkeletonIff(checks.unicode, a, b);
  }

  /** The root, or segments each led in by one slash. */
  ghost predicate Tidy(ts: seq<Token>) {
    ts == [SLASH] || (Groups(ts) != [] && Split(ts, SLASH) == [[]] + Groups(ts))
  }

  /** Tidy, and parameters enclose a segment only by being the whole of it. */
  ghost predicate TameAs(unicode: char -> bool, path: string, ts: seq<Token>) {
    Template(unicode, ts) && path == Print(ts) && Tidy(ts) && forall g | g in Groups(ts) && Enclosed(g) :: |g| == 1
  }

  ghost predicate Tame(unicode: char -> bool, path: string) { exists ts :: TameAs(unicode, path, ts) }

  lemma TidyLayouts(a: seq<Token>, b: seq<Token>)
    requires Tidy(a) && Tidy(b) && |Groups(a)| == |Groups(b)|
    ensures Layout(a) == Layout(b)
  {
    OnlySlashes([SLASH]);
    if a != [SLASH] {
      LayoutOfTidy(a);
      LayoutOfTidy(b);
    }
  }

  lemma LayoutOfTidy(ts: seq<Token>)
    requires Split(ts, SLASH) == [[]] + Groups(ts)
    ensures Layout(ts) == [false] + seq(|Groups(ts)|, i => true)
  {
    forall k | 1 <= k < |Layout(ts)| ensures Layout(ts)[k] {
      assert Groups(ts)[k - 1] in Groups(ts);
    }
  }

  lemma SingleGroups(g: seq<Token>, h: seq<Token>)
    requires GroupKind(g) == GroupKind(h) && Enclosed(g) && |g| == 1 && (Enclosed(h) ==> |h| == 1)
    ensures Skeleton(g) == Skeleton(h)
  {
    assert g == [g[0]] && h == [h[0]];
  }

  /** Every operation of a table of tame paths and plain HTTP methods keeps its own place. */
  lemma EveryOperationKept(checks: Routes.Checks, specs: seq<Routes.Spec>, i: nat)
    requires Routes.PassSpecs(checks, [], specs) == None && i < |Routes.Table(specs)|
    requires forall d | d in Routes.Flatten(specs) ::
               Tame(checks.unicode, d.op.path) && HttpMethod(d.op.httpMethod) == d.op.httpMethod
    ensures var c := Routes.Table(specs)[i];
            IndexAt(SpecRoutes(specs), ParseTemplate(c.path), c.httpMethod) == Some(i)
  {
    var table, rs := Routes.Table(specs), SpecRoutes(specs);
    RoutesAreNumbered(specs);
    KeptIff(rs, i);
    var d := EntryIsDeclared(specs, i);
    var a :| TameAs(checks.unicode, table[i].path, a);
    forall j | i < j < |table| ensures !Collide(rs[i], rs[j]) {
      var e := EntryIsDeclared(specs, j);
      var b :| TameAs(checks.unicode, table[j].path, b);
      if Collide(rs[i], rs[j]) {
        TameDoNotCollide(checks, specs, i, j, a, b);
      }
    }
  }

  lemma TameDoNotCollide(checks: Routes.Checks, specs: seq<Routes.Spec>, i: nat, j: nat, a: seq<Token>, b: seq<Token>)
    requires Routes.PassSpecs(checks, [], specs) == None && i < j < |Routes.Table(specs)|
    requires TameAs(checks.unicode, Routes.Table(specs)[i].path, a) && TameAs(checks.unicode, Routes.Table(specs)[j].path, b)
    requires Routes.Table(specs)[i].httpMethod == Routes.Table(specs)[j].httpMethod
    ensures !Collide(RouteOf(Routes.Table(specs)[i]), RouteOf(Routes.Table(specs)[j]))
  {
    if Collide(RouteOf(Routes.Table(specs)[i]), RouteOf(Routes.Table(specs)[j])) {
      CollisionCause(checks, specs, i, j, a, b);
      TidyLayouts(a, b);
      PatternByGroups(checks.unicode, a, b);
      var k :| 0 <= k < |Groups(a)| && Enclosed(Groups(a)[k]) && Skeleton(Groups(a)[k]) != Skeleton(Groups(b)[k]);
      assert Kinds(a)[k] == Kinds(b)[k] && Groups(a)[k] in Groups(a) && Groups(b)[k] in Groups(b);
      SingleGroups(Groups(a)[k], Groups(b)[k]);
    }
  }

  /** After a successful compile, some request reaches an operation exactly when no later entry
      collides with it and no wildcard operation shadows it. */
  lemma OperationReachedIff(checks: Routes.Checks, specs: seq<Routes.Spec>, i: nat)
    requires Routes.PassSpecs(checks, [], specs) == None && i < |Routes.Table(specs)|
    ensures i < |SpecRoutes(specs)|
    ensures Reached(SpecRoutes(specs), i)
       <==> !Displaced(SpecRoutes(specs), i) && !Shadowed(SpecRoutes(specs), SpecRoutes(specs)[i].segs)
  {
    var rs := SpecRoutes(specs);
    RoutesAreNumbered(specs);
    forall r | r in rs ensures Proper(r.segs) {
      var k :| 0 <= k < |rs| && rs[k] == r;
      var ts := EntryIsTemplate(checks, specs, k);
      TemplateIsProper(checks.unicode, ts);
    }
    ReachedIff(rs, i);
  }

  // ---------- Two operations compiled together ----------

  function Lenient(unicode: char -> bool): Routes.Checks {
    Routes.Checks(unicode, (op: Routes.Operation) => false, (op: Routes.Operation) => false)
  }

  function Two(x: Routes.Operation, y: Routes.Operation): seq<Routes.Spec> { [Routes.Spec([], [], None, [x, y])] }

  /** The two operations are accepted together, and `x` comes first in the table. */
  ghost predicate Compiles(unicode: char -> bool, x: Routes.Operation, y: Routes.Operation) {
    var table := Routes.Table(Two(x, y));
    && Routes.PassSpecs(Lenient(unicode), [], Two(x, y)) == None
    && |table| == 2
    && table[0].path == x.path && table[0].httpMethod == x.httpMethod
    && table[1].path == y.path && table[1].httpMethod == y.httpMethod
  }

  function Operation(path: string, httpMethod: string): Routes.Operation {
    Routes.PlainOperation(path).(httpMethod := httpMethod)
  }

  lemma TwoCompile(unicode: char -> bool, a: seq<Token>, m: string, b: seq<Token>, n: string)
    requires Template(unicode, a) && Template(unicode, b) && (Skeleton(a) != Skeleton(b) || m != n)
    requires if Print(a) == Print(b) then StrLe(m, n) else StrLe(Print(a), Print(b))
    ensures Compiles(unicode, Operation(Print(a), m), Operation(Print(b), n))
  {
    var x, y := Operation(Print(a), m), Operation(Print(b), n);
    var d, e := Routes.Declared([], [], x), Routes.Declared([], [], y);
    TwoFlatten(x, y);
    TwoAreGood(unicode, a, m, b, n, d, e);
    Routes.AcceptsIff(Lenient(unicode), Two(x, y));
    var compiler := Routes.Compiler(false);
    SortTwo(compiler(d), compiler(e));
    assert Map(compiler, [d, e]) == [compiler(d), compiler(e)];
    assert Routes.RootMcp(Two(x, y)) == false;
  }

  lemma TwoFlatten(x: Routes.Operation, y: Routes.Operation)
    ensures Routes.Flatten(Two(x, y)) == [Routes.Declared([], [], x), Routes.Declared([], [], y)]
  {
    FlatOne(Routes.Declare, Two(x, y)[0]);
  }

  lemma TwoAreGood(unicode: char -> bool, a: seq<Token>, m: string, b: seq<Token>, n: string,
                   d: Routes.Declared, e: Routes.Declared)
    requires Template(unicode, a) && Template(unicode, b) && (Skeleton(a) != Skeleton(b) || m != n)
    requires d == Routes.Declared([], [], Operation(Print(a), m)) && e == Routes.Declared([], [], Operation(Print(b), n))
    ensures Routes.Good(Lenient(unicode), [d, e])
  {
    ValidateAccepts(unicode, a);
    ValidateAccepts(unicode, b);
    NormalizeIff(unicode, a, b);
    assert Routes.Compatible(d, e);
  }

  lemma SortTwo(c: Routes.CompiledOperation, d: Routes.CompiledOperation)
    requires Routes.KeyLe(c, d)
    ensures Sort(Routes.KeyLe, [c, d]) == [c, d]
  {
    assert [c, d][1..] == [d] && [d][1..] == [];
    assert Sort(Routes.KeyLe, [d]) == Sorting.Insert(Routes.KeyLe, d, []) == [d];
  }

  lemma {:induction false} BeginningFits(p: seq<Segment>, q: seq<Segment>, path: seq<string>)
    requires Begins(q, p) && Fits(p, path) && Fits(q, path)
    ensures SamePattern(p, q)
    decreases |q|
  {
    if q != [] && !q[0].Tail? { BeginningFits(p[1..], q[1..], path[1..]); }
  }

  /** In a table with one pattern, that pattern is the most specific one wherever it fits. */
  lemma OnePattern(r: Route, s: Route, path: seq<string>)
    requires SamePattern(r.segs, s.segs) && Fits(s.segs, path)
    ensures MostSpecific([r, s], path, s.segs)
  {
    var rs, p := [r, s], s.segs;
    WholeBegins(p);
    assert s in rs;
    forall q | Fits(q, path) && Planted(rs, q) ensures SamePattern(p, q) {
      if q == [] {
        BeginningFits(p, q, path);
      } else {
        var t :| t in rs && Begins(q, t.segs);
        if t == r { BeginsOfSame(q, r.segs, p); }
        BeginningFits(p, q, path);
      }
    }
  }

  /** The operations are accepted together, no request at all reaches `x`, and `y` answers every
      request that `x` is declared for. */
  ghost predicate Displaces(unicode: char -> bool, y: Routes.Operation, x: Routes.Operation) {
    && Compiles(unicode, x, y)
    && !Reached(SpecRoutes(Two(x, y)), 0)
    && forall path | Fits(ParseTemplate(x.path), Segments(path)) ::
         AnsweredBy(SpecRoutes(Two(x, y)), Segments(path), HttpMethod(x.httpMethod), 1)
  }

  lemma PairIsDisplaced(unicode: char -> bool, x: Routes.Operation, y: Routes.Operation)
    requires Compiles(unicode, x, y) && HttpMethod(x.httpMethod) == HttpMethod(y.httpMethod)
    requires SamePattern(ParseTemplate(x.path), ParseTemplate(y.path))
    ensures Displaces(unicode, y, x)
  {
    var rs := SpecRoutes(Two(x, y));
    RoutesAreNumbered(Two(x, y));
    assert rs == [rs[0], rs[1]] && Collide(rs[0], rs[1]);
    forall path: string, m ensures !AnsweredBy(rs, Segments(path), m, 0) {
      AnswerIff(rs, 0, Segments(path), m);
    }
    forall path | Fits(ParseTemplate(x.path), Segments(path))
      ensures AnsweredBy(rs, Segments(path), HttpMethod(x.httpMethod), 1)
    {
      FitsByPattern(rs[0].segs, rs[1].segs, Segments(path));
      OnePattern(rs[0], rs[1], Segments(path));
      AnswerIff(rs, 1, Segments(path), HttpMethod(y.httpMethod));
    }
  }

  // ---------- Accepted operations that displace each other ----------

  /** A trailing slash makes a different path to the compiler and the same one to the router. */
  lemma TrailingSlashCollides(unicode: char -> bool, ts: seq<Token>, m: string)
    requires Template(unicode, ts)
    ensures Displaces(unicode, Operation(Print(ts) + ['/'], m), Operation(Print(ts), m))
  {
    var longer := ts + [SLASH];
    FlatConcat(PrintToken, ts, [SLASH]);
    FlatOne(PrintToken, SLASH);
    assert Print(longer) == Print(ts) + ['/'];
    SlashKeepsTemplate(unicode, ts);
    assert |Skeleton(ts)| != |Skeleton(longer)|;
    PrefixIsLess(Print(ts), ['/']);
    TwoCompile(unicode, ts, m, longer, m);
    SegmentsOfTrailingSlash(Print(ts));
    SamePatternReflexive(ParseTemplate(Print(ts)));
    PairIsDisplaced(unicode, Operation(Print(ts), m), Operation(Print(longer), m));
  }

  lemma SlashKeepsTemplate(unicode: char -> bool, ts: seq<Token>)
    requires Template(unicode, ts)
    ensures Template(unicode, ts + [SLASH])
  {
    var longer := ts + [SLASH];
    forall i | 0 <= i < |longer| && IsWild(longer[i]) ensures IsLastSegment(longer, i) {
      assert IsLastSegment(ts, i);
    }
  }

  lemma PrefixIsLess(s: string, t: string)
    ensures StrLe(s, s + t)
  {
    assert s + [] == s;
    StrConcat(s, s, [], t);
  }

  /** Sending a message displaces posting to the same path, and receiving one displaces reading it. */
  lemma MessageMethodCollides(unicode: char -> bool, ts: seq<Token>)
    requires Template(unicode, ts)
    ensures Displaces(unicode, Operation(Print(ts), "SEND"), Operation(Print(ts), "POST"))
    ensures Displaces(unicode, Operation(Print(ts), "RECEIVE"), Operation(Print(ts), "GET"))
  {
    MethodDisplaces(unicode, ts, "POST", "SEND");
    MethodDisplaces(unicode, ts, "GET", "RECEIVE");
  }

  lemma MethodDisplaces(unicode: char -> bool, ts: seq<Token>, m: string, n: string)
    requires Template(unicode, ts) && m != [] && n != [] && m[0] < n[0] && HttpMethod(m) == HttpMethod(n)
    ensures Displaces(unicode, Operation(Print(ts), n), Operation(Print(ts), m))
  {
    assert Codes(m)[0] < Codes(n)[0];
    TwoCompile(unicode, ts, m, ts, n);
    SamePatternReflexive(ParseTemplate(Print(ts)));
    PairIsDisplaced(unicode, Operation(Print(ts), m), Operation(Print(ts), n));
  }

  /** Any two templates that differ to the compiler and not to the router. */
  lemma OneDisplaces(unicode: char -> bool, a: seq<Token>, b: seq<Token>, m: string)
    requires Template(unicode, a) && Template(unicode, b) && Skeleton(a) != Skeleton(b) && Kinds(a) == Kinds(b)
    ensures || Displaces(unicode, Operation(Print(a), m), Operation(Print(b), m))
            || Displaces(unicode, Operation(Print(b), m), Operation(Print(a), m))
  {
    PatternByGroups(unicode, a, b);
    PatternByGroups(unicode, b, a);
    StrOrder(Print(a), Print(b), Print(a));
    StrOrder(m, m, m);
    if StrLe(Print(a), Print(b)) {
      TwoCompile(unicode, a, m, b, m);
      PairIsDisplaced(unicode, Operation(Print(a), m), Operation(Print(b), m));
    } else {
      TwoCompile(unicode, b, m, a, m);
      PairIsDisplaced(unicode, Operation(Print(b), m), Operation(Print(a), m));
    }
  }

  /** Whatever stands between two parameters that enclose a segment, the segment is one parameter to
      the router: `/{a}-{b}` and `/{id}` are accepted together and one displaces the other. */
  lemma EnclosedCollides(unicode: char -> bool, name: string, between: seq<Token>, other: string, plain: string, m: string)
    requires Template(unicode, [SLASH] + Between(name, between, other)) && SLASH !in between
    requires Template(unicode, [SLASH] + [Param(plain)]) && !IsWildcard(plain)
    ensures var x := Operation(Print([SLASH] + Between(name, between, other)), m);
            var y := Operation(Print([SLASH] + [Param(plain)]), m);
            Displaces(unicode, x, y) || Displaces(unicode, y, x)
  {
    var a, b := [SLASH] + Between(name, between, other), [SLASH] + [Param(plain)];
    OneGroup(Between(name, between, other));
    OneGroup([Param(plain)]);
    assert !IsWild(Param(other)) by {
      var k := |a| - 1;
      assert a[k] == Param(other) && a[k - 1] != SLASH;
    }
    assert Kinds(a) == Kinds(b) == [Single([])];
    assert |Skeleton(a)| != |Skeleton(b)|;
    OneDisplaces(unicode, a, b, m);
  }

  function Between(name: string, between: seq<Token>, other: string): seq<Token> { [Param(name)] + between + [Param(other)] }

  lemma TwoGroups(g: seq<Token>, h: seq<Token>)
    requires g != [] && SLASH !in g && h != [] && SLASH !in h
    ensures Groups([SLASH] + (g + [SLASH] + h)) == [g, h]
  {
    GroupsCut([], g + [SLASH] + h);
    GroupsCut(g, h);
    SplitOne(h, SLASH);
    FilterOne(NotEmpty<Token>(), h);
    assert [] + [SLASH] == [SLASH];
  }

  function PartAndRest(part: string, rest: string): seq<Token> { [SLASH] + ([Param(part)] + [SLASH] + [Param(rest)]) }

  lemma AllKinds(unicode: char -> bool, all: string)
    requires Template(unicode, [SLASH] + [Param(all)]) && IsWildcard(all)
    ensures var p := ParseTemplate(Print([SLASH] + [Param(all)])); |p| == 1 && p[0].Tail?
  {
    OneGroup([Param(all)]);
    SegmentKind(unicode, [SLASH] + [Param(all)], 0);
  }

  lemma PartAndRestKinds(unicode: char -> bool, part: string, rest: string)
    requires Template(unicode, PartAndRest(part, rest)) && IsWildcard(rest)
    ensures var q := ParseTemplate(Print(PartAndRest(part, rest))); |q| == 2 && q[0].Single? && q[1].Tail?
  {
    var b := PartAndRest(part, rest);
    TwoGroups([Param(part)], [Param(rest)]);
    assert !IsWild(b[1]) by { assert IsWild(b[3]); }
    SegmentKind(unicode, b, 0);
    SegmentKind(unicode, b, 1);
  }

  /** `/{part}/{rest+}` next to `/{all+}`: both are accepted and keep their places, and still no
      request reaches the shorter one. */
  lemma WildcardIsShadowed(unicode: char -> bool, all: string, part: string, rest: string, m: string)
    requires Template(unicode, [SLASH] + [Param(all)]) && IsWildcard(all)
    requires Template(unicode, PartAndRest(part, rest)) && IsWildcard(rest)
    requires StrLess(Print([SLASH] + [Param(all)]), Print(PartAndRest(part, rest)))
    ensures var x, y := Operation(Print([SLASH] + [Param(all)]), m), Operation(Print(PartAndRest(part, rest)), m);
            Compiles(unicode, x, y) && !Displaced(SpecRoutes(Two(x, y)), 0) && !Reached(SpecRoutes(Two(x, y)), 0)
  {
    var a, b := [SLASH] + [Param(all)], PartAndRest(part, rest);
    var x, y := Operation(Print(a), m), Operation(Print(b), m);
    assert |Skeleton(a)| != |Skeleton(b)|;
    TwoCompile(unicode, a, m, b, m);
    AllKinds(unicode, all);
    PartAndRestKinds(unicode, part, rest);
    PairIsShadowed(unicode, x, y);
  }

  lemma PairIsShadowed(unicode: char -> bool, x: Routes.Operation, y: Routes.Operation)
    requires Compiles(unicode, x, y) && Shadows(ParseTemplate(y.path), ParseTemplate(x.path))
    ensures !Displaced(SpecRoutes(Two(x, y)), 0) && !Reached(SpecRoutes(Two(x, y)), 0)
  {
    var rs := SpecRoutes(Two(x, y));
    assert Shadows(rs[1].segs, rs[0].segs);
    OperationReachedIff(Lenient(unicode), Two(x, y), 0);
  }

  // ---------- Names ----------

  /** Two operations on one pattern: requests for the second are reported under the first one's
      parameter names. */
  lemma NamesAreTaken(unicode: char -> bool, x: Routes.Operation, y: Routes.Operation, path: string)
    requires Compiles(unicode, x, y) && HttpMethod(x.httpMethod) != HttpMethod(y.httpMethod)
    requires SamePattern(ParseTemplate(x.path), ParseTemplate(y.path)) && Fits(ParseTemplate(x.path), Segments(path))
    ensures Lookup(Build(SpecRoutes(Two(x, y))), Segments(path), HttpMethod(y.httpMethod))
         == Found(1, OwnCaptures(ParseTemplate(x.path), Segments(path)))
  {
    var rs := SpecRoutes(Two(x, y));
    var own, q := rs[0].segs, Segments(path);
    RoutesAreNumbered(Two(x, y));
    assert rs == [rs[0], rs[1]];
    FitsByPattern(own, rs[1].segs, q);
    OnePattern(rs[0], rs[1], q);
    AnswerIff(rs, 1, q, HttpMethod(y.httpMethod));
    var p := LookupExact(rs, q, HttpMethod(y.httpMethod));
    OneMostSpecific(rs, q, p, rs[1].segs);
    SamePatternSymmetric(own, rs[1].segs);
    SamePatternTransitive(p, rs[1].segs, own);
    CapturesByPattern(rs, [], [], p, own, q);
    FirstRouteCaptures(rs, q);
  }

  lemma FirstRouteCaptures(rs: seq<Route>, path: seq<string>)
    requires |rs| == 2 && Fits(rs[0].segs, path)
    ensures Captures(rs, [], rs[0].segs, path) == OwnCaptures(rs[0].segs, path)
  {
    var own := rs[0].segs;
    forall k | 0 <= k < |own| ensures OwnName(rs, [], own, k) {
      if !own[k].Fixed? { FirstRouteNames(rs, k); }
    }
    WholeBegins(own);
    assert [] + own == own && rs[0] in rs;
    OwnNamesIff(rs, [], own, path);
  }

  lemma FirstRouteNames(rs: seq<Route>, k: nat)
    requires |rs| == 2 && k < |rs[0].segs| && !rs[0].segs[k].Fixed?
    ensures FirstName(rs, [] + rs[0].segs[..k + 1]) == Some(rs[0].segs[k].name)
  {
    var own := rs[0].segs;
    var p := own[..k + 1];
    WholeBegins(own);
    assert own == p + own[k + 1..];
    BeginsPart(p, own[k + 1..], own);
    assert [] + p == p;
    assert rs[..1] == [rs[0]] && [rs[0]][..0] == [];
    assert FirstName([], p) == None;
    assert FirstName([rs[0]], p) == NameOf(own[k]);
  }

  /** Reading and posting to one place under two names: the posted value is reported under the name
      that the reading operation uses. */
  lemma NameIsTaken(unicode: char -> bool, c: char, name: string, other: string, value: string)
    requires PlainChar(c) && IsPart(value) && PlainName(unicode, name) && PlainName(unicode, other)
    requires StrLess(Print(Under(c, name)), Print(Under(c, other)))
    ensures var x, y := Operation(Print(Under(c, name)), "GET"), Operation(Print(Under(c, other)), "POST");
            && Compiles(unicode, x, y)
            && Lookup(Build(SpecRoutes(Two(x, y))), [[c], value], "POST") == Found(1, [(name, value)])
  {
    var get, post := "GET", "POST";
    assert get[0] != post[0];
    UnderCompile(unicode, c, name, get, other, post);
    NameAtValue(unicode, c, name, get, other, post, value);
  }

  predicate PlainChar(c: char) { c != '/' && c != '{' && c != '}' }

  predicate PlainName(unicode: char -> bool, name: string) { TokenOk(unicode, Param(name)) && !IsWildcard(name) }

  function Under(c: char, name: string): seq<Token> { [SLASH] + ([Lit(c)] + [SLASH] + [Param(name)]) }

  lemma UnderCompile(unicode: char -> bool, c: char, name: string, m: string, other: string, n: string)
    requires PlainChar(c) && PlainName(unicode, name) && PlainName(unicode, other) && m != n
    requires StrLess(Print(Under(c, name)), Print(Under(c, other)))
    ensures Compiles(unicode, Operation(Print(Under(c, name)), m), Operation(Print(Under(c, other)), n))
  {
    UnderIsTemplate(unicode, c, name);
    UnderIsTemplate(unicode, c, other);
    TwoCompile(unicode, Under(c, name), m, Under(c, other), n);
  }

  lemma UnderIsTemplate(unicode: char -> bool, c: char, name: string)
    requires PlainChar(c) && PlainName(unicode, name)
    ensures Template(unicode, Under(c, name))
  {
    OneParameter(unicode, [SLASH] + [Lit(c)] + [SLASH], name);
    assert Under(c, name) == [SLASH] + [Lit(c)] + [SLASH] + [Param(name)];
  }

  lemma OneParameter(unicode: char -> bool, pre: seq<Token>, name: string)
    requires PlainName(unicode, name) && forall i | 0 <= i < |pre| :: pre[i].Lit? && TokenOk(unicode, pre[i])
    ensures Template(unicode, pre + [Param(name)])
  {
    var ts := pre + [Param(name)];
    forall i | 0 <= i < |ts| ensures TokenOk(unicode, ts[i]) && (ts[i].Param? ==> i == |pre|) {}
  }

  lemma NameAtValue(unicode: char -> bool, c: char, name: string, m: string, other: string, n: string, value: string)
    requires PlainChar(c) && IsPart(value) && PlainName(unicode, name) && PlainName(unicode, other)
    requires HttpMethod(m) != HttpMethod(n)
    requires Compiles(unicode, Operation(Print(Under(c, name)), m), Operation(Print(Under(c, other)), n))
    ensures Lookup(Build(SpecRoutes(Two(Operation(Print(Under(c, name)), m), Operation(Print(Under(c, other)), n)))),
                   [[c], value], HttpMethod(n)) == Found(1, [(name, value)])
  {
    var x, y := Operation(Print(Under(c, name)), m), Operation(Print(Under(c, other)), n);
    var parts := [[c], value];
    UnderPattern(unicode, c, name);
    UnderPattern(unicode, c, other);
    SamePatternIff(ParseTemplate(x.path), ParseTemplate(y.path));
    PartsAreSegments(parts);
    FitsUnder(c, name, value);
    NamesAreTaken(unicode, x, y, Join(parts, '/'));
  }

  lemma UnderPattern(unicode: char -> bool, c: char, name: string)
    requires PlainChar(c) && PlainName(unicode, name)
    ensures ParseTemplate(Print(Under(c, name))) == [Fixed([c]), Single(name)]
  {
    TwoGroups([Lit(c)], [Param(name)]);
    SegmentsPrint(unicode, Under(c, name));
    FlatOne(PrintToken, Lit(c));
    FlatOne(PrintToken, Param(name));
    var s := ['{'] + name + ['}'];
    assert s[1..|s| - 1] == name && ReadSegment(s) == Single(name);
    assert Map(Print, [[Lit(c)], [Param(name)]]) == [[c], s];
    assert Map(ReadSegment, [[c], s]) == [Fixed([c]), Single(name)];
  }

  lemma FitsUnder(c: char, name: string, value: string)
    ensures var p, path := [Fixed([c]), Single(name)], [[c], value];
            Fits(p, path) && OwnCaptures(p, path) == [(name, value)]
  {
    var p, path := [Fixed([c]), Single(name)], [[c], value];
    assert p[1..] == [Single(name)] && path[1..] == [value];
    assert p[1..][1..] == [] && path[1..][1..] == [];
    assert OwnCaptures(p[1..][1..], path[1..][1..]) == [];
    assert OwnCaptures(p[1..], path[1..]) == [(name, value)] + [];
  }
}
