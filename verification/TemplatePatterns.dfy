/**
 Which templates the router can tell apart. The compiler compares templates character by character,
 the router segment by segment, and a segment is a parameter to it when it begins and ends with one.
 Both comparisons, and how far they agree, are worked out here for all templates.
 */
module TemplatePatterns {
  import opened Text
  import opened PathTemplates
  import opened Routing

  // ---------- Segments as groups of tokens ----------

  const SLASH := Lit('/')

  function NotEmpty<T>(): seq<T> -> bool { (g: seq<T>) => |g| > 0 }

  function Groups(ts: seq<Token>): seq<seq<Token>> { Filter(NotEmpty<Token>(), Split(ts, SLASH)) }

  lemma {:induction false} PrintNoSlash(unicode: char -> bool, ts: seq<Token>)
    requires AllTokensOk(unicode, ts) && SLASH !in ts
    ensures '/' !in Print(ts) && (Print(ts) == [] <==> ts == [])
  {
    if ts != [] {
      PrintNoSlash(unicode, ts[1..]);
      if ts[0].Param? { NameHasNoMarks(unicode, ts[0].name); }
    }
  }

  lemma OkPart(unicode: char -> bool, a: seq<Token>, b: seq<Token>)
    requires AllTokensOk(unicode, a + b)
    ensures AllTokensOk(unicode, a) && AllTokensOk(unicode, b)
  {
    forall i | 0 <= i < |a| ensures TokenOk(unicode, a[i]) { assert a[i] == (a + b)[i]; }
    forall i | 0 <= i < |b| ensures TokenOk(unicode, b[i]) { assert b[i] == (a + b)[|a| + i]; }
  }

  lemma SplitOne<T>(s: seq<T>, sep: T)
    requires sep !in s
    ensures Split(s, sep) == [s]
  {
    SplitPrefix(s, [], sep);
    assert s + [] == s;
  }

  /** The first separator cuts a sequence in two. */
  lemma {:induction false} FirstCut<T>(s: seq<T>, sep: T) returns (a: seq<T>, b: seq<T>)
    requires sep in s
    ensures s == a + [sep] + b && sep !in a && |b| < |s|
  {
    if s[0] == sep {
      a, b := [], s[1..];
    } else {
      var c, d := FirstCut(s[1..], sep);
      a, b := [s[0]] + c, d;
      assert s == [s[0]] + s[1..];
    }
  }

  /** Splitting the text at slashes is splitting the tokens at slashes. */
  lemma {:induction false} SplitPrint(unicode: char -> bool, ts: seq<Token>)
    requires AllTokensOk(unicode, ts)
    ensures Split(Print(ts), '/') == Map(Print, Split(ts, SLASH))
    decreases |ts|
  {
    if SLASH in ts {
      var a, b := FirstCut(ts, SLASH);
      Assoc(a, [SLASH], b);
      OkPart(unicode, a, [SLASH] + b);
      OkPart(unicode, [SLASH], b);
      PrintCut(a, b);
      SplitConcat(a, b, SLASH);
      SplitConcat(Print(a), Print(b), '/');
      SplitPrintOne(unicode, a);
      SplitPrint(unicode, b);
      MapConcat(Print, Split(a, SLASH), Split(b, SLASH));
    } else {
      SplitPrintOne(unicode, ts);
    }
  }

  lemma PrintCut(a: seq<Token>, b: seq<Token>)
    ensures Print(a + [SLASH] + b) == Print(a) + ['/'] + Print(b)
  {
    FlatConcat(PrintToken, a + [SLASH], b);
    FlatConcat(PrintToken, a, [SLASH]);
    FlatOne(PrintToken, SLASH);
  }

  lemma SplitPrintOne(unicode: char -> bool, ts: seq<Token>)
    requires AllTokensOk(unicode, ts) && SLASH !in ts
    ensures Split(Print(ts), '/') == Map(Print, Split(ts, SLASH))
  {
    PrintNoSlash(unicode, ts);
    SplitOne(ts, SLASH);
    SplitOne(Print(ts), '/');
    assert Map(Print, [ts]) == [Print(ts)];
  }

  lemma {:induction false} FilterMap<A, B>(f: seq<A> -> seq<B>, gs: seq<seq<A>>)
    requires forall g | g in gs :: f(g) == [] <==> g == []
    ensures Filter(NotEmpty<B>(), Map(f, gs)) == Map(f, Filter(NotEmpty<A>(), gs))
  {
    if gs != [] {
      FilterMap(f, gs[1..]);
      assert gs[0] in gs;
      assert Map(f, gs)[1..] == Map(f, gs[1..]);
    }
  }

  lemma GroupOk(unicode: char -> bool, ts: seq<Token>, g: seq<Token>)
    requires AllTokensOk(unicode, ts) && g in Split(ts, SLASH)
    ensures AllTokensOk(unicode, g) && SLASH !in g
  {
    JoinSplit(ts, SLASH);
    PartOfJoin(Split(ts, SLASH), SLASH, g);
    forall i | 0 <= i < |g| ensures TokenOk(unicode, g[i]) {
      assert g[i] in ts;
    }
  }

  lemma {:induction false} PartOfJoin<T>(parts: seq<seq<T>>, sep: T, p: seq<T>)
    requires p in parts
    ensures forall x | x in p :: x in Join(parts, sep)
  {
    if |parts| > 1 && p != parts[0] {
      PartOfJoin(parts[1..], sep, p);
    }
  }

  /** The text segments of a template are its nonempty token groups, printed. */
  lemma SegmentsPrint(unicode: char -> bool, ts: seq<Token>)
    requires AllTokensOk(unicode, ts)
    ensures Segments(Print(ts)) == Map(Print, Groups(ts))
  {
    SplitPrint(unicode, ts);
    forall g | g in Split(ts, SLASH) ensures Print(g) == [] <==> g == [] {
      GroupOk(unicode, ts, g);
      PrintNoSlash(unicode, g);
    }
    FilterMap(Print, Split(ts, SLASH));
    FilterSame((s: string) => s != [], NotEmpty<char>(), Split(Print(ts), '/'));
  }

  lemma {:induction false} FilterSame<A>(p: A -> bool, q: A -> bool, s: seq<A>)
    requires forall x | x in s :: p(x) == q(x)
    ensures Filter(p, s) == Filter(q, s)
  {
    if s != [] { FilterSame(p, q, s[1..]); }
  }

  // ---------- What the router makes of a group ----------

  /** The group begins and ends with a parameter, maybe the same one. */
  predicate Enclosed(g: seq<Token>) { g != [] && g[0].Param? && g[|g| - 1].Param? }

  /** What the router keeps of a group: its text, unless parameters enclose it. */
  function GroupKind(g: seq<Token>): Segment {
    if !Enclosed(g) then Fixed(Print(g)) else if IsWild(g[|g| - 1]) then Tail([]) else Single([])
  }

  function Kinds(ts: seq<Token>): seq<Segment> { Map(GroupKind, Groups(ts)) }

  lemma PrintHead(g: seq<Token>)
    requires g != []
    ensures |Print(g)| > 0 && Print(g)[0] == PrintToken(g[0])[0]
  {
    assert Print(g) == PrintToken(g[0]) + Print(g[1..]);
  }

  lemma PrintBack(g: seq<Token>)
    requires g != []
    ensures Print(g) == Print(g[..|g| - 1]) + PrintToken(g[|g| - 1])
  {
    assert g == g[..|g| - 1] + [g[|g| - 1]];
    FlatConcat(PrintToken, g[..|g| - 1], [g[|g| - 1]]);
    FlatOne(PrintToken, g[|g| - 1]);
  }

  /** Between an opening and a closing brace, the last name decides. */
  lemma ReadEnclosed(front: string, name: string, s: string)
    requires name != [] && s == front + (['{'] + name + ['}']) && s[0] == '{'
    ensures Erase(ReadSegment(s)) == if IsWildcard(name) then Tail([]) else Single([])
  {
    var last, inner := ['{'] + name + ['}'], s[1..|s| - 1];
    assert last[|last| - 2] == name[|name| - 1];
    assert inner[|inner| - 1] == s[|s| - 2] == last[|last| - 2];
  }

  lemma KindOfGroup(unicode: char -> bool, g: seq<Token>)
    requires g != [] && AllTokensOk(unicode, g)
    ensures Erase(ReadSegment(Print(g))) == GroupKind(g)
  {
    assert TokenOk(unicode, g[0]) && TokenOk(unicode, g[|g| - 1]);
    PrintHead(g);
    PrintBack(g);
    if g[|g| - 1].Param? && g[0].Param? {
      ReadEnclosed(Print(g[..|g| - 1]), g[|g| - 1].name, Print(g));
    }
  }

  /** A segment that is one parameter carries its name, a wildcard without the plus sign. */
  lemma ParameterName(name: string)
    ensures ReadSegment(Print([Param(name)]))
         == if name != [] && name[|name| - 1] == '+' then Tail(name[..|name| - 1]) else Single(name)
  {
    FlatOne(PrintToken, Param(name));
    var s := ['{'] + name + ['}'];
    assert s[1..|s| - 1] == name;
  }

  lemma {:induction false} SamePatternIff(p: seq<Segment>, q: seq<Segment>)
    ensures SamePattern(p, q) <==> |p| == |q| && forall i | 0 <= i < |p| :: SameKind(p[i], q[i])
    decreases |p|
  {
    if |p| == |q| && p != [] {
      SamePatternIff(p[1..], q[1..]);
      forall i | 1 <= i < |p| ensures p[i] == p[1..][i - 1] && q[i] == q[1..][i - 1] {}
    }
  }

  lemma GroupsOk(unicode: char -> bool, ts: seq<Token>, i: nat)
    requires AllTokensOk(unicode, ts) && i < |Groups(ts)|
    ensures Groups(ts)[i] != [] && AllTokensOk(unicode, Groups(ts)[i])
  {
    assert Groups(ts)[i] in Groups(ts);
    GroupOk(unicode, ts, Groups(ts)[i]);
  }

  /** The erased segment at `i` is the kind of group `i`. */
  lemma SegmentKind(unicode: char -> bool, ts: seq<Token>, i: nat)
    requires AllTokensOk(unicode, ts) && i < |Groups(ts)|
    ensures |ParseTemplate(Print(ts))| == |Groups(ts)| && Erase(ParseTemplate(Print(ts))[i]) == GroupKind(Groups(ts)[i])
  {
    SegmentsPrint(unicode, ts);
    GroupsOk(unicode, ts, i);
    KindOfGroup(unicode, Groups(ts)[i]);
  }

  /** The router reads two templates alike exactly when their groups have the same kinds. */
  lemma PatternByGroups(unicode: char -> bool, a: seq<Token>, b: seq<Token>)
    requires AllTokensOk(unicode, a) && AllTokensOk(unicode, b)
    ensures SamePattern(ParseTemplate(Print(a)), ParseTemplate(Print(b))) <==> Kinds(a) == Kinds(b)
  {
    var p, q := ParseTemplate(Print(a)), ParseTemplate(Print(b));
    SegmentsPrint(unicode, a);
    SegmentsPrint(unicode, b);
    SamePatternIff(p, q);
    assert |p| == |Kinds(a)| && |q| == |Kinds(b)|;
    if |p| == |q| {
      forall i | 0 <= i < |p| ensures SameKind(p[i], q[i]) <==> Kinds(a)[i] == Kinds(b)[i] {
        SegmentKind(unicode, a, i);
        SegmentKind(unicode, b, i);
      }
    }
  }

  // ---------- Skeletons of templates and of their groups ----------

  lemma {:induction false} SplitSkeleton(ts: seq<Token>)
    ensures Split(Skeleton(ts), Literal('/')) == Map(Skeleton, Split(ts, SLASH))
    decreases |ts|
  {
    if SLASH in ts {
      var a, b := FirstCut(ts, SLASH);
      MapConcat(MarkOf, a + [SLASH], b);
      MapConcat(MarkOf, a, [SLASH]);
      assert Map(MarkOf, [SLASH]) == [Literal('/')];
      SplitConcat(a, b, SLASH);
      SplitConcat(Skeleton(a), Skeleton(b), Literal('/'));
      SplitSkeletonOne(a);
      SplitSkeleton(b);
      MapConcat(Skeleton, Split(a, SLASH), Split(b, SLASH));
    } else {
      SplitSkeletonOne(ts);
    }
  }

  lemma SplitSkeletonOne(ts: seq<Token>)
    requires SLASH !in ts
    ensures Split(Skeleton(ts), Literal('/')) == Map(Skeleton, Split(ts, SLASH))
  {
    SplitOne(ts, SLASH);
    forall i | 0 <= i < |ts| ensures Skeleton(ts)[i] != Literal('/') {
      assert ts[i] in ts && Skeleton(ts)[i] == MarkOf(ts[i]);
    }
    SplitOne(Skeleton(ts), Literal('/'));
    assert Map(Skeleton, [ts]) == [Skeleton(ts)];
  }

  lemma GroupsOfSkeleton(ts: seq<Token>)
    ensures Map(Skeleton, Groups(ts)) == Filter(NotEmpty<Mark>(), Split(Skeleton(ts), Literal('/')))
  {
    SplitSkeleton(ts);
    FilterMap(Skeleton, Split(ts, SLASH));
  }

  // ---------- Same skeleton against same pattern ----------

  /** Equal skeletons give the same pattern exactly when every group is enclosed by parameters or has
      the same text in both templates. */
  lemma SameSkeletonIff(unicode: char -> bool, a: seq<Token>, b: seq<Token>)
    requires AllTokensOk(unicode, a) && AllTokensOk(unicode, b) && Skeleton(a) == Skeleton(b)
    ensures |Groups(a)| == |Groups(b)|
    ensures SamePattern(ParseTemplate(Print(a)), ParseTemplate(Print(b)))
       <==> forall i | 0 <= i < |Groups(a)| :: Enclosed(Groups(a)[i]) || Print(Groups(a)[i]) == Print(Groups(b)[i])
  {
    var x, y := Groups(a), Groups(b);
    GroupsOfSkeleton(a);
    GroupsOfSkeleton(b);
    assert Map(Skeleton, x) == Map(Skeleton, y);
    assert |x| == |Map(Skeleton, x)| == |y|;
    PatternByGroups(unicode, a, b);
    forall i | 0 <= i < |x|
      ensures Kinds(a)[i] == Kinds(b)[i] <==> Enclosed(x[i]) || Print(x[i]) == Print(y[i])
    {
      assert Map(Skeleton, x)[i] == Skeleton(x[i]) == Skeleton(y[i]);
      GroupsOk(unicode, a, i);
      KindsOfSkeleton(x[i], y[i]);
    }
  }

  lemma KindsOfSkeleton(g: seq<Token>, h: seq<Token>)
    requires g != [] && Skeleton(g) == Skeleton(h)
    ensures Enclosed(g) <==> Enclosed(h)
    ensures GroupKind(g) == GroupKind(h) <==> Enclosed(g) || Print(g) == Print(h)
  {
    assert |g| == |Skeleton(g)| == |h|;
    var k := |g| - 1;
    assert Skeleton(g)[0] == MarkOf(g[0]) && Skeleton(h)[0] == MarkOf(h[0]);
    assert Skeleton(g)[k] == MarkOf(g[k]) && Skeleton(h)[k] == MarkOf(h[k]);
  }

  /** Which of the slash-separated parts are empty. */
  function Layout(ts: seq<Token>): seq<bool> { Map(NotEmpty<Token>(), Split(ts, SLASH)) }

  lemma {:induction false} LayoutAndParts<T>(x: seq<seq<T>>, y: seq<seq<T>>)
    requires Map(NotEmpty<T>(), x) == Map(NotEmpty<T>(), y) && Filter(NotEmpty<T>(), x) == Filter(NotEmpty<T>(), y)
    ensures x == y
  {
    assert |x| == |Map(NotEmpty<T>(), x)| == |y|;
    if x != [] {
      assert Map(NotEmpty<T>(), x)[0] == NotEmpty<T>()(x[0]) && Map(NotEmpty<T>(), y)[0] == NotEmpty<T>()(y[0]);
      assert Map(NotEmpty<T>(), x)[1..] == Map(NotEmpty<T>(), x[1..]);
      assert Map(NotEmpty<T>(), y)[1..] == Map(NotEmpty<T>(), y[1..]);
      assert x == [x[0]] + x[1..] && y == [y[0]] + y[1..];
      if x[0] != [] {
        assert Filter(NotEmpty<T>(), x) == [x[0]] + Filter(NotEmpty<T>(), x[1..]);
        assert Filter(NotEmpty<T>(), y) == [y[0]] + Filter(NotEmpty<T>(), y[1..]);
        assert Filter(NotEmpty<T>(), x)[1..] == Filter(NotEmpty<T>(), x[1..]);
        assert Filter(NotEmpty<T>(), y)[1..] == Filter(NotEmpty<T>(), y[1..]);
      }
      LayoutAndParts(x[1..], y[1..]);
    }
  }

  lemma LayoutOfSkeleton(ts: seq<Token>)
    ensures Map(NotEmpty<Mark>(), Split(Skeleton(ts), Literal('/'))) == Layout(ts)
  {
    SplitSkeleton(ts);
    var parts := Split(ts, SLASH);
    forall i | 0 <= i < |parts| ensures NotEmpty<Mark>()(Skeleton(parts[i])) == NotEmpty<Token>()(parts[i]) {}
  }

  /** A skeleton is a layout and the skeletons of the groups. */
  lemma SkeletonIff(a: seq<Token>, b: seq<Token>)
    ensures Skeleton(a) == Skeleton(b) <==> Layout(a) == Layout(b) && Map(Skeleton, Groups(a)) == Map(Skeleton, Groups(b))
  {
    LayoutOfSkeleton(a);
    LayoutOfSkeleton(b);
    GroupsOfSkeleton(a);
    GroupsOfSkeleton(b);
    if Layout(a) == Layout(b) && Map(Skeleton, Groups(a)) == Map(Skeleton, Groups(b)) {
      LayoutAndParts(Split(Skeleton(a), Literal('/')), Split(Skeleton(b), Literal('/')));
      JoinSplit(Skeleton(a), Literal('/'));
      JoinSplit(Skeleton(b), Literal('/'));
    }
  }

  lemma SameTextSameSkeleton(unicode: char -> bool, g: seq<Token>, h: seq<Token>)
    requires AllTokensOk(unicode, g) && AllTokensOk(unicode, h) && Print(g) == Print(h)
    ensures Skeleton(g) == Skeleton(h)
  {
    NormalizePrint(unicode, g);
    NormalizePrint(unicode, h);
    SkeletonReadsBack(Skeleton(g), Skeleton(h));
  }

  /** Equal patterns give the same skeleton exactly when the slashes are laid out alike and the groups
      enclosed by parameters have the same skeletons. */
  lemma SamePatternIsSkeletonIff(unicode: char -> bool, a: seq<Token>, b: seq<Token>)
    requires AllTokensOk(unicode, a) && AllTokensOk(unicode, b)
    requires SamePattern(ParseTemplate(Print(a)), ParseTemplate(Print(b)))
    ensures |Groups(a)| == |Groups(b)|
    ensures Skeleton(a) == Skeleton(b)
       <==> Layout(a) == Layout(b)
            && forall i | 0 <= i < |Groups(a)| && Enclosed(Groups(a)[i]) :: Skeleton(Groups(a)[i]) == Skeleton(Groups(b)[i])
  {
    var x, y := Groups(a), Groups(b);
    PatternByGroups(unicode, a, b);
    SkeletonIff(a, b);
    assert |x| == |Kinds(a)| == |y|;
    forall i | 0 <= i < |x| && !Enclosed(x[i]) ensures Skeleton(x[i]) == Skeleton(y[i]) {
      TextGroup(unicode, a, b, i);
    }
    MapSkeletonIff(x, y);
  }

  lemma TextGroup(unicode: char -> bool, a: seq<Token>, b: seq<Token>, i: nat)
    requires AllTokensOk(unicode, a) && AllTokensOk(unicode, b) && Kinds(a) == Kinds(b)
    requires i < |Groups(a)| && i < |Groups(b)| && !Enclosed(Groups(a)[i])
    ensures Skeleton(Groups(a)[i]) == Skeleton(Groups(b)[i])
  {
    assert Kinds(a)[i] == GroupKind(Groups(a)[i]) && Kinds(b)[i] == GroupKind(Groups(b)[i]);
    GroupsOk(unicode, a, i);
    GroupsOk(unicode, b, i);
    SameTextSameSkeleton(unicode, Groups(a)[i], Groups(b)[i]);
  }

  lemma MapSkeletonIff(x: seq<seq<Token>>, y: seq<seq<Token>>)
    requires |x| == |y|
    ensures Map(Skeleton, x) == Map(Skeleton, y) <==> forall i | 0 <= i < |x| :: Skeleton(x[i]) == Skeleton(y[i])
  {
    if Map(Skeleton, x) == Map(Skeleton, y) {
      forall i | 0 <= i < |x| ensures Skeleton(x[i]) == Skeleton(y[i]) {
        assert Map(Skeleton, x)[i] == Map(Skeleton, y)[i];
      }
    }
  }

  // ---------- Same pattern against same paths ----------

  lemma {:induction false} FitsByPattern(p: seq<Segment>, q: seq<Segment>, path: seq<string>)
    requires SamePattern(p, q)
    ensures Fits(p, path) <==> Fits(q, path)
    decreases |path|
  {
    if path != [] && p != [] { FitsByPattern(p[1..], q[1..], path[1..]); }
  }

  /** A wildcard is the last segment, and texts are what a request path can hold. */
  ghost predicate Proper(p: seq<Segment>) {
    && (forall i | 0 <= i < |p| - 1 :: !p[i].Tail?)
    && (forall i | 0 <= i < |p| && p[i].Fixed? :: IsPart(p[i].text))
  }

  predicate IsPart(s: string) { s != [] && '/' !in s }

  ghost predicate AllParts(path: seq<string>) { forall i | 0 <= i < |path| :: IsPart(path[i]) }

  /** A path that fits. */
  function Sample(p: seq<Segment>): seq<string> { Map((s: Segment) => if s.Fixed? then s.text else "x", p) }

  lemma {:induction false} SampleFits(p: seq<Segment>)
    requires Proper(p)
    ensures Fits(p, Sample(p)) && AllParts(Sample(p))
  {
    if p != [] {
      SampleFits(p[1..]);
      assert Sample(p)[1..] == Sample(p[1..]);
    }
  }

  /** Patterns that differ are told apart by a path. */
  lemma {:induction false} PathTells(p: seq<Segment>, q: seq<Segment>) returns (path: seq<string>)
    requires Proper(p) && Proper(q) && !SamePattern(p, q)
    ensures AllParts(path) && (Fits(p, path) <==> !Fits(q, path))
    decreases |p|
  {
    if p == [] || q == [] {
      path := [];
    } else if SameKind(p[0], q[0]) {
      path := PathTells(p[1..], q[1..]);
      path := [if p[0].Fixed? then p[0].text else "x"] + path;
    } else {
      path := FirstTells(p, q);
    }
  }

  lemma FirstTells(p: seq<Segment>, q: seq<Segment>) returns (path: seq<string>)
    requires Proper(p) && Proper(q) && p != [] && q != [] && !SameKind(p[0], q[0])
    ensures AllParts(path) && (Fits(p, path) <==> !Fits(q, path))
  {
    SampleFits(p);
    SampleFits(q);
    if p[0].Fixed? && q[0].Fixed? {
      path := Sample(p);
    } else if p[0].Fixed? {
      path := OtherSample(q, p[0].text);
    } else if q[0].Fixed? {
      path := OtherSample(p, q[0].text);
    } else if p[0].Tail? {
      path := TailTells(p, q);
    } else {
      path := TailTells(q, p);
    }
  }

  lemma OtherSample(p: seq<Segment>, text: string) returns (path: seq<string>)
    requires Proper(p) && p != [] && !p[0].Fixed? && IsPart(text)
    ensures AllParts(path) && path != [] && path[0] != text && Fits(p, path)
  {
    SampleFits(p);
    path := [text + "x"] + Sample(p)[1..];
    assert |path[0]| > |text| && path[1..] == Sample(p)[1..];
  }

  /** A wildcard takes paths of every length, a parameter does not. */
  lemma TailTells(p: seq<Segment>, q: seq<Segment>) returns (path: seq<string>)
    requires Proper(p) && p != [] && q != [] && p[0].Tail? && q[0].Single?
    ensures AllParts(path) && Fits(p, path) && !Fits(q, path)
  {
    path := if |q| == 1 then ["x", "x"] else ["x"];
    assert path[1..] == if |q| == 1 then ["x"] else [];
  }

  /** Every wildcard is followed by slashes only. */
  ghost predicate WildLast(ts: seq<Token>) {
    forall i, j | 0 <= i < j < |ts| && IsWild(ts[i]) :: ts[j] == SLASH
  }

  lemma {:induction false} OnlySlashes(ts: seq<Token>)
    requires forall i | 0 <= i < |ts| :: ts[i] == SLASH
    ensures Groups(ts) == []
  {
    if ts == [] {
      SplitOne(ts, SLASH);
      FilterOne(NotEmpty<Token>(), ts);
    } else {
      OnlySlashes(ts[1..]);
      GroupsCut([], ts[1..]);
      assert ts == [] + [SLASH] + ts[1..];
    }
  }

  lemma GroupsCut(a: seq<Token>, b: seq<Token>)
    requires SLASH !in a
    ensures Groups(a + [SLASH] + b) == (if a == [] then [] else [a]) + Groups(b)
  {
    SplitConcat(a, b, SLASH);
    SplitOne(a, SLASH);
    FilterConcat(NotEmpty<Token>(), [a], Split(b, SLASH));
    FilterOne(NotEmpty<Token>(), a);
  }

  lemma WildLastPart(a: seq<Token>, b: seq<Token>)
    requires WildLast(a + b)
    ensures WildLast(b) && forall i, j | 0 <= i < |a| && 0 <= j < |b| && IsWild(a[i]) :: b[j] == SLASH
  {
    forall j | 0 <= j < |b| ensures b[j] == (a + b)[|a| + j] {}
    forall i | 0 <= i < |a| ensures a[i] == (a + b)[i] {}
  }

  /** Only the last group can be a wildcard. */
  lemma {:induction false} WildGroupLast(ts: seq<Token>)
    requires WildLast(ts)
    ensures forall i | 0 <= i < |Groups(ts)| - 1 :: !GroupKind(Groups(ts)[i]).Tail?
    decreases |ts|
  {
    if SLASH in ts {
      var a, b := FirstCut(ts, SLASH);
      WildLastPart(a + [SLASH], b);
      WildGroupLast(b);
      GroupsCut(a, b);
      if a != [] && IsWild(a[|a| - 1]) {
        assert (a + [SLASH])[|a| - 1] == a[|a| - 1];
        OnlySlashes(b);
      }
    } else {
      SplitOne(ts, SLASH);
      FilterOne(NotEmpty<Token>(), ts);
    }
  }

  lemma TemplateIsProper(unicode: char -> bool, ts: seq<Token>)
    requires Template(unicode, ts)
    ensures Proper(ParseTemplate(Print(ts)))
  {
    var p := ParseTemplate(Print(ts));
    SegmentsPrint(unicode, ts);
    assert |p| == |Groups(ts)|;
    TemplateIsWildLast(unicode, ts);
    WildGroupLast(ts);
    forall i | 0 <= i < |p| ensures Erase(p[i]) == GroupKind(Groups(ts)[i]) && (p[i].Fixed? ==> IsPart(p[i].text)) {
      SegmentIsPart(unicode, ts, i);
    }
  }

  lemma TemplateIsWildLast(unicode: char -> bool, ts: seq<Token>)
    requires Template(unicode, ts)
    ensures WildLast(ts)
  {
    forall i, j | 0 <= i < j < |ts| && IsWild(ts[i]) ensures ts[j] == SLASH {
      assert IsLastSegment(ts, i);
    }
  }

  lemma SegmentIsPart(unicode: char -> bool, ts: seq<Token>, i: nat)
    requires AllTokensOk(unicode, ts) && i < |Groups(ts)|
    ensures |ParseTemplate(Print(ts))| == |Groups(ts)|
    ensures var s := ParseTemplate(Print(ts))[i];
            Erase(s) == GroupKind(Groups(ts)[i]) && (s.Fixed? ==> IsPart(s.text))
  {
    SegmentKind(unicode, ts, i);
    var g := Groups(ts)[i];
    assert g in Groups(ts);
    GroupOk(unicode, ts, g);
    PrintNoSlash(unicode, g);
  }

  lemma PartsAreSegments(path: seq<string>)
    requires AllParts(path)
    ensures Segments(Join(path, '/')) == path
  {
    if path == [] {
      SegmentsOfSlashes([]);
    } else {
      SplitJoin(path, '/');
      FilterAll((s: string) => s != [], path);
    }
  }

  ghost predicate SamePaths(x: string, y: string) {
    forall path :: Fits(ParseTemplate(x), Segments(path)) <==> Fits(ParseTemplate(y), Segments(path))
  }

  /** Two templates fit the same request paths exactly when the router reads them alike. */
  lemma SamePathsIff(unicode: char -> bool, a: seq<Token>, b: seq<Token>)
    requires Template(unicode, a) && Template(unicode, b)
    ensures SamePaths(Print(a), Print(b)) <==> SamePattern(ParseTemplate(Print(a)), ParseTemplate(Print(b)))
  {
    var p, q := ParseTemplate(Print(a)), ParseTemplate(Print(b));
    if SamePattern(p, q) {
      forall path ensures Fits(p, Segments(path)) <==> Fits(q, Segments(path)) {
        FitsByPattern(p, q, Segments(path));
      }
    } else {
      TemplateIsProper(unicode, a);
      TemplateIsProper(unicode, b);
      var path := PathTells(p, q);
      PartsAreSegments(path);
      assert Fits(p, Segments(Join(path, '/'))) <==> !Fits(q, Segments(Join(path, '/')));
    }
  }

  /** Templates that the compiler calls ambiguous fit the same request paths exactly when every group
      is enclosed by parameters or has the same text in both. */
  lemma SameSkeletonSamePathsIff(unicode: char -> bool, a: seq<Token>, b: seq<Token>)
    requires Template(unicode, a) && Template(unicode, b) && Normalize(Print(a)) == Normalize(Print(b))
    ensures |Groups(a)| == |Groups(b)|
    ensures SamePaths(Print(a), Print(b))
       <==> forall i | 0 <= i < |Groups(a)| :: Enclosed(Groups(a)[i]) || Print(Groups(a)[i]) == Print(Groups(b)[i])
  {
    NormalizeIff(unicode, a, b);
    SameSkeletonIff(unicode, a, b);
    SamePathsIff(unicode, a, b);
  }

  lemma OneGroup(g: seq<Token>)
    requires g != [] && SLASH !in g
    ensures Groups([SLASH] + g) == [g]
  {
    GroupsCut([], g);
    assert [] + [SLASH] + g == [SLASH] + g;
    SplitOne(g, SLASH);
    FilterOne(NotEmpty<Token>(), g);
  }

  lemma SameTextSameName(pre: seq<Token>, name: string, other: string)
    requires Print(pre + [Param(name)]) == Print(pre + [Param(other)])
    ensures name == other
  {
    var s, t := ['{'] + name + ['}'], ['{'] + other + ['}'];
    FlatConcat(PrintToken, pre, [Param(name)]);
    FlatConcat(PrintToken, pre, [Param(other)]);
    FlatOne(PrintToken, Param(name));
    FlatOne(PrintToken, Param(other));
    CutEqual(Print(pre), s, Print(pre), t);
    assert name == s[1..|s| - 1] == t[1..|t| - 1] == other;
  }

  /** A parameter behind text is text to the router: `/v{a}` and `/v{b}` are ambiguous to the compiler
      and fit different paths. */
  lemma PartialParameterIsText(unicode: char -> bool, pre: seq<Token>, name: string, other: string)
    requires pre != [] && pre[0].Lit? && SLASH !in pre && name != other
    requires Template(unicode, [SLASH] + (pre + [Param(name)])) && Template(unicode, [SLASH] + (pre + [Param(other)]))
    ensures var x, y := Print([SLASH] + (pre + [Param(name)])), Print([SLASH] + (pre + [Param(other)]));
            Normalize(x) == Normalize(y) && !SamePaths(x, y)
  {
    var g, h := pre + [Param(name)], pre + [Param(other)];
    var a, b := [SLASH] + g, [SLASH] + h;
    NotWildBehindText(unicode, pre, name);
    NotWildBehindText(unicode, pre, other);
    assert Skeleton(a) == Skeleton(b);
    NormalizeIff(unicode, a, b);
    OneGroup(g);
    OneGroup(h);
    if Print(g) == Print(h) { SameTextSameName(pre, name, other); }
    SameSkeletonSamePathsIff(unicode, a, b);
    assert !Enclosed(Groups(a)[0]) && Print(Groups(a)[0]) != Print(Groups(b)[0]);
  }

  lemma NotWildBehindText(unicode: char -> bool, pre: seq<Token>, name: string)
    requires pre != [] && SLASH !in pre && Template(unicode, [SLASH] + (pre + [Param(name)]))
    ensures !IsWildcard(name)
  {
    var ts := [SLASH] + (pre + [Param(name)]);
    var k := |pre|;
    assert ts[k + 1] == Param(name) && ts[k] == pre[k - 1];
  }
}
