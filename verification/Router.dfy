/**
 The routing trie of the data plane. Templates become chains of nodes; a lookup walks the trie with
 static children first, then the parameter child, then the wildcard, and backtracks. The walk is
 proved to stop at the most specific planted pattern that fits the path, which answers exactly when a
 request is found, refused or missed, and with which captured names.

 Nodes are values: inserting rebuilds the path to the changed node. Methods are taken in the upper
 case that the source converts them to.
 */
module Routing {
  import opened Text
  import opened PathTemplates

  // ---------- Segments of a template ----------

  datatype Segment = Fixed(text: string) | Single(name: string) | Tail(name: string)

  /** What a template's segment means to the router, which looks at its first and last character. */
  function ReadSegment(s: string): Segment {
    if |s| >= 2 && s[0] == '{' && s[|s| - 1] == '}' then
      var inner := s[1..|s| - 1];
      if IsWildcard(inner) then Tail(Base(inner)) else Single(inner)
    else Fixed(s)
  }

  function ParseTemplate(path: string): seq<Segment> { Map(ReadSegment, Segments(path)) }

  /** A segment without its name. */
  function Erase(s: Segment): Segment {
    match s
    case Fixed(_) => s
    case Single(_) => Single([])
    case Tail(_) => Tail([])
  }

  // ---------- Request paths ----------

  /** Drop repeated slashes, then a final one unless it is the whole path. */
  function Collapse(path: string, afterSlash: bool): string {
    if path == [] then []
    else if path[0] == '/' then (if afterSlash then [] else ['/']) + Collapse(path[1..], true)
    else [path[0]] + Collapse(path[1..], false)
  }

  function NormalizePath(path: string): string {
    var collapsed := Collapse(path, false);
    var stripped := if |collapsed| > 1 && collapsed[|collapsed| - 1] == '/' then collapsed[..|collapsed| - 1] else collapsed;
    if stripped == [] then "/" else stripped
  }

  lemma {:induction false} CollapseSnoc(path: string, c: char, afterSlash: bool)
    ensures var before := if path == [] then afterSlash else path[|path| - 1] == '/';
            Collapse(path + [c], afterSlash) == Collapse(path, afterSlash) + if c == '/' && before then [] else [c]
  {
    if path == [] {
      assert path + [c] == [c] && [c][1..] == [];
    } else {
      var rest, slash, longer := path[1..], path[0] == '/', path + [c];
      var head := if slash && afterSlash then [] else [path[0]];
      var last := if c == '/' && path[|path| - 1] == '/' then [] else [c];
      assert longer[0] == path[0] && longer[1..] == rest + [c];
      assert rest != [] ==> rest[|rest| - 1] == path[|path| - 1];
      CollapseSnoc(rest, c, slash);
      assert Collapse(rest + [c], slash) == Collapse(rest, slash) + last;
      assert Collapse(path, afterSlash) == head + Collapse(rest, slash);
      assert Collapse(longer, afterSlash) == head + Collapse(rest + [c], slash);
      Assoc(head, Collapse(rest, slash), last);
    }
  }

  method NormalizeRequestPath(path: string) returns (normalized: string)
    ensures normalized == NormalizePath(path)
  {
    normalized := [];
    var prevSlash := false;
    for i := 0 to |path|
      invariant normalized == Collapse(path[..i], false)
      invariant prevSlash == (i > 0 && path[i - 1] == '/')
    {
      assert path[..i + 1] == path[..i] + [path[i]];
      CollapseSnoc(path[..i], path[i], false);
      if path[i] == '/' {
        if !prevSlash { normalized := normalized + ['/']; }
        prevSlash := true;
      } else {
        normalized := normalized + [path[i]];
        prevSlash := false;
      }
    }
    assert path[..|path|] == path;
    if |normalized| > 1 && normalized[|normalized| - 1] == '/' {
      normalized := normalized[..|normalized| - 1];
    }
    if normalized == [] { normalized := "/"; }
  }

  lemma SegmentsOfTrailingSlash(s: string)
    ensures Segments(s + ['/']) == Segments(s)
  {
    SegmentsConcat(s, []);
    SegmentsOfSlashes([]);
    assert s + ['/'] + [] == s + ['/'];
  }

  lemma SegmentsAfterSlash(head: string, a: string, b: string)
    requires Segments(a) == Segments(b)
    ensures Segments(head + (['/'] + a)) == Segments(head + (['/'] + b))
  {
    SegmentsConcat(head, a);
    SegmentsConcat(head, b);
    Assoc(head, ['/'], a);
    Assoc(head, ['/'], b);
  }

  /** Collapsing keeps the segments behind any slash-free text `head`. */
  lemma {:induction false} CollapseKeepsSegments(head: string, path: string, afterSlash: bool)
    requires '/' !in head && (afterSlash ==> head == [])
    ensures Segments(head + Collapse(path, afterSlash)) == Segments(head + path)
    decreases |path|
  {
    if path != [] {
      var c, rest := path[0], path[1..];
      var collapsed := Collapse(rest, c == '/');
      assert path == [c] + rest;
      if c == '/' {
        CollapseKeepsSegments([], rest, true);
        assert [] + collapsed == collapsed && [] + rest == rest;
        if afterSlash {
          assert head + ([] + collapsed) == collapsed && head + path == ['/'] + rest;
        } else {
          SegmentsAfterSlash(head, collapsed, rest);
        }
      } else {
        CollapseKeepsSegments(head + [c], rest, false);
        Assoc(head, [c], rest);
        Assoc(head, [c], collapsed);
      }
    }
  }

  lemma NoSegments()
    ensures Segments([]) == [] && Segments("/") == []
  {
    SegmentsOfSlashes([]);
    SegmentsOfSlashes("/");
  }

  lemma StripKeepsSegments(s: string)
    requires s != [] && s[|s| - 1] == '/'
    ensures Segments(s[..|s| - 1]) == Segments(s)
  {
    SegmentsOfTrailingSlash(s[..|s| - 1]);
    assert s[..|s| - 1] + ['/'] == s;
  }

  /** Normalising a request path never changes its segments. */
  lemma NormalizeKeepsSegments(path: string)
    ensures Segments(NormalizePath(path)) == Segments(path)
  {
    var collapsed := Collapse(path, false);
    assert Segments(collapsed) == Segments(path) by {
      CollapseKeepsSegments([], path, false);
      assert [] + collapsed == collapsed && [] + path == path;
    }
    NoSegments();
    if |collapsed| > 1 && collapsed[|collapsed| - 1] == '/' { StripKeepsSegments(collapsed); }
  }

  lemma {:induction false} CollapseShape(path: string, afterSlash: bool)
    ensures var r := Collapse(path, afterSlash);
            && (forall i | 0 <= i < |r| - 1 :: r[i] != '/' || r[i + 1] != '/')
            && (afterSlash && r != [] ==> r[0] != '/')
            && (!afterSlash && path != [] ==> r != [] && r[0] == path[0])
  {
    if path != [] { CollapseShape(path[1..], path[0] == '/'); }
  }

  /** The normal form of a request path starts as the path does, has no two slashes in a row and does
      not end in one, unless it is just that; so its segments determine it. */
  lemma NormalizedShape(path: string)
    ensures var n := NormalizePath(path);
            && n != [] && n[0] == (if path == [] then '/' else path[0])
            && (forall i | 0 <= i < |n| - 1 :: n[i] != '/' || n[i + 1] != '/')
            && (|n| > 1 ==> n[|n| - 1] != '/')
  {
    CollapseShape(path, false);
    var collapsed := Collapse(path, false);
    if |collapsed| > 1 && collapsed[|collapsed| - 1] == '/' {
      assert collapsed[|collapsed| - 2] != '/';
    }
  }

  // ---------- The trie ----------

  datatype Node = Node(
    fixed: map<string, Node>,
    single: Option<(string, Node)>,
    tail: Option<(string, Node)>,
    methods: map<string, nat>)

  const EMPTY := Node(map[], None, None, map[])

  function Child(n: Node, s: Segment): Option<Node> {
    match s
    case Fixed(text) => if text in n.fixed then Some(n.fixed[text]) else None
    case Single(_) => if n.single.Some? then Some(n.single.value.1) else None
    case Tail(_) => if n.tail.Some? then Some(n.tail.value.1) else None
  }

  /** A parameter or wildcard child keeps the name it was created with. */
  function WithChild(n: Node, s: Segment, child: Node): Node {
    match s
    case Fixed(text) => n.(fixed := n.fixed[text := child])
    case Single(name) => n.(single := Some((if n.single.Some? then n.single.value.0 else name, child)))
    case Tail(name) => n.(tail := Some((if n.tail.Some? then n.tail.value.0 else name, child)))
  }

  function OrEmpty(n: Option<Node>): Node { if n.Some? then n.value else EMPTY }

  function Insert(n: Node, segs: seq<Segment>, httpMethod: string, index: nat): Node
    decreases |segs|
  {
    if segs == [] then n.(methods := n.methods[httpMethod := index])
    else WithChild(n, segs[0], Insert(OrEmpty(Child(n, segs[0])), segs[1..], httpMethod, index))
  }

  datatype Route = Route(segs: seq<Segment>, httpMethod: string, index: nat)

  /** The trie after inserting some routes, in order. */
  function Build(rs: seq<Route>): Node {
    if rs == [] then EMPTY
    else
      var r := rs[|rs| - 1];
      Insert(Build(rs[..|rs| - 1]), r.segs, r.httpMethod, r.index)
  }

  // ---------- What is where ----------

  function NodeAt(n: Node, p: seq<Segment>): Option<Node>
    decreases |p|
  {
    if p == [] then Some(n)
    else
      var c := Child(n, p[0]);
      if c.None? then None else NodeAt(c.value, p[1..])
  }

  function MethodsAt(n: Node, p: seq<Segment>): map<string, nat> {
    if NodeAt(n, p).Some? then NodeAt(n, p).value.methods else map[]
  }

  predicate SameKind(s: Segment, t: Segment) { Erase(s) == Erase(t) }

  predicate SamePattern(p: seq<Segment>, q: seq<Segment>)
    decreases |p|
  {
    |p| == |q| && (p == [] || (SameKind(p[0], q[0]) && SamePattern(p[1..], q[1..])))
  }

  /** `p` is the beginning of `q`, names aside. */
  predicate Begins(p: seq<Segment>, q: seq<Segment>)
    decreases |p|
  {
    p == [] || (q != [] && SameKind(p[0], q[0]) && Begins(p[1..], q[1..]))
  }

  lemma ChildOfWith(n: Node, s: Segment, c: Node, t: Segment)
    ensures Child(WithChild(n, s, c), t) == if SameKind(s, t) then Some(c) else Child(n, t)
  {
  }

  lemma {:induction false} InsertedAt(n: Node, segs: seq<Segment>, httpMethod: string, index: nat, p: seq<Segment>)
    ensures NodeAt(Insert(n, segs, httpMethod, index), p).Some? <==> NodeAt(n, p).Some? || Begins(p, segs)
    ensures MethodsAt(Insert(n, segs, httpMethod, index), p)
         == if SamePattern(p, segs) then MethodsAt(n, p)[httpMethod := index] else MethodsAt(n, p)
    decreases |segs|
  {
    if segs != [] && p != [] {
      var c := OrEmpty(Child(n, segs[0]));
      var c' := Insert(c, segs[1..], httpMethod, index);
      ChildOfWith(n, segs[0], c', p[0]);
      if SameKind(segs[0], p[0]) {
        InsertedAt(c, segs[1..], httpMethod, index, p[1..]);
        assert Child(n, p[0]) == Child(n, segs[0]);
      }
    }
  }

  /** Some route goes through or ends at `p`; the root is always there. */
  ghost predicate Planted(rs: seq<Route>, p: seq<Segment>) {
    p == [] || exists r | r in rs :: Begins(p, r.segs)
  }

  /** The index of the last inserted route with this pattern and method. */
  function IndexAt(rs: seq<Route>, p: seq<Segment>, httpMethod: string): Option<nat> {
    if rs == [] then None
    else
      var r := rs[|rs| - 1];
      if SamePattern(p, r.segs) && r.httpMethod == httpMethod then Some(r.index)
      else IndexAt(rs[..|rs| - 1], p, httpMethod)
  }

  /** The trie holds exactly the planted patterns, and at each the last index per method. */
  lemma {:induction false} BuiltAt(rs: seq<Route>, p: seq<Segment>)
    ensures NodeAt(Build(rs), p).Some? <==> Planted(rs, p)
    ensures forall m :: m in MethodsAt(Build(rs), p) <==> IndexAt(rs, p, m).Some?
    ensures forall m | m in MethodsAt(Build(rs), p) :: IndexAt(rs, p, m) == Some(MethodsAt(Build(rs), p)[m])
  {
    if rs != [] {
      var front, r := rs[..|rs| - 1], rs[|rs| - 1];
      BuiltAt(front, p);
      InsertedAt(Build(front), r.segs, r.httpMethod, r.index, p);
      assert Planted(rs, p) <==> Planted(front, p) || Begins(p, r.segs) by {
        assert rs == front + [r];
      }
    }
  }

  // ---------- The walk ----------

  type Params = seq<(string, string)>

  /** The node a path leads to, and the captured parameters. */
  function Traverse(n: Node, path: seq<string>): Option<(Node, Params)>
    decreases |path|
  {
    if path == [] then Some((n, []))
    else
      var viaFixed := if path[0] in n.fixed then Traverse(n.fixed[path[0]], path[1..]) else None;
      if viaFixed.Some? then viaFixed
      else
        var viaSingle := if n.single.Some? then Traverse(n.single.value.1, path[1..]) else None;
        if viaSingle.Some? then
          Some((viaSingle.value.0, [(n.single.value.0, path[0])] + viaSingle.value.1))
        else if n.tail.Some? then Some((n.tail.value.1, [(n.tail.value.0, Join(path, '/'))]))
        else None
  }

  /** The recursive search with one shared list of parameters, truncated on the way back. */
  method TraverseAndMatch(node: Node, path: seq<string>, params: Params) returns (result: Option<Node>, params': Params)
    ensures match Traverse(node, path) {
      case None => result == None && params' == params
      case Some((found, captured)) => result == Some(found) && params' == params + captured
    }
    decreases |path|
  {
    params' := params;
    if path == [] {
      return Some(node), params';
    }
    if path[0] in node.fixed {
      result, params' := TraverseAndMatch(node.fixed[path[0]], path[1..], params');
      if result.Some? { return; }
    }
    if node.single.Some? {
      var paramLen := |params'|;
      params' := params' + [(node.single.value.0, path[0])];
      result, params' := TraverseAndMatch(node.single.value.1, path[1..], params');
      if result.Some? { return; }
      params' := params'[..paramLen];
    }
    if node.tail.Some? {
      params' := params' + [(node.tail.value.0, Join(path, '/'))];
      return Some(node.tail.value.1), params';
    }
    return None, params';
  }

  /** A pattern fits a path: a wildcard takes everything that is left, and at least one segment. */
  predicate Fits(p: seq<Segment>, path: seq<string>)
    decreases |path|
  {
    if path == [] then p == []
    else
      p != [] &&
      match p[0]
      case Fixed(text) => text == path[0] && Fits(p[1..], path[1..])
      case Single(_) => Fits(p[1..], path[1..])
      case Tail(_) => |p| == 1
  }

  function Rank(s: Segment): nat {
    match s
    case Fixed(_) => 0
    case Single(_) => 1
    case Tail(_) => 2
  }

  /** More specific at the first difference. */
  predicate Before(p: seq<Segment>, q: seq<Segment>)
    decreases |p|
  {
    && p != [] && q != []
    && (Rank(p[0]) < Rank(q[0]) || (SameKind(p[0], q[0]) && Before(p[1..], q[1..])))
  }

  ghost predicate Best(n: Node, path: seq<string>, p: seq<Segment>) {
    && Fits(p, path) && NodeAt(n, p).Some?
    && forall q | Fits(q, path) && NodeAt(n, q).Some? :: SamePattern(p, q) || Before(p, q)
  }

  lemma NothingBelow(n: Node, path: seq<string>, s: Segment)
    requires path != [] && !s.Tail? && (s.Fixed? ==> s.text == path[0])
    requires Child(n, s).None? || forall q | Fits(q, path[1..]) :: NodeAt(Child(n, s).value, q).None?
    ensures forall q | Fits(q, path) && SameKind(q[0], s) :: NodeAt(n, q).None?
  {
    forall q: seq<Segment> | Fits(q, path) && SameKind(q[0], s) ensures NodeAt(n, q).None? {
      assert Child(n, q[0]) == Child(n, s);
      assert Fits(q[1..], path[1..]);
      if Child(n, s).Some? { assert NodeAt(Child(n, s).value, q[1..]).None?; }
    }
  }

  /** The best pattern below a child, extended to the child's parent. */
  lemma BestExtends(n: Node, path: seq<string>, s: Segment, p: seq<Segment>)
    requires path != [] && !s.Tail? && (s.Fixed? ==> s.text == path[0])
    requires Child(n, s).Some? && Best(Child(n, s).value, path[1..], p)
    requires forall q | Fits(q, path) && Rank(q[0]) < Rank(s) :: NodeAt(n, q).None?
    ensures Best(n, path, [s] + p)
  {
    var best := [s] + p;
    assert best[1..] == p;
    forall q | Fits(q, path) && NodeAt(n, q).Some? ensures SamePattern(best, q) || Before(best, q) {
      if SameKind(q[0], s) {
        assert Child(n, q[0]) == Child(n, s);
        assert Fits(q[1..], path[1..]);
      }
    }
  }

  /** The walk ends at the most specific pattern of the trie that fits, and fails only if none
      does. */
  lemma {:induction false} TraverseFindsBest(n: Node, path: seq<string>) returns (p: seq<Segment>)
    ensures Traverse(n, path).None? ==> forall q | Fits(q, path) :: NodeAt(n, q).None?
    ensures Traverse(n, path).Some? ==>
              Best(n, path, p) && Traverse(n, path).value == (NodeAt(n, p).value, Captured(n, p, path))
    decreases |path|
  {
    p := [];
    if path != [] {
      var f, s, rest := Fixed(path[0]), Single([]), path[1..];
      var below: seq<Segment> := [];
      if path[0] in n.fixed { below := TraverseFindsBest(n.fixed[path[0]], rest); }
      if path[0] in n.fixed && Traverse(n.fixed[path[0]], rest).Some? {
        p := [f] + below;
        BestExtends(n, path, f, below);
        assert p[1..] == below;
      } else {
        NothingBelow(n, path, f);
        if n.single.Some? { below := TraverseFindsBest(n.single.value.1, rest); }
        if n.single.Some? && Traverse(n.single.value.1, rest).Some? {
          p := [s] + below;
          BestExtends(n, path, s, below);
          assert p[1..] == below;
        } else {
          NothingBelow(n, path, s);
          p := [Tail([])];
        }
      }
    }
  }

  // ---------- Lookup ----------

  datatype RouteMatch = Found(index: nat, params: Params) | MethodNotAllowed(allowed: set<string>) | NotFound

  function Lookup(n: Node, path: seq<string>, httpMethod: string): RouteMatch {
    match Traverse(n, path)
    case None => NotFound
    case Some((node, params)) =>
      if httpMethod in node.methods then Found(node.methods[httpMethod], params)
      else if node.methods == map[] then NotFound
      else MethodNotAllowed(node.methods.Keys)
  }

  method FindRoute(root: Node, path: string, httpMethod: string) returns (found: RouteMatch)
    ensures found == Lookup(root, Segments(path), httpMethod)
  {
    var normalized := NormalizeRequestPath(path);
    NormalizeKeepsSegments(path);
    var node, params := TraverseAndMatch(root, Segments(normalized), []);
    if node.None? { return NotFound; }
    assert [] + params == params;
    if httpMethod in node.value.methods { return Found(node.value.methods[httpMethod], params); }
    if node.value.methods == map[] { return NotFound; }
    return MethodNotAllowed(node.value.methods.Keys);
  }

  // ---------- Captured names ----------

  /** The values a fitting pattern captures, under the names the trie has stored. */
  function Captured(n: Node, p: seq<Segment>, path: seq<string>): Params
    requires Fits(p, path) && NodeAt(n, p).Some?
    decreases |p|
  {
    if p == [] then []
    else
      match p[0]
      case Fixed(_) => Captured(Child(n, p[0]).value, p[1..], path[1..])
      case Single(_) => [(n.single.value.0, path[0])] + Captured(Child(n, p[0]).value, p[1..], path[1..])
      case Tail(_) => [(n.tail.value.0, Join(path, '/'))]
  }

  /** The name under which the trie stores the parameter that ends pattern `p`. */
  function NameAt(n: Node, p: seq<Segment>): Option<string>
    requires p != []
    decreases |p|
  {
    if |p| == 1 then
      match p[0]
      case Fixed(_) => None
      case Single(_) => if n.single.Some? then Some(n.single.value.0) else None
      case Tail(_) => if n.tail.Some? then Some(n.tail.value.0) else None
    else
      var c := Child(n, p[0]);
      if c.None? then None else NameAt(c.value, p[1..])
  }

  function NameOf(s: Segment): Option<string> { if s.Fixed? then None else Some(s.name) }

  /** Inserting gives a name only where there was none. */
  lemma {:induction false} InsertedName(n: Node, segs: seq<Segment>, httpMethod: string, index: nat, p: seq<Segment>)
    requires p != []
    ensures Begins(p, segs) ==> |p| <= |segs|
    ensures NameAt(Insert(n, segs, httpMethod, index), p)
         == if NameAt(n, p).Some? then NameAt(n, p)
            else if Begins(p, segs) then NameOf(segs[|p| - 1]) else None
    decreases |segs|
  {
    if segs != [] {
      var c := OrEmpty(Child(n, segs[0]));
      var c' := Insert(c, segs[1..], httpMethod, index);
      ChildOfWith(n, segs[0], c', p[0]);
      if |p| > 1 && SameKind(segs[0], p[0]) {
        InsertedName(c, segs[1..], httpMethod, index, p[1..]);
        assert Child(n, p[0]) == Child(n, segs[0]);
      }
    }
  }

  /** The name in the first inserted route that goes through `p`. */
  ghost function FirstName(rs: seq<Route>, p: seq<Segment>): Option<string>
    requires p != []
  {
    if rs == [] then None
    else
      var before, segs := FirstName(rs[..|rs| - 1], p), rs[|rs| - 1].segs;
      if before.Some? then before
      else if Begins(p, segs) && |p| <= |segs| then NameOf(segs[|p| - 1]) else None
  }

  lemma {:induction false} BuiltName(rs: seq<Route>, p: seq<Segment>)
    requires p != []
    ensures NameAt(Build(rs), p) == FirstName(rs, p)
  {
    if rs != [] {
      var front, r := rs[..|rs| - 1], rs[|rs| - 1];
      BuiltName(front, p);
      InsertedName(Build(front), r.segs, r.httpMethod, r.index, p);
    }
  }

  lemma {:induction false} BelowAt(n: Node, prefix: seq<Segment>, m: Node, s: Segment)
    requires NodeAt(n, prefix) == Some(m)
    ensures NodeAt(n, prefix + [s]) == Child(m, s)
    ensures NameAt(n, prefix + [s]) == NameAt(m, [s])
    decreases |prefix|
  {
    if prefix == [] {
      assert prefix + [s] == [s] && [s][1..] == [];
    } else {
      BelowAt(Child(n, prefix[0]).value, prefix[1..], m, s);
      assert (prefix + [s])[1..] == prefix[1..] + [s];
    }
  }

  function OrNone(name: Option<string>): string { if name.Some? then name.value else [] }

  /** The values captured behind `prefix`, each under the name of the first route through its
      place. */
  ghost function Captures(rs: seq<Route>, prefix: seq<Segment>, p: seq<Segment>, path: seq<string>): Params
    requires Fits(p, path)
    decreases |p|
  {
    if p == [] then []
    else
      var here := prefix + [p[0]];
      match p[0]
      case Fixed(_) => Captures(rs, here, p[1..], path[1..])
      case Single(_) => [(OrNone(FirstName(rs, here)), path[0])] + Captures(rs, here, p[1..], path[1..])
      case Tail(_) => [(OrNone(FirstName(rs, here)), Join(path, '/'))]
  }

  lemma {:induction false} CapturedInBuild(rs: seq<Route>, prefix: seq<Segment>, m: Node, p: seq<Segment>, path: seq<string>)
    requires NodeAt(Build(rs), prefix) == Some(m) && Fits(p, path) && NodeAt(m, p).Some?
    ensures Captured(m, p, path) == Captures(rs, prefix, p, path)
    decreases |p|
  {
    if p != [] {
      var here := prefix + [p[0]];
      BelowAt(Build(rs), prefix, m, p[0]);
      BuiltName(rs, here);
      if !p[0].Tail? {
        CapturedInBuild(rs, here, Child(m, p[0]).value, p[1..], path[1..]);
      }
    }
  }

  /** The captured values under the pattern's own names. */
  function OwnCaptures(p: seq<Segment>, path: seq<string>): Params
    requires Fits(p, path)
    decreases |p|
  {
    if p == [] then []
    else
      match p[0]
      case Fixed(_) => OwnCaptures(p[1..], path[1..])
      case Single(name) => [(name, path[0])] + OwnCaptures(p[1..], path[1..])
      case Tail(name) => [(name, Join(path, '/'))]
  }

  lemma {:induction false} BeginsEnd(p: seq<Segment>, q: seq<Segment>)
    requires p != [] && Begins(p, q)
    ensures |p| <= |q| && SameKind(p[|p| - 1], q[|p| - 1])
    decreases |p|
  {
    if |p| > 1 { BeginsEnd(p[1..], q[1..]); }
  }

  lemma {:induction false} NamedWhenPlanted(rs: seq<Route>, p: seq<Segment>)
    requires p != [] && Planted(rs, p) && !p[|p| - 1].Fixed?
    ensures FirstName(rs, p).Some?
  {
    var r :| r in rs && Begins(p, r.segs);
    var front := rs[..|rs| - 1];
    assert rs == front + [rs[|rs| - 1]];
    if r in front {
      NamedWhenPlanted(front, p);
    } else {
      BeginsEnd(p, r.segs);
    }
  }

  lemma {:induction false} BeginsPart(p: seq<Segment>, more: seq<Segment>, q: seq<Segment>)
    requires Begins(p + more, q)
    ensures Begins(p, q)
    decreases |p|
  {
    if p != [] {
      assert (p + more)[1..] == p[1..] + more;
      BeginsPart(p[1..], more, q[1..]);
    }
  }

  /** The first route through the parameter at `k` uses the same name there. */
  ghost predicate OwnName(rs: seq<Route>, prefix: seq<Segment>, p: seq<Segment>, k: nat)
    requires k < |p|
  {
    p[k].Fixed? || FirstName(rs, prefix + p[..k + 1]) == Some(p[k].name)
  }

  /** Values are captured under a pattern's own names exactly when, at each of its parameters, the
      first route through that place uses the same name. */
  lemma {:induction false} OwnNamesIff(rs: seq<Route>, prefix: seq<Segment>, p: seq<Segment>, path: seq<string>)
    requires Fits(p, path) && Planted(rs, prefix + p)
    ensures Captures(rs, prefix, p, path) == OwnCaptures(p, path) <==> forall k | 0 <= k < |p| :: OwnName(rs, prefix, p, k)
    decreases |p|
  {
    if p != [] {
      var here, rest := prefix + [p[0]], p[1..];
      assert prefix + p == here + rest && p[..1] == [p[0]];
      forall k | 0 <= k < |rest| ensures OwnName(rs, here, rest, k) <==> OwnName(rs, prefix, p, k + 1) {
        assert here + rest[..k + 1] == prefix + p[..k + 2];
      }
      if !p[0].Fixed? {
        var r :| r in rs && Begins(prefix + p, r.segs);
        BeginsPart(here, rest, r.segs);
        NamedWhenPlanted(rs, here);
      }
      if p[0].Tail? {
        assert OwnCaptures(p, path)[0] == (p[0].name, Join(path, '/'));
        assert (forall k | 0 <= k < |p| :: OwnName(rs, prefix, p, k)) <==> OwnName(rs, prefix, p, 0);
      } else {
        OwnNamesIff(rs, here, rest, path[1..]);
        assert (forall k | 0 <= k < |p| :: OwnName(rs, prefix, p, k))
          <==> OwnName(rs, prefix, p, 0) && forall k | 0 <= k < |rest| :: OwnName(rs, here, rest, k) by {
          forall k | 1 <= k < |p| ensures OwnName(rs, prefix, p, k) <==> OwnName(rs, here, rest, k - 1) {}
        }
        if p[0].Single? && Captures(rs, prefix, p, path) == OwnCaptures(p, path) {
          assert Captures(rs, prefix, p, path)[1..] == Captures(rs, here, rest, path[1..]);
          assert OwnCaptures(p, path)[1..] == OwnCaptures(rest, path[1..]);
        }
      }
    }
  }

  // ---------- What a lookup answers ----------

  /** The most specific pattern that fits, among all beginnings of routes. */
  ghost predicate MostSpecific(rs: seq<Route>, path: seq<string>, p: seq<Segment>) {
    && Fits(p, path) && Planted(rs, p)
    && forall q | Fits(q, path) && Planted(rs, q) :: SamePattern(p, q) || Before(p, q)
  }

  ghost predicate HasRoute(rs: seq<Route>, p: seq<Segment>) { exists r | r in rs :: SamePattern(p, r.segs) }

  predicate Answers(rs: seq<Route>, p: seq<Segment>, httpMethod: string) { IndexAt(rs, p, httpMethod).Some? }

  lemma {:induction false} IndexMeansRoute(rs: seq<Route>, p: seq<Segment>)
    ensures HasRoute(rs, p) <==> exists m :: Answers(rs, p, m)
  {
    if rs != [] {
      var front, r := rs[..|rs| - 1], rs[|rs| - 1];
      IndexMeansRoute(front, p);
      assert r in rs && forall x | x in rs :: x == r || x in front;
      if SamePattern(p, r.segs) {
        assert Answers(rs, p, r.httpMethod);
      } else {
        assert HasRoute(rs, p) <==> HasRoute(front, p);
        if m :| Answers(front, p, m) { assert Answers(rs, p, m); }
        if m :| Answers(rs, p, m) { assert Answers(front, p, m); }
      }
    }
  }

  lemma MostSpecificIsBest(rs: seq<Route>, path: seq<string>, p: seq<Segment>)
    ensures MostSpecific(rs, path, p) <==> Best(Build(rs), path, p)
  {
    forall q ensures NodeAt(Build(rs), q).Some? <==> Planted(rs, q) { BuiltAt(rs, q); }
  }

  /** Every lookup in every table: if no beginning of a route fits, nothing is found; otherwise the
      most specific one that fits decides alone. It answers with the last inserted route of that
      pattern and method, with the other methods of that pattern, or not at all. */
  lemma LookupExact(rs: seq<Route>, path: seq<string>, httpMethod: string) returns (p: seq<Segment>)
    ensures var found := Lookup(Build(rs), path, httpMethod);
            || (found == NotFound && forall q | Fits(q, path) :: !Planted(rs, q))
            || (&& MostSpecific(rs, path, p)
                && found == match IndexAt(rs, p, httpMethod) {
                     case Some(index) => Found(index, Captures(rs, [], p, path))
                     case None => if HasRoute(rs, p) then MethodNotAllowed(MethodsAt(Build(rs), p).Keys) else NotFound
                   })
  {
    var n := Build(rs);
    p := TraverseFindsBest(n, path);
    if Traverse(n, path).None? {
      forall q | Fits(q, path) ensures !Planted(rs, q) { BuiltAt(rs, q); }
    } else {
      MostSpecificIsBest(rs, path, p);
      BuiltAt(rs, p);
      IndexMeansRoute(rs, p);
      CapturedInBuild(rs, [], n, p, path);
      LookupAtBest(rs, path, httpMethod, p);
    }
  }

  lemma LookupAtBest(rs: seq<Route>, path: seq<string>, httpMethod: string, p: seq<Segment>)
    requires Fits(p, path) && NodeAt(Build(rs), p).Some? && Traverse(Build(rs), path).Some?
    requires Traverse(Build(rs), path).value == (NodeAt(Build(rs), p).value, Captured(Build(rs), p, path))
    ensures Lookup(Build(rs), path, httpMethod)
         == match IndexAt(rs, p, httpMethod) {
              case Some(index) => Found(index, Captured(Build(rs), p, path))
              case None => if HasRoute(rs, p) then MethodNotAllowed(MethodsAt(Build(rs), p).Keys) else NotFound
            }
  {
    BuiltAt(rs, p);
    IndexMeansRoute(rs, p);
    var methods := MethodsAt(Build(rs), p);
    assert Answers(rs, p, httpMethod) <==> httpMethod in methods;
    if methods == map[] {
      assert forall m :: Answers(rs, p, m) <==> m in methods;
    } else {
      var m :| m in methods;
      assert Answers(rs, p, m);
    }
  }

  lemma {:induction false} BeforeIsStrict(p: seq<Segment>, q: seq<Segment>)
    requires Before(p, q)
    ensures !SamePattern(p, q) && !Before(q, p)
    decreases |p|
  {
    if SameKind(p[0], q[0]) && Before(p[1..], q[1..]) { BeforeIsStrict(p[1..], q[1..]); }
  }

  lemma {:induction false} SamePatternSymmetric(p: seq<Segment>, q: seq<Segment>)
    requires SamePattern(p, q)
    ensures SamePattern(q, p)
    decreases |p|
  {
    if p != [] { SamePatternSymmetric(p[1..], q[1..]); }
  }

  lemma {:induction false} SamePatternTransitive(p: seq<Segment>, q: seq<Segment>, r: seq<Segment>)
    requires SamePattern(p, q) && SamePattern(q, r)
    ensures SamePattern(p, r)
    decreases |p|
  {
    if p != [] { SamePatternTransitive(p[1..], q[1..], r[1..]); }
  }

  lemma OneMostSpecific(rs: seq<Route>, path: seq<string>, p: seq<Segment>, q: seq<Segment>)
    requires MostSpecific(rs, path, p) && MostSpecific(rs, path, q)
    ensures SamePattern(p, q) && (HasRoute(rs, p) <==> HasRoute(rs, q))
  {
    if Before(p, q) {
      BeforeIsStrict(p, q);
      SamePatternSymmetric(q, p);
    }
    SamePatternSymmetric(p, q);
    if r :| r in rs && SamePattern(p, r.segs) { SamePatternTransitive(q, p, r.segs); }
    if r :| r in rs && SamePattern(q, r.segs) { SamePatternTransitive(p, q, r.segs); }
  }

  lemma {:induction false} WholeBegins(p: seq<Segment>)
    ensures Begins(p, p)
  {
    if p != [] { WholeBegins(p[1..]); }
  }

  /** A path that some route fits is missed exactly when the most specific fitting beginning of a
      route is not itself a route: the walk does not come back from a node without methods. */
  lemma MissedIff(rs: seq<Route>, path: seq<string>, httpMethod: string, r: Route)
    requires r in rs && Fits(r.segs, path)
    ensures Lookup(Build(rs), path, httpMethod) == NotFound <==>
              exists p :: MostSpecific(rs, path, p) && !HasRoute(rs, p)
  {
    WholeBegins(r.segs);
    assert Planted(rs, r.segs);
    var p := LookupExact(rs, path, httpMethod);
    IndexMeansRoute(rs, p);
    assert Answers(rs, p, httpMethod) <==> IndexAt(rs, p, httpMethod).Some?;
    if q :| MostSpecific(rs, path, q) && !HasRoute(rs, q) {
      OneMostSpecific(rs, path, p, q);
    }
  }

  // ---------- Two routes that lose a path ----------

  /** `/a/b/c` hides `/a/{id}` from the path `/a/b`, which it does not answer itself. */
  lemma RouteIsMissed(a: string, b: string, c: string, id: string, httpMethod: string)
    ensures var rs := [Route([Fixed(a), Fixed(b), Fixed(c)], httpMethod, 0), Route([Fixed(a), Single(id)], httpMethod, 1)];
            Fits(rs[1].segs, [a, b]) && Lookup(Build(rs), [a, b], httpMethod) == NotFound
  {
    var long, short := [Fixed(a), Fixed(b), Fixed(c)], [Fixed(a), Single(id)];
    var rs := [Route(long, httpMethod, 0), Route(short, httpMethod, 1)];
    var path, p := [a, b], [Fixed(a), Fixed(b)];
    assert path[1..] == [b] && path[1..][1..] == [];
    assert short[1..] == [Single(id)] && short[1..][1..] == [];
    assert p[1..] == [Fixed(b)] && p[1..][1..] == [];
    assert long[1..] == [Fixed(b), Fixed(c)] && long[1..][1..] == [Fixed(c)];
    assert Begins(p, long) && rs[0] in rs;
    forall q: seq<Segment> | Fits(q, path) && Planted(rs, q) ensures SamePattern(p, q) || Before(p, q) {
      FitsTwo(q, a, b);
    }
    assert MostSpecific(rs, path, p);
    assert !HasRoute(rs, p) by {
      assert !SameKind(p[1..][0], short[1..][0]);
      assert !SamePattern(p, short);
    }
    MissedIff(rs, path, httpMethod, rs[1]);
  }

  lemma FitsTwo(q: seq<Segment>, a: string, b: string)
    requires Fits(q, [a, b])
    ensures SamePattern([Fixed(a), Fixed(b)], q) || Before([Fixed(a), Fixed(b)], q)
  {
    var p, path, rest := [Fixed(a), Fixed(b)], [a, b], q[1..];
    assert path[1..] == [b] && p[1..] == [Fixed(b)];
    if q[0].Fixed? {
      assert Fits(rest, [b]);
      FitsOne(rest, b);
    }
  }

  lemma FitsOne(q: seq<Segment>, b: string)
    requires Fits(q, [b])
    ensures SamePattern([Fixed(b)], q) || Before([Fixed(b)], q)
  {
    assert [b][1..] == [] && [Fixed(b)][1..] == [];
    if q[0].Fixed? {
      assert Fits(q[1..], []);
      assert SamePattern([], q[1..]);
    }
  }
}
