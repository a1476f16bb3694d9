/**
 The route checks and the operation table of the compiler core: one pass over specs and operations
 with maps of what has been seen, then a sort by (path, method) and a renumbering. The pass is
 proved to accept exactly the pairwise-compatible operation lists, so acceptance does not depend on
 the order of specs or operations. The table depends on it in one way only: the first spec with a
 root MCP setting decides for all operations without one of their own.
 */
module Routes {
  import opened Lex
  import opened Sorting
  import opened Text
  import opened PathTemplates

  datatype Middleware = Middleware(name: string, config: string)

  datatype Dispatch = Dispatch(name: string, config: string)

  /** What an operation says about its exposure as an MCP tool. */
  datatype McpSetting = McpSetting(enabled: Option<bool>, description: Option<string>)

  /** `details` stands for the fields that are copied into the table unread. */
  datatype Operation = Operation(
    path: string, httpMethod: string, operationId: Option<string>, dispatch: Option<Dispatch>,
    middlewares: Option<seq<Middleware>>, mcp: Option<McpSetting>, details: string)

  /** `mcp` is the enabled flag of the spec's root MCP setting, if it has one. */
  datatype Spec = Spec(file: string, globals: seq<Middleware>, mcp: Option<bool>, operations: seq<Operation>)

  /** An operation together with what the pass knows about its spec. */
  datatype Declared = Declared(file: string, globals: seq<Middleware>, op: Operation)

  datatype CompiledOperation = CompiledOperation(
    index: nat, path: string, httpMethod: string, operationId: Option<string>,
    dispatch: Dispatch, middlewares: seq<Middleware>, mcp: McpSetting, details: string)

  datatype CompileError =
    | MissingMiddlewareName | InvalidPathTemplate(reason: TemplateError) | DuplicateOperationId
    | RoutingConflict | AmbiguousRoute | MissingDispatch | PlaintextUpstream | SchemaTooComplex

  datatype Result<+T> = Ok(value: T) | Err(error: CompileError)

  /** The per-operation checks this module does not look into. */
  datatype Checks = Checks(unicode: char -> bool, plaintext: Operation -> bool, tooComplex: Operation -> bool)

  // ---------- One operation ----------

  predicate Named(ms: seq<Middleware>) { forall m | m in ms :: m.name != [] }

  /** Operation-level middlewares replace globals of the same name; an empty list opts out. */
  function ResolveMiddlewares(globals: seq<Middleware>, own: Option<seq<Middleware>>): seq<Middleware> {
    match own
    case None => globals
    case Some(ms) =>
      if ms == [] then [] else Filter(NotOverridden(ms), globals) + ms
  }

  function NotOverridden(ms: seq<Middleware>): Middleware -> bool {
    (g: Middleware) => forall m | m in ms :: m.name != g.name
  }

  /** Seen name by name: a nonempty operation list decides every name it mentions and leaves the
      others as the globals have them, keeping the order within a name. */
  lemma ResolvedByName(globals: seq<Middleware>, ms: seq<Middleware>, name: string)
    requires ms != []
    ensures var named := (m: Middleware) => m.name == name;
            Filter(named, ResolveMiddlewares(globals, Some(ms)))
            == Filter(named, if exists m | m in ms :: m.name == name then ms else globals)
  {
    var named := (m: Middleware) => m.name == name;
    var kept := Filter(NotOverridden(ms), globals);
    FilterConcat(named, kept, ms);
    if exists m | m in ms :: m.name == name {
      FilterNone(named, kept);
    } else {
      FilterTwice(NotOverridden(ms), named, globals);
      FilterNone(named, ms);
    }
  }

  function Route(d: Declared): (string, string) { (d.op.path, d.op.httpMethod) }

  function Structure(d: Declared): (string, string) { (Normalize(d.op.path), d.op.httpMethod) }

  function OperationId(d: Declared): Option<string> { d.op.operationId }

  /** The first conflict of `d` with an operation in `done`. */
  ghost function Conflict(done: seq<Declared>, d: Declared): Option<CompileError> {
    if d.op.operationId.Some? && exists x | x in done :: x.op.operationId == d.op.operationId then Some(DuplicateOperationId)
    else if exists x | x in done :: Route(x) == Route(d) then Some(RoutingConflict)
    else if exists x | x in done :: Structure(x) == Structure(d) then Some(AmbiguousRoute)
    else None
  }

  /** The first check that `d` fails after `done` has been accepted, in the compiler's order. */
  ghost function FirstError(checks: Checks, done: seq<Declared>, d: Declared): Option<CompileError> {
    var template := Validate(checks.unicode, d.op.path);
    var conflict := Conflict(done, d);
    if template.Some? then Some(InvalidPathTemplate(template.value))
    else if conflict.Some? then conflict
    else if d.op.dispatch.None? then Some(MissingDispatch)
    else if checks.plaintext(d.op) then Some(PlaintextUpstream)
    else if !Named(ResolveMiddlewares(d.globals, d.op.middlewares)) then Some(MissingMiddlewareName)
    else if checks.tooComplex(d.op) then Some(SchemaTooComplex)
    else None
  }

  /** The root MCP setting: that of the first spec that has one. */
  function RootMcp(specs: seq<Spec>): bool {
    if specs == [] then false
    else if specs[0].mcp.Some? then specs[0].mcp.value
    else RootMcp(specs[1..])
  }

  method ExtractRootMcp(specs: seq<Spec>) returns (enabled: bool)
    ensures enabled == RootMcp(specs)
  {
    for i := 0 to |specs|
      invariant RootMcp(specs) == RootMcp(specs[i..])
    {
      if specs[i].mcp.Some? { return specs[i].mcp.value; }
      assert specs[i..][1..] == specs[i + 1..];
    }
    return false;
  }

  /** The operation's own flag wins; otherwise an enabled root is inherited. */
  function ResolveMcp(root: bool, own: Option<McpSetting>): McpSetting {
    var inherited := if root then Some(true) else None;
    match own
    case None => McpSetting(inherited, None)
    case Some(m) => if m.enabled.Some? then m else m.(enabled := inherited)
  }

  function CompileOperation(root: bool, d: Declared): CompiledOperation {
    CompiledOperation(0, d.op.path, d.op.httpMethod, d.op.operationId,
      if d.op.dispatch.Some? then d.op.dispatch.value else Dispatch([], []),
      ResolveMiddlewares(d.globals, d.op.middlewares), ResolveMcp(root, d.op.mcp), d.op.details)
  }

  function Compiler(root: bool): Declared -> CompiledOperation { (d: Declared) => CompileOperation(root, d) }

  // ---------- The whole pass ----------

  function Declare(s: Spec): seq<Declared> {
    Map((op: Operation) => Declared(s.file, s.globals, op), s.operations)
  }

  function Flatten(specs: seq<Spec>): seq<Declared> { Flat(Declare, specs) }

  predicate KeyLe(a: CompiledOperation, b: CompiledOperation) {
    if a.path == b.path then StrLe(a.httpMethod, b.httpMethod) else StrLe(a.path, b.path)
  }

  function Renumber(ops: seq<CompiledOperation>): (r: seq<CompiledOperation>)
    ensures |r| == |ops| && forall i | 0 <= i < |ops| :: r[i] == ops[i].(index := i)
  {
    seq(|ops|, i requires 0 <= i < |ops| => ops[i].(index := i))
  }

  /** The final table: sorted by (path, method) and renumbered. */
  function Table(specs: seq<Spec>): seq<CompiledOperation> {
    Renumber(Sort(KeyLe, Map(Compiler(RootMcp(specs)), Flatten(specs))))
  }

  /** What the seen-maps hold after the operations `done`. */
  ghost predicate Tracks(done: seq<Declared>, routes: map<(string, string), string>,
                         structures: map<(string, string), (string, string)>, ids: map<string, string>)
  {
    && routes.Keys == Image(Route, done)
    && structures.Keys == Image(Structure, done)
    && (forall id :: id in ids <==> Some(id) in Image(OperationId, done))
    && forall k | k in structures :: (structures[k].0, k.1) in routes
  }

  /** The checks on one operation. */
  method CheckOperation(checks: Checks, d: Declared, ghost done: seq<Declared>,
                        routes: map<(string, string), string>, structures: map<(string, string), (string, string)>,
                        ids: map<string, string>)
    returns (error: Option<CompileError>, routes': map<(string, string), string>,
             structures': map<(string, string), (string, string)>, ids': map<string, string>)
    requires Tracks(done, routes, structures, ids)
    ensures error == FirstError(checks, done, d)
    ensures error.None? ==> Tracks(done + [d], routes', structures', ids')
  {
    routes', structures', ids' := routes, structures, ids;
    var op := d.op;
    var template := ValidatePathTemplate(checks.unicode, op.path);
    if template.Some? { return Some(InvalidPathTemplate(template.value)), routes', structures', ids'; }
    error, routes', structures', ids' := CheckConflicts(d, done, routes, structures, ids);
    if error.Some? { return; }
    if op.dispatch == None { return Some(MissingDispatch), routes', structures', ids'; }
    if checks.plaintext(op) { return Some(PlaintextUpstream), routes', structures', ids'; }
    if !Named(ResolveMiddlewares(d.globals, op.middlewares)) {
      return Some(MissingMiddlewareName), routes', structures', ids';
    }
    if checks.tooComplex(op) { return Some(SchemaTooComplex), routes', structures', ids'; }
  }

  /** The checks against the operations seen so far. */
  method CheckConflicts(d: Declared, ghost done: seq<Declared>,
                        routes: map<(string, string), string>, structures: map<(string, string), (string, string)>,
                        ids: map<string, string>)
    returns (error: Option<CompileError>, routes': map<(string, string), string>,
             structures': map<(string, string), (string, string)>, ids': map<string, string>)
    requires Tracks(done, routes, structures, ids)
    ensures error == Conflict(done, d)
    ensures error.None? ==> Tracks(done + [d], routes', structures', ids')
  {
    routes', structures', ids' := routes, structures, ids;
    var op := d.op;
    if op.operationId.Some? {
      if op.operationId.value in ids { return Some(DuplicateOperationId), routes', structures', ids'; }
      ids' := ids[op.operationId.value := d.file];
    }
    var key := (op.path, op.httpMethod);
    if key in routes { return Some(RoutingConflict), routes', structures', ids'; }
    routes' := routes[key := d.file];
    var normalized := NormalizePathTemplate(op.path);
    var structural := (normalized, op.httpMethod);
    if structural in structures {
      assert (structures[structural].0, op.httpMethod) in routes;
      if structures[structural].0 != op.path { return Some(AmbiguousRoute), routes', structures', ids'; }
    }
    structures' := structures[structural := (op.path, d.file)];
    TracksSnoc(done, d, routes, structures, ids);
    error := None;
  }

  lemma IdsSnoc(done: seq<Declared>, d: Declared, ids: map<string, string>)
    requires forall id :: id in ids <==> Some(id) in Image(OperationId, done)
    ensures var ids' := if d.op.operationId.Some? then ids[d.op.operationId.value := d.file] else ids;
            forall id :: id in ids' <==> Some(id) in Image(OperationId, done + [d])
  {
    ImageSnoc(OperationId, done, d);
  }

  lemma TracksSnoc(done: seq<Declared>, d: Declared, routes: map<(string, string), string>,
                   structures: map<(string, string), (string, string)>, ids: map<string, string>)
    requires Tracks(done, routes, structures, ids)
    ensures Tracks(done + [d], routes[Route(d) := d.file], structures[Structure(d) := (d.op.path, d.file)],
                   if d.op.operationId.Some? then ids[d.op.operationId.value := d.file] else ids)
  {
    IdsSnoc(done, d, ids);
  }

  /** The first error of the pass over some operations, and over some specs. */
  ghost function PassOperations(checks: Checks, done: seq<Declared>, ds: seq<Declared>): Option<CompileError>
    decreases |ds|
  {
    if ds == [] then None
    else
      var error := FirstError(checks, done, ds[0]);
      if error.Some? then error else PassOperations(checks, done + [ds[0]], ds[1..])
  }

  ghost function PassSpecs(checks: Checks, done: seq<Declared>, specs: seq<Spec>): Option<CompileError>
    decreases |specs|
  {
    if specs == [] then None
    else if !Named(specs[0].globals) then Some(MissingMiddlewareName)
    else
      var error := PassOperations(checks, done, Declare(specs[0]));
      if error.Some? then error else PassSpecs(checks, done + Declare(specs[0]), specs[1..])
  }

  /** The state of the pass over one spec's operations before operation `i`. */
  ghost predicate Progress(checks: Checks, root: bool, done: seq<Declared>, ds: seq<Declared>, i: nat,
                           operations: seq<CompiledOperation>, routes: map<(string, string), string>,
                           structures: map<(string, string), (string, string)>, ids: map<string, string>)
  {
    && i <= |ds| && operations == Map(Compiler(root), ds[..i])
    && Tracks(done + ds[..i], routes, structures, ids)
    && PassOperations(checks, done, ds) == PassOperations(checks, done + ds[..i], ds[i..])
  }

  lemma ProgressStarts(checks: Checks, root: bool, done: seq<Declared>, ds: seq<Declared>,
                       routes: map<(string, string), string>, structures: map<(string, string), (string, string)>,
                       ids: map<string, string>)
    requires Tracks(done, routes, structures, ids)
    ensures Progress(checks, root, done, ds, 0, [], routes, structures, ids)
  {
    assert done + ds[..0] == done && ds[0..] == ds;
  }

  lemma PassStep(checks: Checks, done: seq<Declared>, ds: seq<Declared>, i: nat)
    requires i < |ds|
    ensures done + ds[..i + 1] == done + ds[..i] + [ds[i]]
    ensures PassOperations(checks, done + ds[..i], ds[i..])
         == if FirstError(checks, done + ds[..i], ds[i]).Some? then FirstError(checks, done + ds[..i], ds[i])
            else PassOperations(checks, done + ds[..i + 1], ds[i + 1..])
  {
    assert ds[..i + 1] == ds[..i] + [ds[i]];
    Assoc(done, ds[..i], [ds[i]]);
    assert ds[i..][0] == ds[i] && ds[i..][1..] == ds[i + 1..];
  }

  /** An operation that passes its checks moves the pass on by one. */
  lemma ProgressStep(checks: Checks, root: bool, done: seq<Declared>, ds: seq<Declared>, i: nat,
                     operations: seq<CompiledOperation>, routes: map<(string, string), string>,
                     structures: map<(string, string), (string, string)>, ids: map<string, string>,
                     routes': map<(string, string), string>, structures': map<(string, string), (string, string)>,
                     ids': map<string, string>)
    requires i < |ds| && Progress(checks, root, done, ds, i, operations, routes, structures, ids)
    requires FirstError(checks, done + ds[..i], ds[i]) == None
    requires Tracks(done + ds[..i] + [ds[i]], routes', structures', ids')
    ensures Progress(checks, root, done, ds, i + 1, operations + [CompileOperation(root, ds[i])], routes', structures', ids')
  {
    var front, d := ds[..i], ds[i];
    assert ds[..i + 1] == front + [d];
    Assoc(done, front, [d]);
    MapConcat(Compiler(root), front, [d]);
    assert Map(Compiler(root), [d]) == [CompileOperation(root, d)];
    PassStep(checks, done, ds, i);
  }

  method CompileSpec(checks: Checks, root: bool, spec: Spec, ghost done: seq<Declared>,
                     routes: map<(string, string), string>, structures: map<(string, string), (string, string)>,
                     ids: map<string, string>)
    returns (error: Option<CompileError>, operations: seq<CompiledOperation>, routes': map<(string, string), string>,
             structures': map<(string, string), (string, string)>, ids': map<string, string>)
    requires Tracks(done, routes, structures, ids)
    ensures error == PassOperations(checks, done, Declare(spec))
    ensures error.None? ==> operations == Map(Compiler(root), Declare(spec))
    ensures error.None? ==> Tracks(done + Declare(spec), routes', structures', ids')
  {
    operations, routes', structures', ids' := [], routes, structures, ids;
    ghost var ds := Declare(spec);
    ProgressStarts(checks, root, done, ds, routes, structures, ids);
    for i := 0 to |spec.operations|
      invariant Progress(checks, root, done, ds, i, operations, routes', structures', ids')
    {
      var d := Declared(spec.file, spec.globals, spec.operations[i]);
      assert d == ds[i];
      ghost var r, s, t := routes', structures', ids';
      error, routes', structures', ids' := CheckOperation(checks, d, done + ds[..i], routes', structures', ids');
      if error.Some? {
        PassStep(checks, done, ds, i);
        return;
      }
      ProgressStep(checks, root, done, ds, i, operations, r, s, t, routes', structures', ids');
      operations := operations + [CompileOperation(root, d)];
    }
    error := None;
  }

  method Compile(checks: Checks, specs: seq<Spec>) returns (r: Result<seq<CompiledOperation>>)
    ensures match PassSpecs(checks, [], specs) {
      case None => r == Ok(Table(specs))
      case Some(error) => r == Err(error)
    }
  {
    var root := ExtractRootMcp(specs);
    var operations: seq<CompiledOperation> := [];
    var routes: map<(string, string), string> := map[];
    var structures: map<(string, string), (string, string)> := map[];
    var ids: map<string, string> := map[];
    for i := 0 to |specs|
      invariant operations == Map(Compiler(root), Flatten(specs[..i]))
      invariant Tracks(Flatten(specs[..i]), routes, structures, ids)
      invariant PassSpecs(checks, [], specs) == PassSpecs(checks, Flatten(specs[..i]), specs[i..])
    {
      FlattenSnoc(specs, i);
      assert specs[i..][1..] == specs[i + 1..];
      if !Named(specs[i].globals) { return Err(MissingMiddlewareName); }
      ghost var done := Flatten(specs[..i]);
      var error, more;
      error, more, routes, structures, ids := CompileSpec(checks, root, specs[i], done, routes, structures, ids);
      if error.Some? { return Err(error.value); }
      MapConcat(Compiler(root), done, Declare(specs[i]));
      operations := operations + more;
    }
    assert specs[..|specs|] == specs;
    operations := Sort(KeyLe, operations);
    operations := Renumber(operations);
    r := Ok(operations);
  }

  lemma FlattenSnoc(specs: seq<Spec>, i: nat)
    requires i < |specs|
    ensures Flatten(specs[..i + 1]) == Flatten(specs[..i]) + Declare(specs[i])
  {
    assert specs[..i + 1] == specs[..i] + [specs[i]];
    FlatConcat(Declare, specs[..i], [specs[i]]);
    FlatOne(Declare, specs[i]);
  }

  // ---------- Acceptance, declaratively ----------

  ghost predicate LocalOk(checks: Checks, d: Declared) {
    && Validate(checks.unicode, d.op.path) == None && d.op.dispatch.Some?
    && !checks.plaintext(d.op) && !checks.tooComplex(d.op)
    && Named(ResolveMiddlewares(d.globals, d.op.middlewares))
  }

  /** Different structures, or methods, and different operation ids if both have one. */
  predicate Compatible(a: Declared, b: Declared) {
    Structure(a) != Structure(b) && !(a.op.operationId.Some? && a.op.operationId == b.op.operationId)
  }

  ghost predicate Pairwise(ds: seq<Declared>) { PairwiseBy(Compatible, ds) }

  ghost predicate Good(checks: Checks, ds: seq<Declared>) {
    (forall d | d in ds :: LocalOk(checks, d)) && Pairwise(ds)
  }

  ghost predicate Acceptable(checks: Checks, specs: seq<Spec>) {
    (forall s | s in specs :: Named(s.globals)) && Good(checks, Flatten(specs))
  }

  lemma FirstErrorIff(checks: Checks, done: seq<Declared>, d: Declared)
    ensures FirstError(checks, done, d) == None <==>
              LocalOk(checks, d) && forall x | x in done :: Compatible(x, d)
  {
    assert forall x | x in done && Route(x) == Route(d) :: Structure(x) == Structure(d);
  }

  lemma GoodSnoc(checks: Checks, done: seq<Declared>, d: Declared)
    ensures Good(checks, done + [d]) <==> Good(checks, done) && FirstError(checks, done, d) == None
  {
    FirstErrorIff(checks, done, d);
    var ds := done + [d];
    if Good(checks, ds) {
      forall x | x in done ensures LocalOk(checks, x) && Compatible(x, d) {
        var i :| 0 <= i < |done| && done[i] == x;
        assert ds[i] == x && ds[|done|] == d && x in ds;
      }
      forall i, j | 0 <= i < j < |done| ensures Compatible(done[i], done[j]) {
        assert ds[i] == done[i] && ds[j] == done[j];
      }
      assert d in ds;
    }
    if Good(checks, done) && FirstError(checks, done, d) == None {
      forall i, j | 0 <= i < j < |ds| ensures Compatible(ds[i], ds[j]) {
        assert ds[i] in done;
      }
    }
  }

  lemma GoodPrefix(checks: Checks, a: seq<Declared>, b: seq<Declared>)
    requires Good(checks, a + b)
    ensures Good(checks, a)
  {
    forall d | d in a ensures LocalOk(checks, d) { assert d in a + b; }
    forall i, j | 0 <= i < j < |a| ensures Compatible(a[i], a[j]) {
      assert (a + b)[i] == a[i] && (a + b)[j] == a[j];
    }
  }

  lemma {:induction false} PassOperationsIff(checks: Checks, done: seq<Declared>, ds: seq<Declared>)
    requires Good(checks, done)
    ensures PassOperations(checks, done, ds) == None <==> Good(checks, done + ds)
    decreases |ds|
  {
    if ds == [] {
      assert done + ds == done;
    } else {
      GoodSnoc(checks, done, ds[0]);
      assert done + ds == done + [ds[0]] + ds[1..];
      if FirstError(checks, done, ds[0]) == None {
        PassOperationsIff(checks, done + [ds[0]], ds[1..]);
      } else if Good(checks, done + ds) {
        GoodPrefix(checks, done + [ds[0]], ds[1..]);
      }
    }
  }

  lemma {:induction false} PassSpecsIff(checks: Checks, done: seq<Declared>, specs: seq<Spec>)
    requires Good(checks, done)
    ensures PassSpecs(checks, done, specs) == None <==>
              (forall s | s in specs :: Named(s.globals)) && Good(checks, done + Flatten(specs))
    decreases |specs|
  {
    if specs == [] {
      assert done + Flatten(specs) == done;
    } else {
      var ds, rest := Declare(specs[0]), Flatten(specs[1..]);
      PassOperationsIff(checks, done, ds);
      Assoc(done, ds, rest);
      if Good(checks, done + ds) {
        PassSpecsIff(checks, done + ds, specs[1..]);
      } else if Good(checks, done + Flatten(specs)) {
        GoodPrefix(checks, done + ds, rest);
      }
    }
  }

  lemma {:induction false} FirstFailure(checks: Checks, done: seq<Declared>, ds: seq<Declared>) returns (k: nat)
    requires PassOperations(checks, done, ds).Some?
    ensures k < |ds| && PassOperations(checks, done, ds) == FirstError(checks, done + ds[..k], ds[k])
    ensures PassOperations(checks, done, ds[..k]) == None
    decreases |ds|
  {
    if FirstError(checks, done, ds[0]).Some? {
      k := 0;
      assert done + ds[..0] == done;
    } else {
      var j := FirstFailure(checks, done + [ds[0]], ds[1..]);
      k := j + 1;
      assert ds[..k][0] == ds[0] && ds[..k][1..] == ds[1..][..j];
      assert done + ds[..k] == done + [ds[0]] + ds[1..][..j];
    }
  }

  /** The compiler accepts exactly the specs whose operations are each valid and pairwise
      compatible. */
  lemma AcceptsIff(checks: Checks, specs: seq<Spec>)
    ensures PassSpecs(checks, [], specs) == None <==> Acceptable(checks, specs)
  {
    PassSpecsIff(checks, [], specs);
    assert [] + Flatten(specs) == Flatten(specs);
  }

  // ---------- Order does not matter ----------

  /** A spec up to the order of its operations. */
  function Shape(s: Spec): (string, seq<Middleware>, Option<bool>, multiset<Operation>) {
    (s.file, s.globals, s.mcp, multiset(s.operations))
  }

  /** The same specs in another order, with their operations in another order. */
  ghost predicate Reordered(a: seq<Spec>, b: seq<Spec>) { multiset(Map(Shape, a)) == multiset(Map(Shape, b)) }

  lemma DeclarePermutes(s: Spec, t: Spec)
    requires Shape(s) == Shape(t)
    ensures multiset(Declare(s)) == multiset(Declare(t))
  {
    MapPermutes((op: Operation) => Declared(s.file, s.globals, op), s.operations, t.operations);
  }

  lemma FlattenWithout(specs: seq<Spec>, k: nat)
    requires k < |specs|
    ensures multiset(Flatten(specs)) == multiset(Declare(specs[k])) + multiset(Flatten(Without(specs, k)))
  {
    FlatSplit(Declare, specs, k);
    FlatConcat(Declare, specs[..k], specs[k + 1..]);
  }

  lemma {:induction false} FlattenPermutes(a: seq<Spec>, b: seq<Spec>)
    requires Reordered(a, b)
    ensures multiset(Flatten(a)) == multiset(Flatten(b))
    ensures (forall s | s in a :: Named(s.globals)) ==> forall s | s in b :: Named(s.globals)
    decreases |a|
  {
    assert |multiset(Map(Shape, a))| == |multiset(Map(Shape, b))|;
    if a != [] {
      assert Map(Shape, a)[0] in multiset(Map(Shape, b));
      var k :| 0 <= k < |b| && Map(Shape, b)[k] == Shape(a[0]);
      ReorderedRest(a, b, k);
      FlattenPermutes(a[1..], Without(b, k));
      FlattenWithout(b, k);
      DeclarePermutes(a[0], b[k]);
      if forall s | s in a :: Named(s.globals) {
        forall s | s in b ensures Named(s.globals) {
          assert s == b[k] || s in Without(b, k);
        }
      }
    }
  }

  lemma ReorderedRest(a: seq<Spec>, b: seq<Spec>, k: nat)
    requires Reordered(a, b) && a != [] && k < |b| && Shape(b[k]) == Shape(a[0])
    ensures Reordered(a[1..], Without(b, k))
  {
    TailMultiset(Map(Shape, a));
    assert Map(Shape, a)[1..] == Map(Shape, a[1..]);
    MapWithout(Shape, b, k);
    WithoutMultiset(Map(Shape, b), k);
    Cancel(Shape(a[0]), multiset(Map(Shape, a[1..])), multiset(Map(Shape, Without(b, k))));
  }

  lemma GoodPermutes(checks: Checks, a: seq<Declared>, b: seq<Declared>)
    requires multiset(a) == multiset(b) && Good(checks, a)
    ensures Good(checks, b)
  {
    PairwisePermutes(Compatible, a, b);
    forall d | d in b ensures LocalOk(checks, d) {
      assert d in multiset(b);
      assert d in a;
    }
  }

  lemma KeyOrder()
    ensures TotalPreorder(KeyLe)
  {
    forall a, b ensures KeyLe(a, b) || KeyLe(b, a) {
      StrOrder(a.path, b.path, a.path);
      StrOrder(a.httpMethod, b.httpMethod, a.httpMethod);
    }
    forall a, b, c | KeyLe(a, b) && KeyLe(b, c) ensures KeyLe(a, c) {
      StrOrder(a.path, b.path, c.path);
      StrOrder(a.httpMethod, b.httpMethod, c.httpMethod);
      StrOrder(b.path, a.path, b.path);
    }
  }

  /** Compatible operations have distinct sort keys, so ties in the sort are equal entries. */
  lemma KeysAreDistinct(root: bool, ds: seq<Declared>)
    requires Pairwise(ds)
    ensures AntisymmetricOn(KeyLe, Map(Compiler(root), ds))
  {
    var ops := Map(Compiler(root), ds);
    forall x, y | x in ops && y in ops && KeyLe(x, y) && KeyLe(y, x) ensures x == y {
      var i :| 0 <= i < |ds| && ops[i] == x;
      var j :| 0 <= j < |ds| && ops[j] == y;
      StrOrder(x.path, y.path, x.path);
      StrOrder(x.httpMethod, y.httpMethod, x.httpMethod);
      assert Structure(ds[i]) == Structure(ds[j]);
      assert i == j;
    }
  }

  /** Acceptance does not depend on the order of specs, or of operations within them. */
  lemma AcceptanceIgnoresOrder(checks: Checks, a: seq<Spec>, b: seq<Spec>)
    requires Reordered(a, b)
    ensures PassSpecs(checks, [], a) == None <==> PassSpecs(checks, [], b) == None
    ensures PassSpecs(checks, [], a) == None ==> Pairwise(Flatten(a)) && Pairwise(Flatten(b))
  {
    AcceptsIff(checks, a);
    AcceptsIff(checks, b);
    FlattenPermutes(a, b);
    FlattenPermutes(b, a);
    if Acceptable(checks, a) { GoodPermutes(checks, Flatten(a), Flatten(b)); }
    if Acceptable(checks, b) { GoodPermutes(checks, Flatten(b), Flatten(a)); }
  }

  lemma SortIgnoresOrder(root: bool, ds: seq<Declared>, es: seq<Declared>)
    requires multiset(ds) == multiset(es) && Pairwise(ds)
    ensures Sort(KeyLe, Map(Compiler(root), ds)) == Sort(KeyLe, Map(Compiler(root), es))
  {
    KeyOrder();
    KeysAreDistinct(root, ds);
    MapPermutes(Compiler(root), ds, es);
    SortCanonical(KeyLe, Map(Compiler(root), ds), Map(Compiler(root), es));
  }

  predicate SetsOwnMcp(d: Declared) { d.op.mcp.Some? && d.op.mcp.value.enabled.Some? }

  /** The root setting matters exactly to operations that do not say themselves. */
  lemma RootMatters(root: bool, root': bool, d: Declared)
    ensures CompileOperation(root, d) == CompileOperation(root', d) <==> root == root' || SetsOwnMcp(d)
  {
  }

  lemma SameEntries(root: bool, root': bool, ds: seq<Declared>)
    requires root == root' || forall d | d in ds :: SetsOwnMcp(d)
    ensures Map(Compiler(root), ds) == Map(Compiler(root'), ds)
  {
    forall i | 0 <= i < |ds| ensures Compiler(root)(ds[i]) == Compiler(root')(ds[i]) {
      assert ds[i] in ds;
      RootMatters(root, root', ds[i]);
    }
  }

  /** Under another root setting, the entry of such an operation is nobody's entry. */
  lemma EntryTellsRoot(root: bool, root': bool, ds: seq<Declared>, d: Declared)
    requires Pairwise(ds) && d in ds && root != root' && !SetsOwnMcp(d)
    ensures CompileOperation(root, d) !in Map(Compiler(root'), ds)
  {
    var ops := Map(Compiler(root'), ds);
    forall j | 0 <= j < |ops| ensures ops[j] != CompileOperation(root, d) {
      var i :| 0 <= i < |ds| && ds[i] == d;
      assert ops[j] == CompileOperation(root', ds[j]);
      if i == j {
        RootMatters(root, root', d);
      } else {
        assert Structure(ds[i]) != Structure(ds[j]);
      }
    }
  }

  lemma TableHasEntry(specs: seq<Spec>, c: CompiledOperation)
    ensures c in Map(Unnumbered, Table(specs)) <==> c in Map(Compiler(RootMcp(specs)), Flatten(specs))
  {
    TableOrdered(specs);
    var x, y := Map(Unnumbered, Table(specs)), Map(Compiler(RootMcp(specs)), Flatten(specs));
    assert c in x <==> c in multiset(x);
    assert c in y <==> c in multiset(y);
  }

  /** Acceptance never depends on the order of specs or operations. The table does not either,
      exactly when the first root MCP setting stays the same or no operation looks at it. */
  lemma CompileIgnoresOrderIff(checks: Checks, a: seq<Spec>, b: seq<Spec>)
    requires Reordered(a, b)
    ensures PassSpecs(checks, [], a) == None <==> PassSpecs(checks, [], b) == None
    ensures PassSpecs(checks, [], a) == None ==>
              (Table(a) == Table(b) <==> RootMcp(a) == RootMcp(b) || forall d | d in Flatten(a) :: SetsOwnMcp(d))
  {
    AcceptanceIgnoresOrder(checks, a, b);
    FlattenPermutes(a, b);
    if PassSpecs(checks, [], a) == None {
      if RootMcp(a) == RootMcp(b) || forall d | d in Flatten(a) :: SetsOwnMcp(d) {
        SameEntries(RootMcp(a), RootMcp(b), Flatten(a));
        SortIgnoresOrder(RootMcp(b), Flatten(a), Flatten(b));
      } else {
        var d :| d in Flatten(a) && !SetsOwnMcp(d);
        TablesDiffer(a, b, d);
      }
    }
  }

  lemma TablesDiffer(a: seq<Spec>, b: seq<Spec>, d: Declared)
    requires multiset(Flatten(a)) == multiset(Flatten(b)) && Pairwise(Flatten(b))
    requires d in Flatten(a) && RootMcp(a) != RootMcp(b) && !SetsOwnMcp(d)
    ensures Table(a) != Table(b)
  {
    var c := CompileOperation(RootMcp(a), d);
    assert d in Flatten(b) by { assert d in multiset(Flatten(a)); }
    EntryTellsRoot(RootMcp(a), RootMcp(b), Flatten(b), d);
    assert c in Map(Compiler(RootMcp(a)), Flatten(a)) by {
      var i :| 0 <= i < |Flatten(a)| && Flatten(a)[i] == d;
      assert Map(Compiler(RootMcp(a)), Flatten(a))[i] == c;
    }
    TableHasEntry(a, c);
    TableHasEntry(b, c);
  }

  /** Two specs with opposite root settings: the one given first decides, so swapping them changes
      the table. */
  lemma FirstSpecDecides(checks: Checks, s: Spec, t: Spec, d: Declared)
    requires s.mcp == Some(true) && t.mcp == Some(false) && PassSpecs(checks, [], [s, t]) == None
    requires d in Flatten([s, t]) && !SetsOwnMcp(d)
    ensures PassSpecs(checks, [], [t, s]) == None && Table([s, t]) != Table([t, s])
  {
    SwappedIsReordered(s, t, [s, t], [t, s]);
    CompileIgnoresOrderIff(checks, [s, t], [t, s]);
  }

  function PlainOperation(path: string): Operation {
    Operation(path, "GET", None, Some(Dispatch("mock", [])), None, None, [])
  }

  /** Two such specs, accepted in both orders with different tables. */
  lemma SwapChangesTable(unicode: char -> bool) returns (s: Spec, t: Spec)
    ensures var checks := Checks(unicode, (op: Operation) => false, (op: Operation) => false);
            && PassSpecs(checks, [], [s, t]) == None && PassSpecs(checks, [], [t, s]) == None
            && Table([s, t]) != Table([t, s])
  {
    var checks := Checks(unicode, (op: Operation) => false, (op: Operation) => false);
    s := Spec("a.yaml", [], Some(true), [PlainOperation("/a")]);
    t := Spec("b.yaml", [], Some(false), [PlainOperation("/b")]);
    var d, e := Declared("a.yaml", [], PlainOperation("/a")), Declared("b.yaml", [], PlainOperation("/b"));
    FlattenTwo(s, t, d, e);
    PlainPairGood(checks, d, e);
    AcceptsIff(checks, [s, t]);
    FirstSpecDecides(checks, s, t, d);
  }

  lemma FlattenTwo(s: Spec, t: Spec, d: Declared, e: Declared)
    requires Declare(s) == [d] && Declare(t) == [e]
    ensures Flatten([s, t]) == [d, e]
  {
    FlatConcat(Declare, [s], [t]);
    FlatOne(Declare, s);
    FlatOne(Declare, t);
    assert [s] + [t] == [s, t];
  }

  lemma PlainIsFine(checks: Checks, d: Declared, c: char)
    requires c != '{' && c != '}' && d.globals == []
    requires d.op == PlainOperation(['/', c]) && !checks.plaintext(d.op) && !checks.tooComplex(d.op)
    ensures LocalOk(checks, d)
  {
    var x := ShortTemplate(checks.unicode, c);
  }

  lemma PlainPairDiffers(unicode: char -> bool, d: Declared, e: Declared, b: char, c: char)
    requires b != '{' && b != '}' && c != '{' && c != '}' && b != c
    requires d.op.path == ['/', b] && e.op.path == ['/', c]
    ensures Structure(d) != Structure(e)
  {
    var x := ShortTemplate(unicode, b);
    var y := ShortTemplate(unicode, c);
    NormalizeIff(unicode, x, y);
    assert Skeleton(x)[1] != Skeleton(y)[1];
  }

  lemma PlainPairGood(checks: Checks, d: Declared, e: Declared)
    requires d.op == PlainOperation("/a") && e.op == PlainOperation("/b") && d.globals == e.globals == []
    requires !checks.plaintext(d.op) && !checks.plaintext(e.op) && !checks.tooComplex(d.op) && !checks.tooComplex(e.op)
    ensures Good(checks, [d, e])
  {
    PlainIsFine(checks, d, 'a');
    PlainIsFine(checks, e, 'b');
    PlainPairDiffers(checks.unicode, d, e, 'a', 'b');
  }

  lemma SwappedIsReordered(s: Spec, t: Spec, a: seq<Spec>, b: seq<Spec>)
    requires a == [s, t] && b == [t, s]
    ensures Reordered(a, b)
  {
    assert Map(Shape, a) == [Shape(s), Shape(t)];
    assert Map(Shape, b) == [Shape(t), Shape(s)];
  }

  function Unnumbered(c: CompiledOperation): CompiledOperation { c.(index := 0) }

  lemma RenumberKeeps(ops: seq<CompiledOperation>)
    requires forall x | x in ops :: x.index == 0
    ensures Map(Unnumbered, Renumber(ops)) == ops
  {
    forall i | 0 <= i < |ops| ensures Map(Unnumbered, Renumber(ops))[i] == ops[i] {
      assert ops[i] in ops;
    }
  }

  /** The table lists every declared operation once, and `index` is the position. */
  lemma TableOrdered(specs: seq<Spec>)
    ensures multiset(Map(Unnumbered, Table(specs))) == multiset(Map(Compiler(RootMcp(specs)), Flatten(specs)))
    ensures forall i | 0 <= i < |Table(specs)| :: Table(specs)[i].index == i
  {
    var ops := Map(Compiler(RootMcp(specs)), Flatten(specs));
    var sorted := Sort(KeyLe, ops);
    SortPermutes(KeyLe, ops);
    forall x | x in sorted ensures x.index == 0 {
      assert x in multiset(sorted);
      assert x in ops;
    }
    RenumberKeeps(sorted);
  }

  /** Its entries ascend by path, and by method where the paths are equal. */
  lemma TableAscends(specs: seq<Spec>, i: nat, j: nat)
    requires i < j < |Table(specs)|
    ensures var a, b := Table(specs)[i], Table(specs)[j];
            StrLess(a.path, b.path) || (a.path == b.path && StrLe(a.httpMethod, b.httpMethod))
  {
    var ops := Map(Compiler(RootMcp(specs)), Flatten(specs));
    KeyOrder();
    SortSorted(KeyLe, ops);
    assert KeyLe(Sort(KeyLe, ops)[i], Sort(KeyLe, ops)[j]);
  }

  /** After a successful compile, no two operations with the same method have the same skeleton. */
  lemma NoSharedSkeleton(checks: Checks, specs: seq<Spec>, i: nat, j: nat, x: seq<Token>, y: seq<Token>)
    requires PassSpecs(checks, [], specs) == None
    requires i < j < |Flatten(specs)|
    requires Template(checks.unicode, x) && Template(checks.unicode, y)
    requires Flatten(specs)[i].op.path == Print(x) && Flatten(specs)[j].op.path == Print(y)
    requires Flatten(specs)[i].op.httpMethod == Flatten(specs)[j].op.httpMethod
    ensures Skeleton(x) != Skeleton(y)
  {
    AcceptsIff(checks, specs);
    assert Compatible(Flatten(specs)[i], Flatten(specs)[j]);
    NormalizeIff(checks.unicode, x, y);
  }

  // ---------- What an entry of the table says ----------

  /** The middlewares of an operation: the spec's if it lists none of its own, none if its list is
      empty, and otherwise the spec's that its list does not mention, followed by its list. */
  ghost predicate HasMiddlewares(ms: seq<Middleware>, globals: seq<Middleware>, own: Option<seq<Middleware>>) {
    match own
    case None => ms == globals
    case Some(list) =>
      if list == [] then ms == []
      else
        && |ms| >= |list| && ms[|ms| - |list|..] == list
        && ms[..|ms| - |list|] == Filter(Unmentioned(set m | m in list :: m.name), globals)
  }

  function Unmentioned(names: set<string>): Middleware -> bool { (g: Middleware) => g.name !in names }

  /** The first spec with a root MCP setting enables it. */
  ghost predicate RootEnabled(specs: seq<Spec>) {
    exists k | 0 <= k < |specs| :: specs[k].mcp == Some(true) && forall j | 0 <= j < k :: specs[j].mcp == None
  }

  ghost predicate HasMcp(mcp: McpSetting, own: Option<McpSetting>, root: bool) {
    && mcp.description == (if own.Some? then own.value.description else None)
    && mcp.enabled == if own.Some? && own.value.enabled.Some? then own.value.enabled else if root then Some(true) else None
  }

  lemma {:induction false} FilterAgrees(a: Middleware -> bool, b: Middleware -> bool, ms: seq<Middleware>)
    requires forall m | m in ms :: a(m) == b(m)
    ensures Filter(a, ms) == Filter(b, ms)
  {
    if ms != [] { FilterAgrees(a, b, ms[1..]); }
  }

  lemma ResolvedHas(globals: seq<Middleware>, own: Option<seq<Middleware>>)
    ensures HasMiddlewares(ResolveMiddlewares(globals, own), globals, own)
  {
    if own.Some? && own.value != [] {
      var list, ms := own.value, ResolveMiddlewares(globals, own);
      var names := set m | m in list :: m.name;
      FilterAgrees(NotOverridden(list), Unmentioned(names), globals);
      var kept := Filter(NotOverridden(list), globals);
      assert ms == kept + list && ms[..|ms| - |list|] == kept;
    }
  }

  lemma {:induction false} RootIff(specs: seq<Spec>)
    ensures RootMcp(specs) <==> RootEnabled(specs)
  {
    if specs != [] {
      var rest := specs[1..];
      RootIff(rest);
      if specs[0].mcp == None {
        if k :| 0 <= k < |rest| && rest[k].mcp == Some(true) && forall j | 0 <= j < k :: rest[j].mcp == None {
          assert specs[k + 1] == rest[k];
          forall j | 0 <= j < k + 1 ensures specs[j].mcp == None {
            if j > 0 { assert specs[j] == rest[j - 1]; }
          }
        }
        if k :| 0 <= k < |specs| && specs[k].mcp == Some(true) && forall j | 0 <= j < k :: specs[j].mcp == None {
          assert rest[k - 1] == specs[k];
          forall j | 0 <= j < k - 1 ensures rest[j].mcp == None { assert rest[j] == specs[j + 1]; }
        }
      }
    }
  }

  lemma {:induction false} IsDeclared(specs: seq<Spec>, s: Spec, op: Operation)
    requires s in specs && op in s.operations
    ensures Declared(s.file, s.globals, op) in Flatten(specs)
  {
    if specs[0] == s {
      var i :| 0 <= i < |s.operations| && s.operations[i] == op;
      assert Declare(s)[i] == Declared(s.file, s.globals, op);
      assert Declare(s)[i] in Declare(s);
    } else {
      IsDeclared(specs[1..], s, op);
    }
  }

  /** Every declared operation of an accepted compile has its entry, with its own fields, the
      middlewares that apply to it and its resolved MCP setting. */
  lemma EntryOf(checks: Checks, specs: seq<Spec>, s: Spec, op: Operation) returns (i: nat)
    requires PassSpecs(checks, [], specs) == None && s in specs && op in s.operations
    ensures i < |Table(specs)|
    ensures var e := Table(specs)[i];
            && e.index == i && e.path == op.path && e.httpMethod == op.httpMethod
            && e.operationId == op.operationId && op.dispatch == Some(e.dispatch) && e.details == op.details
            && HasMiddlewares(e.middlewares, s.globals, op.middlewares)
            && HasMcp(e.mcp, op.mcp, RootEnabled(specs))
  {
    var d, root := Declared(s.file, s.globals, op), RootMcp(specs);
    var c := CompileOperation(root, d);
    AcceptsIff(checks, specs);
    IsDeclared(specs, s, op);
    assert LocalOk(checks, d);
    var ops := Map(Compiler(root), Flatten(specs));
    assert c in ops by {
      var k :| 0 <= k < |Flatten(specs)| && Flatten(specs)[k] == d;
      assert ops[k] == c;
    }
    TableHasEntry(specs, c);
    i :| 0 <= i < |Table(specs)| && Map(Unnumbered, Table(specs))[i] == c;
    TableOrdered(specs);
    ResolvedHas(s.globals, op.middlewares);
    RootIff(specs);
  }

  /** With named globals, an operation's middlewares are all named exactly when its own are. */
  lemma NamedIff(globals: seq<Middleware>, own: Option<seq<Middleware>>)
    requires Named(globals)
    ensures Named(ResolveMiddlewares(globals, own)) <==> own.None? || Named(own.value)
  {
    if own.Some? && own.value != [] {
      var kept := Filter(NotOverridden(own.value), globals);
      assert forall m | m in own.value :: m in kept + own.value;
    }
  }

  /** Which conflict is reported: a used operation id first, then a used path and method, then a path
      of the same skeleton under the same method. */
  lemma ConflictMeans(done: seq<Declared>, d: Declared)
    ensures var id := exists x | x in done :: x.op.operationId.Some? && x.op.operationId == d.op.operationId;
            var route := exists x | x in done :: x.op.path == d.op.path && x.op.httpMethod == d.op.httpMethod;
            var alike := exists x | x in done :: Normalize(x.op.path) == Normalize(d.op.path) && x.op.httpMethod == d.op.httpMethod;
            && (Conflict(done, d) == Some(DuplicateOperationId) <==> id)
            && (Conflict(done, d) == Some(RoutingConflict) <==> !id && route)
            && (Conflict(done, d) == Some(AmbiguousRoute) <==> !id && !route && alike)
            && (Conflict(done, d) == None <==> !id && !route && !alike)
  {
    if x :| x in done && x.op.path == d.op.path && x.op.httpMethod == d.op.httpMethod { assert Route(x) == Route(d); }
    if x :| x in done && Normalize(x.op.path) == Normalize(d.op.path) && x.op.httpMethod == d.op.httpMethod {
      assert Structure(x) == Structure(d);
    }
  }

  /** Which of the other errors is reported, each only if nothing listed before it applies. */
  lemma ErrorMeans(checks: Checks, done: seq<Declared>, d: Declared)
    ensures var error, fits := FirstError(checks, done, d), Validate(checks.unicode, d.op.path) == None && Conflict(done, d) == None;
            var unnamed := d.op.middlewares.Some? && !Named(d.op.middlewares.value);
            && (forall reason :: error == Some(InvalidPathTemplate(reason)) <==> Validate(checks.unicode, d.op.path) == Some(reason))
            && (error == Some(MissingDispatch) <==> fits && d.op.dispatch.None?)
            && (error == Some(PlaintextUpstream) <==> fits && d.op.dispatch.Some? && checks.plaintext(d.op))
            && (Named(d.globals) ==>
                  (error == Some(MissingMiddlewareName) <==>
                    fits && d.op.dispatch.Some? && !checks.plaintext(d.op) && unnamed))
            && (Named(d.globals) ==>
                  (error == Some(SchemaTooComplex) <==>
                    fits && d.op.dispatch.Some? && !checks.plaintext(d.op) && !unnamed && checks.tooComplex(d.op)))
  {
    if Named(d.globals) { NamedIff(d.globals, d.op.middlewares); }
  }

  /** An operation that is fine by itself: a template, a dispatcher, and no nameless middleware in its
      own list. */
  ghost predicate IsFine(checks: Checks, op: Operation) {
    && (exists ts :: Template(checks.unicode, ts) && op.path == Print(ts)) && op.dispatch.Some?
    && !checks.plaintext(op) && !checks.tooComplex(op)
    && (op.middlewares.Some? ==> forall m | m in op.middlewares.value :: |m.name| > 0)
  }

  /** The accepted specs, in terms of what is declared: named middlewares, operations that are fine by
      themselves, and no two with the same id, or with the same normal form and method. */
  lemma AcceptsMeans(checks: Checks, specs: seq<Spec>)
    ensures PassSpecs(checks, [], specs) == None
       <==> && (forall s | s in specs :: forall g | g in s.globals :: |g.name| > 0)
            && (forall d | d in Flatten(specs) :: IsFine(checks, d.op))
            && forall i, j | 0 <= i < j < |Flatten(specs)| ::
                 var a, b := Flatten(specs)[i].op, Flatten(specs)[j].op;
                 && (Normalize(a.path) != Normalize(b.path) || a.httpMethod != b.httpMethod)
                 && (a.operationId == None || a.operationId != b.operationId)
  {
    AcceptsIff(checks, specs);
    var ds := Flatten(specs);
    if forall s | s in specs :: forall g | g in s.globals :: |g.name| > 0 {
      forall d | d in ds ensures LocalOk(checks, d) <==> IsFine(checks, d.op) {
        ValidateIff(checks.unicode, d.op.path);
        GlobalsAreDeclared(specs, d);
        NamedIff(d.globals, d.op.middlewares);
      }
    }
    forall i, j | 0 <= i < j < |ds|
      ensures Compatible(ds[i], ds[j])
         <==> var a, b := ds[i].op, ds[j].op;
              && (Normalize(a.path) != Normalize(b.path) || a.httpMethod != b.httpMethod)
              && (a.operationId == None || a.operationId != b.operationId)
    {
    }
  }

  lemma {:induction false} GlobalsAreDeclared(specs: seq<Spec>, d: Declared)
    requires d in Flatten(specs)
    ensures exists s | s in specs :: d.globals == s.globals
  {
    if d in Declare(specs[0]) {
      assert specs[0] in specs;
    } else {
      GlobalsAreDeclared(specs[1..], d);
    }
  }
}
