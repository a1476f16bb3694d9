/**
 Secret references in plugin configuration: collecting them from a JSON tree, resolving them all
 before start-up, replacing them in the tree, and scoping the store that a plugin may ask.
 `Resolver` stands for the environment and the secrets directory.
 */
module Secrets {
  import opened Lex
  import opened Sorting
  import opened Text

  datatype Json =
    | Null
    | Bool(b: bool)
    | Number(n: int)
    | Str(s: string)
    | Arr(items: seq<Json>)
    | Obj(fields: seq<Field>)

  datatype Field = Field(key: string, value: Json)

  datatype SecretsError =
    | EnvNotFound(name: string) | FileNotFound(path: string) | FileReadError(path: string)
    | UnsupportedScheme(scheme: string) | InvalidReference(reference: string)

  datatype Result<+T, +E> = Ok(value: T) | Err(error: E)

  datatype Resolver = Resolver(env: string -> Option<string>, file: string -> Result<string, SecretsError>)

  type Store = map<string, string>

  // ---------- One reference ----------

  predicate IsReference(s: string) {
    "env://" <= s || "file://" <= s || "vault://" <= s || "aws-sm://" <= s || "k8s://" <= s
  }

  function ResolveSecret(resolver: Resolver, reference: string): Result<string, SecretsError> {
    if "env://" <= reference then
      var name := reference[6..];
      var value := resolver.env(name);
      if value.Some? then Ok(value.value) else Err(EnvNotFound(name))
    else if "file://" <= reference then resolver.file(reference[7..])
    else if "vault://" <= reference then Err(UnsupportedScheme("vault"))
    else if "aws-sm://" <= reference then Err(UnsupportedScheme("aws-sm"))
    else if "k8s://" <= reference then Err(UnsupportedScheme("k8s"))
    else Err(InvalidReference(reference))
  }

  /** What a reference asks for: the variable or the file that follows its scheme. */
  lemma ReferenceAsks(resolver: Resolver, rest: string)
    ensures ResolveSecret(resolver, "env://" + rest)
         == if resolver.env(rest).Some? then Ok(resolver.env(rest).value) else Err(EnvNotFound(rest))
    ensures ResolveSecret(resolver, "file://" + rest) == resolver.file(rest)
  {
    var env, file := "env://" + rest, "file://" + rest;
    assert env[..6] == "env://" && env[6..] == rest;
    assert file[..7] == "file://" && file[7..] == rest && file[0] == 'f';
  }

  /** The schemes that are only reserved. */
  lemma ReservedSchemes(resolver: Resolver, rest: string)
    ensures ResolveSecret(resolver, "vault://" + rest) == Err(UnsupportedScheme("vault"))
    ensures ResolveSecret(resolver, "aws-sm://" + rest) == Err(UnsupportedScheme("aws-sm"))
    ensures ResolveSecret(resolver, "k8s://" + rest) == Err(UnsupportedScheme("k8s"))
  {
    var vault, aws, k8s := "vault://" + rest, "aws-sm://" + rest, "k8s://" + rest;
    assert vault[..8] == "vault://" && vault[0] == 'v';
    assert aws[..9] == "aws-sm://" && aws[0] == 'a';
    assert k8s[..6] == "k8s://" && k8s[0] == 'k';
  }

  /** A string is taken for a reference exactly if it starts with one of the five schemes, and
      anything else is no valid reference. */
  lemma ReferenceIff(resolver: Resolver, s: string)
    ensures IsReference(s) <==>
              exists scheme, rest :: IsScheme(scheme) && s == scheme + "://" + rest
    ensures !IsReference(s) ==> ResolveSecret(resolver, s) == Err(InvalidReference(s))
  {
    if IsReference(s) { var scheme, rest := SchemeOf(s); }
    if scheme, rest :| IsScheme(scheme) && s == scheme + "://" + rest { SchemeIsReference(scheme, rest); }
  }

  predicate IsScheme(s: string) { s in {"env", "file", "vault", "aws-sm", "k8s"} }

  lemma SchemeOf(s: string) returns (scheme: string, rest: string)
    requires IsReference(s)
    ensures IsScheme(scheme) && s == scheme + "://" + rest
  {
    scheme := if "env://" <= s then "env" else if "file://" <= s then "file" else if "vault://" <= s then "vault"
              else if "aws-sm://" <= s then "aws-sm" else "k8s";
    var start := scheme + "://";
    assert start == "env://" || start == "file://" || start == "vault://" || start == "aws-sm://" || start == "k8s://";
    rest := s[|start|..];
    assert s == start + rest;
  }

  lemma SchemeIsReference(scheme: string, rest: string)
    requires IsScheme(scheme)
    ensures IsReference(scheme + "://" + rest)
  {
    var start, s := scheme + "://", scheme + "://" + rest;
    assert start <= s;
    assert start == "env://" || start == "file://" || start == "vault://" || start == "aws-sm://" || start == "k8s://";
  }

  // ---------- References in a tree ----------

  function Refs(v: Json): seq<string>
    decreases v
  {
    match v
    case Str(s) => if IsReference(s) then [s] else []
    case Arr(items) => ItemRefs(items)
    case Obj(fields) => FieldRefs(fields)
    case _ => []
  }

  function ItemRefs(items: seq<Json>): seq<string>
    decreases items
  {
    if items == [] then [] else Refs(items[0]) + ItemRefs(items[1..])
  }

  function FieldRefs(fields: seq<Field>): seq<string>
    decreases fields
  {
    if fields == [] then [] else Refs(fields[0].value) + FieldRefs(fields[1..])
  }

  lemma {:induction false} ItemRefsSnoc(items: seq<Json>, i: nat)
    requires i < |items|
    ensures ItemRefs(items[..i + 1]) == ItemRefs(items[..i]) + Refs(items[i])
    decreases i
  {
    if i == 0 {
      assert items[..1][1..] == [] && items[..0] == [];
      assert ItemRefs(items[..1]) == Refs(items[0]) + ItemRefs([]);
    } else {
      ItemRefsSnoc(items[1..], i - 1);
      assert items[..i + 1][1..] == items[1..][..i] && items[..i][1..] == items[1..][..i - 1];
      Assoc(Refs(items[0]), ItemRefs(items[1..][..i - 1]), Refs(items[i]));
    }
  }

  lemma {:induction false} FieldRefsSnoc(fields: seq<Field>, i: nat)
    requires i < |fields|
    ensures FieldRefs(fields[..i + 1]) == FieldRefs(fields[..i]) + Refs(fields[i].value)
    decreases i
  {
    if i == 0 {
      assert fields[..1][1..] == [] && fields[..0] == [];
      assert FieldRefs(fields[..1]) == Refs(fields[0].value) + FieldRefs([]);
    } else {
      FieldRefsSnoc(fields[1..], i - 1);
      assert fields[..i + 1][1..] == fields[1..][..i] && fields[..i][1..] == fields[1..][..i - 1];
      Assoc(Refs(fields[0].value), FieldRefs(fields[1..][..i - 1]), Refs(fields[i].value));
    }
  }

  /** Pushes the references of `value` onto `refs`, depth first. */
  method CollectRefs(value: Json, refs: seq<string>) returns (collected: seq<string>)
    ensures collected == refs + Refs(value)
    decreases value
  {
    collected := refs;
    match value {
      case Str(s) =>
        if IsReference(s) { collected := collected + [s]; }
      case Arr(items) =>
        for i := 0 to |items|
          invariant collected == refs + ItemRefs(items[..i])
        {
          ItemRefsSnoc(items, i);
          Assoc(refs, ItemRefs(items[..i]), Refs(items[i]));
          collected := CollectRefs(items[i], collected);
        }
        assert items[..|items|] == items;
      case Obj(fields) =>
        for i := 0 to |fields|
          invariant collected == refs + FieldRefs(fields[..i])
        {
          FieldRefsSnoc(fields, i);
          Assoc(refs, FieldRefs(fields[..i]), Refs(fields[i].value));
          collected := CollectRefs(fields[i].value, collected);
        }
        assert fields[..|fields|] == fields;
      case _ =>
    }
  }

  // ---------- Replacing references ----------

  function Resolve(v: Json, store: Store): Json
    decreases v
  {
    match v
    case Str(s) => if IsReference(s) && s in store then Str(store[s]) else v
    case Arr(items) => Arr(ResolveItems(items, store))
    case Obj(fields) => Obj(ResolveFields(fields, store))
    case _ => v
  }

  function ResolveItems(items: seq<Json>, store: Store): (r: seq<Json>)
    ensures |r| == |items|
    ensures forall i | 0 <= i < |items| :: r[i] == Resolve(items[i], store)
    decreases items
  {
    if items == [] then [] else [Resolve(items[0], store)] + ResolveItems(items[1..], store)
  }

  function ResolveFields(fields: seq<Field>, store: Store): (r: seq<Field>)
    ensures |r| == |fields|
    ensures forall i | 0 <= i < |fields| :: r[i] == Field(fields[i].key, Resolve(fields[i].value, store))
    decreases fields
  {
    if fields == [] then []
    else [Field(fields[0].key, Resolve(fields[0].value, store))] + ResolveFields(fields[1..], store)
  }

  function Scoped(store: Store, allowed: set<string>): (scoped: Store)
    ensures scoped.Keys == store.Keys * allowed
    ensures forall k | k in scoped :: scoped[k] == store[k]
  {
    map k | k in store && k in allowed :: store[k]
  }

  ghost predicate Agree(a: Store, b: Store, refs: seq<string>) {
    forall r | r in refs :: (r in a <==> r in b) && (r in a ==> a[r] == b[r])
  }

  /** A config sees nothing of the store but its own references. */
  lemma {:induction false} ResolveDependsOnRefs(v: Json, a: Store, b: Store)
    requires Agree(a, b, Refs(v))
    ensures Resolve(v, a) == Resolve(v, b)
    decreases v
  {
    match v
    case Str(s) =>
      if IsReference(s) { assert s in Refs(v); }
    case Arr(items) => ItemsDependOnRefs(items, a, b);
    case Obj(fields) => FieldsDependOnRefs(fields, a, b);
    case _ =>
  }

  lemma {:induction false} ItemsDependOnRefs(items: seq<Json>, a: Store, b: Store)
    requires Agree(a, b, ItemRefs(items))
    ensures ResolveItems(items, a) == ResolveItems(items, b)
    decreases items
  {
    if items != [] {
      ResolveDependsOnRefs(items[0], a, b);
      ItemsDependOnRefs(items[1..], a, b);
    }
  }

  lemma {:induction false} FieldsDependOnRefs(fields: seq<Field>, a: Store, b: Store)
    requires Agree(a, b, FieldRefs(fields))
    ensures ResolveFields(fields, a) == ResolveFields(fields, b)
    decreases fields
  {
    if fields != [] {
      ResolveDependsOnRefs(fields[0].value, a, b);
      FieldsDependOnRefs(fields[1..], a, b);
    }
  }

  /** Scoping the store to the references of a config does not change how that config resolves. */
  lemma ScopedResolvesAlike(v: Json, store: Store, allowed: set<string>)
    requires forall r | r in Refs(v) :: r in allowed
    ensures Resolve(v, Scoped(store, allowed)) == Resolve(v, store)
  {
    ResolveDependsOnRefs(v, Scoped(store, allowed), store);
  }

  // ---------- Positions in a tree ----------

  /** The subtree at a position, given as the child indices from the root. */
  function At(v: Json, path: seq<nat>): Option<Json>
    decreases |path|
  {
    if path == [] then Some(v)
    else if v.Arr? && path[0] < |v.items| then At(v.items[path[0]], path[1..])
    else if v.Obj? && path[0] < |v.fields| then At(v.fields[path[0]].value, path[1..])
    else None
  }

  /** Resolving keeps the tree's shape and keys, and acts on every position alone. */
  lemma {:induction false} ResolveAt(v: Json, store: Store, path: seq<nat>)
    ensures At(Resolve(v, store), path)
         == match At(v, path) { case None => None case Some(node) => Some(Resolve(node, store)) }
    decreases |path|
  {
    if path != [] {
      if v.Arr? && path[0] < |v.items| {
        ResolveAt(v.items[path[0]], store, path[1..]);
      } else if v.Obj? && path[0] < |v.fields| {
        ResolveAt(v.fields[path[0]].value, store, path[1..]);
      }
    }
  }

  lemma {:induction false} ItemRefsContain(items: seq<Json>, i: nat, r: string)
    requires i < |items| && r in Refs(items[i])
    ensures r in ItemRefs(items)
    decreases i
  {
    if i > 0 { ItemRefsContain(items[1..], i - 1, r); }
  }

  lemma {:induction false} FieldRefsContain(fields: seq<Field>, i: nat, r: string)
    requires i < |fields| && r in Refs(fields[i].value)
    ensures r in FieldRefs(fields)
    decreases i
  {
    if i > 0 { FieldRefsContain(fields[1..], i - 1, r); }
  }

  /** Every reference leaf is collected. */
  lemma {:induction false} LeafIsCollected(v: Json, path: seq<nat>, s: string)
    requires At(v, path) == Some(Str(s)) && IsReference(s)
    ensures s in Refs(v)
    decreases |path|
  {
    if path != [] {
      if v.Arr? {
        LeafIsCollected(v.items[path[0]], path[1..], s);
        ItemRefsContain(v.items, path[0], s);
      } else {
        LeafIsCollected(v.fields[path[0]].value, path[1..], s);
        FieldRefsContain(v.fields, path[0], s);
      }
    }
  }

  // ---------- Resolving everything ----------

  function AllRefs(configs: seq<Json>): seq<string> { Flat(Refs, configs) }

  /** Drops consecutive repetitions. */
  function Dedup(s: seq<string>): (r: seq<string>)
    ensures forall x :: x in r <==> x in s
  {
    if |s| < 2 then s
    else if s[0] == s[1] then Dedup(s[1..])
    else [s[0]] + Dedup(s[1..])
  }

  /** The distinct references in order. */
  function UniqueRefs(configs: seq<Json>): seq<string> { Dedup(Sort(StrLe, AllRefs(configs))) }

  function Errors(resolver: Resolver, refs: seq<string>): seq<SecretsError> {
    if refs == [] then []
    else
      var last := ResolveSecret(resolver, refs[|refs| - 1]);
      Errors(resolver, refs[..|refs| - 1]) + if last.Err? then [last.error] else []
  }

  lemma {:induction false} ErrorsIff(resolver: Resolver, refs: seq<string>)
    ensures Errors(resolver, refs) == [] <==> forall s | s in refs :: ResolveSecret(resolver, s).Ok?
  {
    if refs != [] {
      var front, last := refs[..|refs| - 1], refs[|refs| - 1];
      ErrorsIff(resolver, front);
      assert refs == front + [last];
    }
  }

  method CollectAll(configs: seq<Json>) returns (allRefs: seq<string>)
    ensures allRefs == AllRefs(configs)
  {
    allRefs := [];
    for i := 0 to |configs|
      invariant allRefs == AllRefs(configs[..i])
    {
      assert configs[..i + 1] == configs[..i] + [configs[i]];
      FlatConcat(Refs, configs[..i], [configs[i]]);
      FlatOne(Refs, configs[i]);
      allRefs := CollectRefs(configs[i], allRefs);
    }
    assert configs[..|configs|] == configs;
  }

  method ResolveEach(resolver: Resolver, refs: seq<string>) returns (resolved: Store, errors: seq<SecretsError>)
    ensures errors == Errors(resolver, refs)
    ensures errors == [] ==> resolved.Keys == set s | s in refs
    ensures forall s | s in resolved :: ResolveSecret(resolver, s) == Ok(resolved[s])
  {
    resolved, errors := map[], [];
    for i := 0 to |refs|
      invariant errors == Errors(resolver, refs[..i])
      invariant errors == [] ==> resolved.Keys == set s | s in refs[..i]
      invariant forall s | s in resolved :: ResolveSecret(resolver, s) == Ok(resolved[s])
    {
      assert refs[..i + 1] == refs[..i] + [refs[i]] && refs[..i + 1][..i] == refs[..i];
      match ResolveSecret(resolver, refs[i]) {
        case Ok(value) =>
          resolved := resolved[refs[i] := value];
        case Err(e) =>
          errors := errors + [e];
      }
    }
    assert refs[..|refs|] == refs;
  }

  /** Either every reference of every config resolves and the store holds exactly those, or the
      errors of all distinct references that do not are returned. */
  method ResolveAllSecrets(resolver: Resolver, configs: seq<Json>) returns (r: Result<Store, seq<SecretsError>>)
    ensures r.Ok? <==> forall i, s | 0 <= i < |configs| && s in Refs(configs[i]) :: ResolveSecret(resolver, s).Ok?
    ensures r.Err? ==> r.error == Errors(resolver, UniqueRefs(configs))
    ensures r.Ok? ==>
              && r.value.Keys == (set s | s in UniqueRefs(configs))
              && (forall s | s in r.value :: ResolveSecret(resolver, s) == Ok(r.value[s]))
  {
    var allRefs := CollectAll(configs);
    var unique := Dedup(Sort(StrLe, allRefs));
    var resolved, errors := ResolveEach(resolver, unique);
    ErrorsIff(resolver, unique);
    forall s ensures s in unique <==> exists i | 0 <= i < |configs| :: s in Refs(configs[i]) { UniqueContains(configs, s); }
    r := if errors == [] then Ok(resolved) else Err(errors);
  }

  lemma {:induction false} FlatContains(configs: seq<Json>, r: string)
    ensures r in AllRefs(configs) <==> exists i | 0 <= i < |configs| :: r in Refs(configs[i])
  {
    if configs != [] {
      FlatContains(configs[1..], r);
      if r in AllRefs(configs[1..]) {
        var i :| 0 <= i < |configs[1..]| && r in Refs(configs[1..][i]);
        assert configs[1..][i] == configs[i + 1];
      }
      forall i | 0 <= i < |configs| && r in Refs(configs[i]) ensures r in AllRefs(configs) {
        if i > 0 { assert configs[i] == configs[1..][i - 1]; }
      }
    }
  }

  lemma UniqueContains(configs: seq<Json>, r: string)
    ensures r in UniqueRefs(configs) <==> exists i | 0 <= i < |configs| :: r in Refs(configs[i])
  {
    FlatContains(configs, r);
    SortPermutes(StrLe, AllRefs(configs));
    assert r in multiset(Sort(StrLe, AllRefs(configs))) <==> r in multiset(AllRefs(configs));
  }

  /** Each distinct reference is resolved once: the sorted, deduplicated list is strictly
      ascending. */
  lemma UniqueAscends(configs: seq<Json>)
    ensures forall i, j | 0 <= i < j < |UniqueRefs(configs)| :: StrLess(UniqueRefs(configs)[i], UniqueRefs(configs)[j])
  {
    forall a, b, c
      ensures StrLe(a, b) || StrLe(b, a)
      ensures StrLe(a, b) && StrLe(b, c) ==> StrLe(a, c)
    {
      StrOrder(a, b, c);
    }
    SortSorted(StrLe, AllRefs(configs));
    DedupAscends(Sort(StrLe, AllRefs(configs)));
  }

  lemma {:induction false} DedupAscends(s: seq<string>)
    requires Sorted(StrLe, s)
    ensures forall i, j | 0 <= i < j < |Dedup(s)| :: StrLess(Dedup(s)[i], Dedup(s)[j])
    ensures s != [] ==> Dedup(s) != [] && Dedup(s)[0] == s[0]
  {
    if |s| >= 2 {
      DedupAscends(s[1..]);
      if s[0] != s[1] {
        var rest := Dedup(s[1..]);
        forall j | 0 <= j < |rest| ensures StrLess(s[0], rest[j]) {
          StrOrder(s[0], s[1], rest[j]);
          StrOrder(s[1], s[0], s[1]);
          assert StrLe(s[0], s[1]);
          if j > 0 { assert StrLess(rest[0], rest[j]); StrOrder(s[1], rest[j], s[0]); }
        }
      }
    }
  }

  /** After a successful start-up, every reference leaf of every config resolves to its secret,
      through the full store and through any scope that contains the config's references. */
  lemma AllLeavesResolved(resolver: Resolver, configs: seq<Json>, store: Store, i: nat, path: seq<nat>, s: string)
    requires store.Keys == set r | r in UniqueRefs(configs)
    requires forall r | r in store :: ResolveSecret(resolver, r) == Ok(store[r])
    requires i < |configs| && At(configs[i], path) == Some(Str(s))
    ensures IsReference(s) ==>
              && ResolveSecret(resolver, s).Ok?
              && At(Resolve(configs[i], store), path) == Some(Str(ResolveSecret(resolver, s).value))
    ensures !IsReference(s) ==> At(Resolve(configs[i], store), path) == Some(Str(s))
    ensures Resolve(configs[i], Scoped(store, set r | r in Refs(configs[i]))) == Resolve(configs[i], store)
  {
    ResolveAt(configs[i], store, path);
    ScopedResolvesAlike(configs[i], store, set r | r in Refs(configs[i]));
    if IsReference(s) {
      LeafIsCollected(configs[i], path, s);
      UniqueContains(configs, s);
    }
  }
}
