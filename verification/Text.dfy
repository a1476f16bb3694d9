/** Splitting and joining sequences on a separator, and mapping over sequences. */
module Text {

  datatype Option<+T> = None | Some(value: T)

  lemma Assoc<T>(a: seq<T>, b: seq<T>, c: seq<T>)
    ensures a + (b + c) == (a + b) + c
  {
  }

  function Split<T(==)>(s: seq<T>, sep: T): (parts: seq<seq<T>>)
    ensures |parts| >= 1
    ensures forall p | p in parts :: sep !in p
  {
    if s == [] then [[]]
    else
      var rest := Split(s[1..], sep);
      if s[0] == sep then [[]] + rest else [[s[0]] + rest[0]] + rest[1..]
  }

  function Join<T>(parts: seq<seq<T>>, sep: T): seq<T> {
    if parts == [] then []
    else if |parts| == 1 then parts[0]
    else parts[0] + [sep] + Join(parts[1..], sep)
  }

  lemma {:induction false} SplitPrefix<T>(p: seq<T>, s: seq<T>, sep: T)
    requires sep !in p
    ensures Split(p + s, sep) == [p + Split(s, sep)[0]] + Split(s, sep)[1..]
  {
    if p == [] {
      assert p + s == s;
      assert p + Split(s, sep)[0] == Split(s, sep)[0];
    } else {
      SplitPrefix(p[1..], s, sep);
      assert (p + s)[1..] == p[1..] + s;
      assert p == [p[0]] + p[1..];
      assert p + Split(s, sep)[0] == [p[0]] + (p[1..] + Split(s, sep)[0]);
    }
  }

  /** Splitting undoes joining for separator-free parts. */
  lemma {:induction false} SplitJoin<T>(parts: seq<seq<T>>, sep: T)
    requires parts != [] && forall p | p in parts :: sep !in p
    ensures Split(Join(parts, sep), sep) == parts
  {
    if |parts| == 1 {
      SplitPrefix(parts[0], [], sep);
      assert parts[0] + [] == parts[0];
    } else {
      var rest := Join(parts[1..], sep);
      SplitJoin(parts[1..], sep);
      SplitPrefix(parts[0], [sep] + rest, sep);
      assert ([sep] + rest)[1..] == rest;
      assert Split([sep] + rest, sep) == [[]] + parts[1..];
      assert parts[0] + [] == parts[0];
      assert parts[0] + [sep] + rest == parts[0] + ([sep] + rest);
    }
  }

  /** Joining undoes splitting. */
  lemma {:induction false} JoinSplit<T>(s: seq<T>, sep: T)
    ensures Join(Split(s, sep), sep) == s
  {
    if s != [] {
      JoinSplit(s[1..], sep);
      var rest := Split(s[1..], sep);
      assert Split(s, sep)[1..] == if s[0] == sep then rest else rest[1..];
      assert s == [s[0]] + s[1..];
    }
  }

  lemma {:induction false} JoinConcat<T>(p: seq<seq<T>>, q: seq<seq<T>>, sep: T)
    requires p != [] && q != []
    ensures Join(p + q, sep) == Join(p, sep) + [sep] + Join(q, sep)
  {
    assert (p + q)[1..] == p[1..] + q;
    if |p| == 1 {
      assert p[1..] + q == q;
    } else {
      JoinConcat(p[1..], q, sep);
      Assoc(p[0] + [sep], Join(p[1..], sep) + [sep], Join(q, sep));
      Assoc(p[0] + [sep], Join(p[1..], sep), [sep]);
    }
  }

  lemma SplitConcat<T>(a: seq<T>, b: seq<T>, sep: T)
    ensures Split(a + [sep] + b, sep) == Split(a, sep) + Split(b, sep)
  {
    var p, q := Split(a, sep), Split(b, sep);
    JoinSplit(a, sep);
    JoinSplit(b, sep);
    JoinConcat(p, q, sep);
    SplitJoin(p + q, sep);
  }

  /** The concatenated images. */
  function Flat<A, B>(f: A -> seq<B>, s: seq<A>): seq<B> {
    if s == [] then [] else f(s[0]) + Flat(f, s[1..])
  }

  lemma {:induction false} FlatConcat<A, B>(f: A -> seq<B>, a: seq<A>, b: seq<A>)
    ensures Flat(f, a + b) == Flat(f, a) + Flat(f, b)
  {
    if a == [] {
      assert a + b == b;
    } else {
      FlatConcat(f, a[1..], b);
      assert (a + b)[1..] == a[1..] + b;
      Assoc(f(a[0]), Flat(f, a[1..]), Flat(f, b));
    }
  }

  lemma FlatOne<A, B>(f: A -> seq<B>, x: A)
    ensures Flat(f, [x]) == f(x)
  {
    assert [x][1..] == [];
    assert Flat(f, [x]) == f(x) + Flat(f, []);
  }

  /** Cutting at element `k`. */
  lemma FlatSplit<A, B>(f: A -> seq<B>, s: seq<A>, k: nat)
    requires k < |s|
    ensures Flat(f, s) == Flat(f, s[..k]) + f(s[k]) + Flat(f, s[k + 1..])
  {
    assert s == s[..k] + s[k..];
    FlatConcat(f, s[..k], s[k..]);
    assert s[k..][1..] == s[k + 1..];
    Assoc(Flat(f, s[..k]), f(s[k]), Flat(f, s[k + 1..]));
  }

  lemma CutEqual<T>(a: seq<T>, b: seq<T>, c: seq<T>, d: seq<T>)
    requires a + b == c + d && |a| == |c|
    ensures a == c && b == d
  {
    assert a == (a + b)[..|a|] && c == (c + d)[..|c|];
    assert b == (a + b)[|a|..] && d == (c + d)[|c|..];
  }

  function Map<A, B>(f: A -> B, s: seq<A>): (r: seq<B>)
    ensures |r| == |s| && forall i | 0 <= i < |s| :: r[i] == f(s[i])
  {
    if s == [] then [] else [f(s[0])] + Map(f, s[1..])
  }

  function Filter<A>(keep: A -> bool, s: seq<A>): (r: seq<A>)
    ensures forall x | x in r :: x in s && keep(x)
  {
    if s == [] then []
    else if keep(s[0]) then [s[0]] + Filter(keep, s[1..])
    else Filter(keep, s[1..])
  }

  lemma {:induction false} FilterConcat<A>(keep: A -> bool, a: seq<A>, b: seq<A>)
    ensures Filter(keep, a + b) == Filter(keep, a) + Filter(keep, b)
  {
    if a == [] {
      assert a + b == b;
    } else {
      FilterConcat(keep, a[1..], b);
      assert (a + b)[1..] == a[1..] + b;
    }
  }

  lemma FilterOne<A>(keep: A -> bool, x: A)
    ensures Filter(keep, [x]) == if keep(x) then [x] else []
  {
    assert [x][1..] == [];
  }

  lemma {:induction false} FilterAll<A>(keep: A -> bool, s: seq<A>)
    requires forall x | x in s :: keep(x)
    ensures Filter(keep, s) == s
  {
    if s != [] { FilterAll(keep, s[1..]); }
  }

  lemma {:induction false} FilterNone<A>(keep: A -> bool, s: seq<A>)
    requires forall x | x in s :: !keep(x)
    ensures Filter(keep, s) == []
  {
    if s != [] { FilterNone(keep, s[1..]); }
  }

  lemma {:induction false} FilterTwice<A>(keep: A -> bool, pick: A -> bool, s: seq<A>)
    requires forall x | x in s && pick(x) :: keep(x)
    ensures Filter(pick, Filter(keep, s)) == Filter(pick, s)
  {
    if s != [] { FilterTwice(keep, pick, s[1..]); }
  }

  lemma {:induction false} MapConcat<A, B>(f: A -> B, a: seq<A>, b: seq<A>)
    ensures Map(f, a + b) == Map(f, a) + Map(f, b)
  {
    forall i | 0 <= i < |a + b| ensures Map(f, a + b)[i] == (Map(f, a) + Map(f, b))[i] {
      assert Map(f, a + b)[i] == f((a + b)[i]);
    }
  }

  lemma TailMultiset<A>(s: seq<A>)
    requires s != []
    ensures multiset(s) == multiset{s[0]} + multiset(s[1..])
  {
    assert s == [s[0]] + s[1..];
  }

  lemma Cancel<A>(x: A, m: multiset<A>, n: multiset<A>)
    requires multiset{x} + m == multiset{x} + n
    ensures m == n
  {
    forall y ensures m[y] == n[y] {
      assert (multiset{x} + m)[y] == (multiset{x} + n)[y];
    }
  }

  function Without<A>(s: seq<A>, k: nat): seq<A>
    requires k < |s|
  { s[..k] + s[k + 1..] }

  lemma WithoutMultiset<A>(s: seq<A>, k: nat)
    requires k < |s|
    ensures multiset(s) == multiset{s[k]} + multiset(Without(s, k))
  {
    assert s == s[..k] + [s[k]] + s[k + 1..];
  }

  lemma {:induction false} MapWithout<A, B>(f: A -> B, s: seq<A>, k: nat)
    requires k < |s|
    ensures Map(f, Without(s, k)) == Without(Map(f, s), k)
  {
    var a, b := Map(f, Without(s, k)), Without(Map(f, s), k);
    assert |a| == |b| == |s| - 1;
    forall i | 0 <= i < |a| ensures a[i] == b[i] {
      assert a[i] == f(Without(s, k)[i]);
    }
  }

  lemma {:induction false} FilterWithout<A>(keep: A -> bool, s: seq<A>, k: nat)
    requires k < |s|
    ensures multiset(Filter(keep, s))
         == (if keep(s[k]) then multiset{s[k]} else multiset{}) + multiset(Filter(keep, Without(s, k)))
  {
    FilterConcat(keep, s[..k], s[k + 1..]);
    FilterConcat(keep, s[..k], s[k..]);
    assert s == s[..k] + s[k..];
    assert s[k..][1..] == s[k + 1..];
  }

  /** Mapping respects permutation. */
  lemma {:induction false} MapPermutes<A, B>(f: A -> B, a: seq<A>, b: seq<A>)
    requires multiset(a) == multiset(b)
    ensures multiset(Map(f, a)) == multiset(Map(f, b))
    decreases |a|
  {
    if a == [] {
      assert |multiset(b)| == 0;
    } else {
      assert a[0] in multiset(b);
      var k :| 0 <= k < |b| && b[k] == a[0];
      TailMultiset(a);
      WithoutMultiset(b, k);
      Cancel(a[0], multiset(a[1..]), multiset(Without(b, k)));
      MapPermutes(f, a[1..], Without(b, k));
      MapWithout(f, b, k);
      WithoutMultiset(Map(f, b), k);
      TailMultiset(Map(f, a));
      assert Map(f, a)[1..] == Map(f, a[1..]);
    }
  }

  /** Filtering respects permutation. */
  lemma {:induction false} FilterPermutes<A>(keep: A -> bool, a: seq<A>, b: seq<A>)
    requires multiset(a) == multiset(b)
    ensures multiset(Filter(keep, a)) == multiset(Filter(keep, b))
    decreases |a|
  {
    if a == [] {
      assert |multiset(b)| == 0;
    } else {
      assert a[0] in multiset(b);
      var k :| 0 <= k < |b| && b[k] == a[0];
      TailMultiset(a);
      WithoutMultiset(b, k);
      Cancel(a[0], multiset(a[1..]), multiset(Without(b, k)));
      FilterPermutes(keep, a[1..], Without(b, k));
      FilterWithout(keep, b, k);
      if keep(a[0]) { TailMultiset(Filter(keep, a)); }
    }
  }

  /** The set of images. */
  ghost function Image<A, B>(f: A -> B, s: seq<A>): set<B> { set x | x in s :: f(x) }

  lemma ImageSnoc<A, B>(f: A -> B, s: seq<A>, x: A)
    ensures Image(f, s + [x]) == Image(f, s) + {f(x)}
  {
    assert forall y :: y in s + [x] <==> y in s || y == x;
  }

  lemma SubsetSize<T>(a: set<T>, b: set<T>)
    requires a <= b
    ensures |a| <= |b|
  {
    assert |b| == |a| + |b - a| by { assert a + (b - a) == b; }
  }

  // ---------- Relations between all pairs ----------

  ghost predicate PairwiseBy<T(!new)>(rel: (T, T) -> bool, s: seq<T>) {
    forall i, j | 0 <= i < j < |s| :: rel(s[i], s[j])
  }

  lemma PairwiseWithout<T(!new)>(rel: (T, T) -> bool, s: seq<T>, k: nat)
    requires k < |s| && PairwiseBy(rel, s) && forall x, y :: rel(x, y) ==> rel(y, x)
    ensures PairwiseBy(rel, Without(s, k)) && forall x | x in Without(s, k) :: rel(s[k], x)
  {
    var rest := Without(s, k);
    forall i, j | 0 <= i < j < |rest| ensures rel(rest[i], rest[j]) {
      assert rest[i] == s[if i < k then i else i + 1] && rest[j] == s[if j < k then j else j + 1];
    }
    forall x | x in rest ensures rel(s[k], x) {
      var i :| 0 <= i < |rest| && rest[i] == x;
      assert x == s[if i < k then i else i + 1];
      if i < k { assert rel(x, s[k]); }
    }
  }

  lemma PairwiseWith<T(!new)>(rel: (T, T) -> bool, s: seq<T>, k: nat)
    requires k < |s| && PairwiseBy(rel, Without(s, k)) && forall x, y :: rel(x, y) ==> rel(y, x)
    requires forall x | x in Without(s, k) :: rel(s[k], x)
    ensures PairwiseBy(rel, s)
  {
    var rest := Without(s, k);
    forall i, j | 0 <= i < j < |s| ensures rel(s[i], s[j]) {
      if i == k {
        assert s[j] == rest[j - 1] && rest[j - 1] in rest;
      } else if j == k {
        assert s[i] == rest[i] && rest[i] in rest;
        assert rel(s[k], s[i]);
      } else {
        assert s[i] == rest[if i < k then i else i - 1] && s[j] == rest[if j < k then j else j - 1];
      }
    }
  }

  lemma {:induction false} PairwisePermutes<T(!new)>(rel: (T, T) -> bool, a: seq<T>, b: seq<T>)
    requires multiset(a) == multiset(b) && PairwiseBy(rel, a) && forall x, y :: rel(x, y) ==> rel(y, x)
    ensures PairwiseBy(rel, b)
    decreases |a|
  {
    if a == [] {
      assert |multiset(b)| == 0;
    } else {
      assert a[0] in multiset(b);
      var k :| 0 <= k < |b| && b[k] == a[0];
      TailMultiset(a);
      WithoutMultiset(b, k);
      Cancel(a[0], multiset(a[1..]), multiset(Without(b, k)));
      PairwiseWithout(rel, a, 0);
      assert Without(a, 0) == a[1..];
      PairwisePermutes(rel, a[1..], Without(b, k));
      forall x | x in Without(b, k) ensures rel(b[k], x) {
        assert x in multiset(Without(b, k));
        assert x in a[1..];
      }
      PairwiseWith(rel, b, k);
    }
  }
}
