/**
 A stable sort by a comparison function, standing for the library sorts the gateway calls
 (`sort`, `sort_by`, `sort_unstable_by`), and the fact that makes "sort, then print" canonical:
 a sorted arrangement is unique once ties are equal.
 */
module Sorting {
  import opened Text

  ghost predicate TotalPreorder<T(!new)>(le: (T, T) -> bool) {
    && (forall x, y :: le(x, y) || le(y, x))
    && (forall x, y, z :: le(x, y) && le(y, z) ==> le(x, z))
  }

  ghost predicate AntisymmetricOn<T>(le: (T, T) -> bool, s: seq<T>) {
    forall x, y | x in s && y in s && le(x, y) && le(y, x) :: x == y
  }

  ghost predicate Sorted<T>(le: (T, T) -> bool, s: seq<T>) {
    forall i, j | 0 <= i < j < |s| :: le(s[i], s[j])
  }

  function Insert<T>(le: (T, T) -> bool, x: T, s: seq<T>): seq<T> {
    if s == [] || le(x, s[0]) then [x] + s else [s[0]] + Insert(le, x, s[1..])
  }

  function Sort<T>(le: (T, T) -> bool, s: seq<T>): seq<T> {
    if s == [] then [] else Insert(le, s[0], Sort(le, s[1..]))
  }

  lemma {:induction false} InsertPermutes<T>(le: (T, T) -> bool, x: T, s: seq<T>)
    ensures multiset(Insert(le, x, s)) == multiset{x} + multiset(s)
  {
    if s != [] && !le(x, s[0]) {
      InsertPermutes(le, x, s[1..]);
      assert s == [s[0]] + s[1..];
    }
  }

  lemma {:induction false} SortPermutes<T>(le: (T, T) -> bool, s: seq<T>)
    ensures multiset(Sort(le, s)) == multiset(s)
  {
    if s != [] {
      SortPermutes(le, s[1..]);
      InsertPermutes(le, s[0], Sort(le, s[1..]));
      assert s == [s[0]] + s[1..];
    }
  }

  lemma {:induction false} InsertSorted<T(!new)>(le: (T, T) -> bool, x: T, s: seq<T>)
    requires TotalPreorder(le) && Sorted(le, s)
    ensures Sorted(le, Insert(le, x, s))
  {
    if s != [] && !le(x, s[0]) {
      var t := Insert(le, x, s[1..]);
      InsertSorted(le, x, s[1..]);
      InsertPermutes(le, x, s[1..]);
      forall j | 0 <= j < |t| ensures le(s[0], t[j]) {
        assert t[j] in multiset(t);
        assert t[j] == x || t[j] in s[1..];
      }
    }
  }

  lemma {:induction false} SortSorted<T(!new)>(le: (T, T) -> bool, s: seq<T>)
    requires TotalPreorder(le)
    ensures Sorted(le, Sort(le, s))
  {
    if s != [] {
      SortSorted(le, s[1..]);
      InsertSorted(le, s[0], Sort(le, s[1..]));
    }
  }

  lemma {:induction false} SortedUnique<T>(le: (T, T) -> bool, a: seq<T>, b: seq<T>)
    requires Sorted(le, a) && Sorted(le, b) && multiset(a) == multiset(b)
    requires AntisymmetricOn(le, a)
    ensures a == b
  {
    if a == [] {
      assert |multiset(b)| == 0;
    } else {
      assert |multiset(a)| == |multiset(b)|;
      assert a[0] in multiset(b) && b[0] in multiset(a);
      assert a[0] == b[0];
      TailMultiset(a);
      TailMultiset(b);
      Cancel(a[0], multiset(a[1..]), multiset(b[1..]));
      SortedUnique(le, a[1..], b[1..]);
    }
  }

  /** Sorting forgets the order of its input. */
  lemma SortCanonical<T(!new)>(le: (T, T) -> bool, a: seq<T>, b: seq<T>)
    requires TotalPreorder(le) && AntisymmetricOn(le, a) && multiset(a) == multiset(b)
    ensures Sort(le, a) == Sort(le, b)
  {
    SortSorted(le, a);
    SortSorted(le, b);
    SortPermutes(le, a);
    SortPermutes(le, b);
    forall x | x in Sort(le, a) ensures x in a {
      assert x in multiset(Sort(le, a));
    }
    SortedUnique(le, Sort(le, a), Sort(le, b));
  }

  lemma MapInverts<A, B>(f: A -> B, g: B -> A, s: seq<A>)
    requires forall x | x in s :: g(f(x)) == x
    ensures Map(g, Map(f, s)) == s
  {
    forall i | 0 <= i < |s| ensures Map(g, Map(f, s))[i] == s[i] {
      assert s[i] in s;
    }
  }

  /** Sorting the image of an invertible function is the image of some rearrangement. */
  lemma SortImage<A, B>(le: (B, B) -> bool, f: A -> B, g: B -> A, s: seq<A>) returns (t: seq<A>)
    requires forall x | x in s :: g(f(x)) == x
    ensures multiset(t) == multiset(s)
    ensures Sort(le, Map(f, s)) == Map(f, t)
  {
    var image := Map(f, s);
    var sorted := Sort(le, image);
    t := Map(g, sorted);
    SortPermutes(le, image);
    MapPermutes(g, sorted, image);
    MapInverts(f, g, s);
    forall y | y in sorted ensures f(g(y)) == y {
      assert y in multiset(sorted);
    }
  }
}
