/**
 Lexicographic order on sequences of code units, the order Rust's `str` comparison uses. Bytes are
 compared directly; character strings through their code points.
 */
module Lex {

  predicate LexLe(a: seq<int>, b: seq<int>) {
    if a == [] then true
    else if b == [] then false
    else if a[0] != b[0] then a[0] < b[0]
    else LexLe(a[1..], b[1..])
  }

  function Codes(s: string): (r: seq<int>)
    ensures |r| == |s| && forall i | 0 <= i < |s| :: r[i] == s[i] as int
  {
    seq(|s|, i requires 0 <= i < |s| => s[i] as int)
  }

  predicate StrLe(a: string, b: string) { LexLe(Codes(a), Codes(b)) }

  predicate StrLess(a: string, b: string) { StrLe(a, b) && a != b }

  lemma {:induction false} LexTotal(a: seq<int>, b: seq<int>)
    ensures LexLe(a, b) || LexLe(b, a)
    ensures LexLe(a, b) && LexLe(b, a) ==> a == b
  {
    if a != [] && b != [] {
      LexTotal(a[1..], b[1..]);
      assert a == [a[0]] + a[1..] && b == [b[0]] + b[1..];
    }
  }

  lemma {:induction false} LexTransitive(a: seq<int>, b: seq<int>, c: seq<int>)
    requires LexLe(a, b) && LexLe(b, c)
    ensures LexLe(a, c)
  {
    if a != [] && b != [] && c != [] && a[0] == b[0] == c[0] {
      LexTransitive(a[1..], b[1..], c[1..]);
    }
  }

  lemma {:induction false} LexReflexive(a: seq<int>)
    ensures LexLe(a, a)
  {
    if a != [] { LexReflexive(a[1..]); }
  }

  lemma StrOrder(a: string, b: string, c: string)
    ensures StrLe(a, b) || StrLe(b, a)
    ensures StrLe(a, b) && StrLe(b, a) ==> a == b
    ensures StrLe(a, b) && StrLe(b, c) ==> StrLe(a, c)
  {
    LexTotal(Codes(a), Codes(b));
    if StrLe(a, b) && StrLe(b, c) { LexTransitive(Codes(a), Codes(b), Codes(c)); }
  }

  /** Comparing concatenations whose first parts have equal length. */
  lemma {:induction false} LexConcat(a: seq<int>, b: seq<int>, c: seq<int>, d: seq<int>)
    requires |a| == |b|
    ensures LexLe(a + c, b + d) <==> if a == b then LexLe(c, d) else LexLe(a, b)
  {
    if a == [] {
      assert a + c == c && b + d == d;
    } else {
      LexConcat(a[1..], b[1..], c, d);
      assert (a + c)[1..] == a[1..] + c && (b + d)[1..] == b[1..] + d;
      assert a == [a[0]] + a[1..] && b == [b[0]] + b[1..];
    }
  }

  lemma StrConcat(a: string, b: string, c: string, d: string)
    requires |a| == |b|
    ensures StrLe(a + c, b + d) <==> if a == b then StrLe(c, d) else StrLe(a, b)
    ensures a + c == b + d <==> a == b && c == d
  {
    assert Codes(a + c) == Codes(a) + Codes(c) && Codes(b + d) == Codes(b) + Codes(d);
    LexConcat(Codes(a), Codes(b), Codes(c), Codes(d));
    assert (a + c)[..|a|] == a && (a + c)[|a|..] == c;
    assert (b + d)[..|b|] == b && (b + d)[|b|..] == d;
  }

  /** The order of dictionaries: a beginning comes first, and otherwise the first difference decides. */
  lemma {:induction false} LexIff(a: seq<int>, b: seq<int>)
    ensures LexLe(a, b) <==> a <= b || exists k | 0 <= k < |a| && k < |b| :: a[..k] == b[..k] && a[k] < b[k]
  {
    if a != [] && b != [] {
      var x, y := a[1..], b[1..];
      LexIff(x, y);
      assert a == [a[0]] + x && b == [b[0]] + y;
      if a[0] == b[0] {
        assert a <= b <==> x <= y;
        if k :| 0 <= k < |x| && k < |y| && x[..k] == y[..k] && x[k] < y[k] {
          assert a[..k + 1] == [a[0]] + x[..k] && b[..k + 1] == [b[0]] + y[..k];
          assert a[k + 1] < b[k + 1];
        }
        if k :| 0 <= k < |a| && k < |b| && a[..k] == b[..k] && a[k] < b[k] {
          assert x[..k - 1] == a[..k][1..] && y[..k - 1] == b[..k][1..];
          assert x[k - 1] < y[k - 1];
        }
      } else {
        assert a[..0] == b[..0];
        forall k | 0 < k < |a| && k < |b| ensures a[..k] != b[..k] {
          assert a[..k][0] != b[..k][0];
        }
      }
    }
  }
}
