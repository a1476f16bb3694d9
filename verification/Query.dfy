/**
 SigV4 canonicalisation: percent-encoding (section 2.1 of RFC 3986) of paths and query components,
 and the decode, re-encode, sort and join that produces the canonical query string. The main
 results say that two queries have the same canonical form exactly when they carry the same
 multiset of decoded parameters, and that canonicalising is therefore idempotent and blind to
 parameter order.
 */
module Query {
  import opened Lex
  import opened Sorting
  import opened Text
  import opened Utf8

  const PERCENT: byte := 0x25
  const AMPERSAND: byte := 0x26
  const EQUALS: byte := 0x3D
  const SLASH: byte := 0x2F

  type Pair = (Bytes, Bytes)

  // ---------- Hexadecimal ----------

  function HexVal(c: byte): Option<byte> {
    if 0x30 <= c <= 0x39 then Some(c - 0x30)
    else if 0x61 <= c <= 0x66 then Some(c - 0x61 + 10)
    else if 0x41 <= c <= 0x46 then Some(c - 0x41 + 10)
    else None
  }

  function HexDigit(n: int): byte
    requires 0 <= n < 16
  {
    if n < 10 then 0x30 + n else 0x41 + n - 10
  }

  // ---------- Percent-encoding ----------

  predicate Unreserved(b: byte) {
    || 0x41 <= b <= 0x5A || 0x61 <= b <= 0x7A || 0x30 <= b <= 0x39
    || b == 0x2D || b == 0x5F || b == 0x2E || b == 0x7E
  }

  predicate IsPlain(keepSlash: bool, b: byte) { Unreserved(b) || (keepSlash && b == SLASH) }

  function EncodeByte(keepSlash: bool, b: byte): Bytes {
    if IsPlain(keepSlash, b) then [b] else [PERCENT, HexDigit(b / 16), HexDigit(b % 16)]
  }

  function Encode(keepSlash: bool, s: Bytes): Bytes {
    if s == [] then [] else EncodeByte(keepSlash, s[0]) + Encode(keepSlash, s[1..])
  }

  predicate IsEscape(s: Bytes) {
    |s| >= 3 && s[0] == PERCENT && HexVal(s[1]).Some? && HexVal(s[2]).Some?
  }

  /** Escapes become the byte they name; anything else, including a malformed escape, is kept. */
  function Unescape(s: Bytes): Bytes {
    if s == [] then []
    else if IsEscape(s) then [HexVal(s[1]).value * 16 + HexVal(s[2]).value] + Unescape(s[3..])
    else [s[0]] + Unescape(s[1..])
  }

  function Decode(s: Bytes): Bytes { Lossy(Unescape(s)) }

  lemma {:induction false} EncodeConcat(keepSlash: bool, a: Bytes, b: Bytes)
    ensures Encode(keepSlash, a + b) == Encode(keepSlash, a) + Encode(keepSlash, b)
  {
    if a == [] {
      assert a + b == b;
    } else {
      EncodeConcat(keepSlash, a[1..], b);
      assert (a + b)[1..] == a[1..] + b;
      Assoc(EncodeByte(keepSlash, a[0]), Encode(keepSlash, a[1..]), Encode(keepSlash, b));
    }
  }

  lemma EncodeStep(keepSlash: bool, s: Bytes, i: nat)
    requires i < |s|
    ensures Encode(keepSlash, s[..i + 1]) == Encode(keepSlash, s[..i]) + EncodeByte(keepSlash, s[i])
  {
    assert s[..i + 1] == s[..i] + [s[i]];
    EncodeConcat(keepSlash, s[..i], [s[i]]);
    assert Encode(keepSlash, [s[i]]) == EncodeByte(keepSlash, s[i]) + Encode(keepSlash, []);
  }

  method PercentEncodeQuery(s: Bytes) returns (result: Bytes)
    ensures result == Encode(false, s)
  {
    result := [];
    for i := 0 to |s|
      invariant result == Encode(false, s[..i])
    {
      EncodeStep(false, s, i);
      if Unreserved(s[i]) {
        result := result + [s[i]];
      } else {
        result := result + [PERCENT, HexDigit(s[i] / 16), HexDigit(s[i] % 16)];
      }
    }
    assert s[..|s|] == s;
  }

  lemma UnescapeStep(s: Bytes, i: nat, out: Bytes)
    requires i < |s|
    ensures var hi := if i + 3 <= |s| then HexVal(s[i + 1]) else None;
            var lo := if i + 3 <= |s| then HexVal(s[i + 2]) else None;
            if s[i] == PERCENT && hi.Some? && lo.Some?
            then out + Unescape(s[i..]) == out + [hi.value * 16 + lo.value] + Unescape(s[i + 3..])
            else out + Unescape(s[i..]) == out + [s[i]] + Unescape(s[i + 1..])
  {
    assert s[i..][1..] == s[i + 1..];
    if i + 3 <= |s| { assert s[i..][3..] == s[i + 3..]; }
  }

  method PercentDecode(s: Bytes) returns (result: Bytes)
    ensures result == Decode(s)
  {
    var out: Bytes := [];
    var i := 0;
    while i < |s|
      invariant 0 <= i <= |s|
      invariant out + Unescape(s[i..]) == Unescape(s)
    {
      UnescapeStep(s, i, out);
      if s[i] == PERCENT && i + 3 <= |s| {
        var hi, lo := HexVal(s[i + 1]), HexVal(s[i + 2]);
        if hi.Some? && lo.Some? {
          out := out + [hi.value * 16 + lo.value];
          i := i + 3;
          continue;
        }
      }
      out := out + [s[i]];
      i := i + 1;
    }
    assert out == out + Unescape(s[i..]);
    result := Lossy(out);
  }

  lemma HexRoundTrip(n: int)
    requires 0 <= n < 16
    ensures HexVal(HexDigit(n)) == Some(n)
    ensures Unreserved(HexDigit(n))
  {
  }

  /** Letters, digits and four more characters stand for themselves, in a path the slash as well; every
      other byte becomes a percent sign and two upper-case digits. */
  lemma EncodesByte(keepSlash: bool, b: byte)
    ensures var plain := || 'A' as int <= b <= 'Z' as int || 'a' as int <= b <= 'z' as int || '0' as int <= b <= '9' as int
                         || b in {'-' as int, '_' as int, '.' as int, '~' as int} || (keepSlash && b == '/' as int);
            EncodeByte(keepSlash, b)
            == if plain then [b]
               else ['%' as int, "0123456789ABCDEF"[b / 16] as int, "0123456789ABCDEF"[b % 16] as int]
  {
    UpperDigit(b / 16);
    UpperDigit(b % 16);
  }

  /** The hexadecimal digits are those that a byte can be written with, in either case. */
  lemma HexIff(c: byte, n: int)
    ensures HexVal(c) == Some(n)
       <==> 0 <= n < 16 && (c == "0123456789ABCDEF"[n] as int || c == "0123456789abcdef"[n] as int)
  {
    if 0 <= n < 16 {
      UpperDigit(n);
      LowerDigit(n);
    }
  }

  lemma UpperDigit(n: int)
    requires 0 <= n < 16
    ensures "0123456789ABCDEF"[n] as int == HexDigit(n)
  {
    var digits := "0123456789ABCDEF";
    assert forall k | 0 <= k < 16 :: digits[k] as int == if k < 10 then 0x30 + k else 0x37 + k;
  }

  lemma LowerDigit(n: int)
    requires 0 <= n < 16
    ensures "0123456789abcdef"[n] as int == if n < 10 then 0x30 + n else 0x57 + n
  {
    var digits := "0123456789abcdef";
    assert forall k | 0 <= k < 16 :: digits[k] as int == if k < 10 then 0x30 + k else 0x57 + k;
  }

  /** An escape decodes to the byte it names, however its digits are spelt. */
  lemma EscapeNamesByte(b: byte, hi: byte, lo: byte, rest: Bytes)
    requires HexVal(hi) == Some(b / 16) && HexVal(lo) == Some(b % 16)
    ensures Unescape([PERCENT, hi, lo] + rest) == [b] + Unescape(rest)
  {
    var s := [PERCENT, hi, lo] + rest;
    assert s[3..] == rest;
  }

  /** A byte that starts no escape decodes to itself. */
  lemma OtherwiseKept(s: Bytes)
    requires s != [] && !(|s| >= 3 && s[0] == 0x25 && HexVal(s[1]).Some? && HexVal(s[2]).Some?)
    ensures Unescape(s) == [s[0]] + Unescape(s[1..])
  {
  }

  /** Unescaping undoes encoding, on every byte string. */
  lemma {:induction false} UnescapeEncode(keepSlash: bool, s: Bytes)
    ensures Unescape(Encode(keepSlash, s)) == s
  {
    if s != [] {
      var e, rest := EncodeByte(keepSlash, s[0]), Encode(keepSlash, s[1..]);
      UnescapeEncode(keepSlash, s[1..]);
      assert (e + rest)[|e|..] == rest;
      HexRoundTrip(s[0] / 16);
      HexRoundTrip(s[0] % 16);
    }
  }

  /** Decoding undoes encoding on every string, and only on strings: the lossy step rewrites
      anything that is not UTF-8. */
  lemma DecodeEncode(keepSlash: bool, s: Bytes)
    ensures Decode(Encode(keepSlash, s)) == s <==> IsUtf8(s)
  {
    UnescapeEncode(keepSlash, s);
    LossyCorrect(s);
  }

  predicate Clean(keepSlash: bool, s: Bytes) {
    forall b | b in s :: IsPlain(keepSlash, b) || b == PERCENT
  }

  predicate IsUpperHex(b: byte) { 0x30 <= b <= 0x39 || 0x41 <= b <= 0x46 }

  /** Plain bytes and complete upper-case escapes, read from the front. */
  predicate WellEscaped(keepSlash: bool, s: Bytes)
    decreases |s|
  {
    if s == [] then true
    else if s[0] == PERCENT then
      |s| >= 3 && IsUpperHex(s[1]) && IsUpperHex(s[2]) && WellEscaped(keepSlash, s[3..])
    else IsPlain(keepSlash, s[0]) && WellEscaped(keepSlash, s[1..])
  }

  lemma {:induction false} EncodeClean(keepSlash: bool, s: Bytes)
    ensures Clean(keepSlash, Encode(keepSlash, s)) && WellEscaped(keepSlash, Encode(keepSlash, s))
  {
    if s != [] {
      EncodeClean(keepSlash, s[1..]);
    }
  }

  // ---------- The canonical path ----------

  function WithSlash(path: Bytes): Bytes {
    if path == [] || path[0] != SLASH then [SLASH] + path else path
  }

  method CanonicalUri(path: Bytes) returns (result: Bytes)
    ensures result == Encode(true, WithSlash(path))
  {
    var p := if path == [] || path[0] != SLASH then [SLASH] + path else path;
    result := [];
    for i := 0 to |p|
      invariant result == Encode(true, p[..i])
    {
      EncodeStep(true, p, i);
      if Unreserved(p[i]) || p[i] == SLASH {
        result := result + [p[i]];
      } else {
        result := result + [PERCENT, HexDigit(p[i] / 16), HexDigit(p[i] % 16)];
      }
    }
    assert p[..|p|] == p;
  }

  lemma {:induction false} EncodeFixed(keepSlash: bool, s: Bytes)
    ensures |Encode(keepSlash, s)| >= |s|
    ensures |Encode(keepSlash, s)| == |s| <==> forall b | b in s :: IsPlain(keepSlash, b)
    ensures (forall b | b in s :: IsPlain(keepSlash, b)) ==> Encode(keepSlash, s) == s
  {
    if s != [] { EncodeFixed(keepSlash, s[1..]); }
  }

  /** Unlike the query, a path is encoded without decoding first: doing it twice is harmless
      exactly when no byte needed escaping. */
  lemma UriIdempotentIff(path: Bytes)
    ensures var once := Encode(true, WithSlash(path));
            Encode(true, WithSlash(once)) == once <==> forall b | b in path :: IsPlain(true, b)
  {
    var p := WithSlash(path);
    var once := Encode(true, p);
    assert p[0] == SLASH && once[0] == SLASH;
    EncodeFixed(true, p);
    EncodeFixed(true, once);
    EncodeClean(true, p);
    UnescapeEncode(true, p);
    if forall b | b in path :: IsPlain(true, b) {
      assert forall b | b in p :: IsPlain(true, b);
    }
    if Encode(true, once) == once {
      NoEscapes(once);
      assert forall b | b in path :: b in p;
    }
  }

  lemma {:induction false} NoEscapes(s: Bytes)
    requires PERCENT !in s
    ensures Unescape(s) == s
  {
    if s != [] { NoEscapes(s[1..]); }
  }

  // ---------- The canonical query ----------

  /** The part before the first `=` and the part after it. */
  function KeyValue(part: Bytes): Pair {
    var fields := Split(part, EQUALS);
    (fields[0], Join(fields[1..], EQUALS))
  }

  function DecodePart(part: Bytes): Pair { (Decode(KeyValue(part).0), Decode(KeyValue(part).1)) }

  function EncodePair(p: Pair): Pair { (Encode(false, p.0), Encode(false, p.1)) }

  function Show(p: Pair): Bytes { p.0 + [EQUALS] + p.1 }

  predicate PairLe(a: Pair, b: Pair) { if a.0 == b.0 then LexLe(a.1, b.1) else LexLe(a.0, b.0) }

  function Parts(q: Bytes): seq<Bytes> { Filter((p: Bytes) => p != [], Split(q, AMPERSAND)) }

  /** What a query means: its decoded parameters in order. */
  function Params(q: Bytes): seq<Pair> { Map(DecodePart, Parts(q)) }

  function Canonical(q: Bytes): Bytes {
    Join(Map(Show, Sort(PairLe, Map(EncodePair, Params(q)))), AMPERSAND)
  }

  /** The position of the first `=`, as `part.find('=')`. */
  method FindEquals(part: Bytes) returns (pos: Option<nat>)
    ensures pos.None? ==> EQUALS !in part
    ensures pos.Some? ==> pos.value < |part| && part[pos.value] == EQUALS && EQUALS !in part[..pos.value]
  {
    for i := 0 to |part|
      invariant EQUALS !in part[..i]
    {
      if part[i] == EQUALS { return Some(i); }
    }
    return None;
  }

  lemma KeyValueAt(part: Bytes, pos: nat)
    requires pos < |part| && part[pos] == EQUALS && EQUALS !in part[..pos]
    ensures KeyValue(part) == (part[..pos], part[pos + 1..])
  {
    var k, v := part[..pos], part[pos + 1..];
    assert part == k + ([EQUALS] + v);
    SplitPrefix(k, [EQUALS] + v, EQUALS);
    assert ([EQUALS] + v)[1..] == v;
    JoinSplit(v, EQUALS);
    assert Split([EQUALS] + v, EQUALS)[1..] == Split(v, EQUALS);
    assert k + [] == k;
  }

  lemma KeyValueNone(part: Bytes)
    requires EQUALS !in part
    ensures KeyValue(part) == (part, [])
  {
    SplitPrefix(part, [], EQUALS);
    assert part + [] == part;
  }

  /** One non-empty `&`-separated part, decoded and encoded again. */
  method EncodePart(part: Bytes) returns (p: Pair)
    ensures p == EncodePair(DecodePart(part))
  {
    var pos := FindEquals(part);
    var key, value := part, [];
    if pos.Some? {
      key, value := part[..pos.value], part[pos.value + 1..];
      KeyValueAt(part, pos.value);
    } else {
      KeyValueNone(part);
    }
    var k := PercentDecode(key);
    var v := PercentDecode(value);
    var ek := PercentEncodeQuery(k);
    var ev := PercentEncodeQuery(v);
    p := (ek, ev);
  }

  function EncodedParams(parts: seq<Bytes>): seq<Pair> {
    Map(EncodePair, Map(DecodePart, Filter((p: Bytes) => p != [], parts)))
  }

  lemma EncodedParamsSnoc(parts: seq<Bytes>, part: Bytes)
    ensures EncodedParams(parts + [part])
         == EncodedParams(parts) + if part == [] then [] else [EncodePair(DecodePart(part))]
  {
    var keep := (p: Bytes) => p != [];
    FilterConcat(keep, parts, [part]);
    FilterOne(keep, part);
    MapConcat(DecodePart, Filter(keep, parts), Filter(keep, [part]));
    MapConcat(EncodePair, Map(DecodePart, Filter(keep, parts)), Map(DecodePart, Filter(keep, [part])));
  }

  method EncodeParts(split: seq<Bytes>) returns (params: seq<Pair>)
    ensures params == EncodedParams(split)
  {
    params := [];
    for i := 0 to |split|
      invariant params == EncodedParams(split[..i])
    {
      assert split[..i + 1] == split[..i] + [split[i]];
      EncodedParamsSnoc(split[..i], split[i]);
      if split[i] != [] {
        var p := EncodePart(split[i]);
        params := params + [p];
      }
    }
    assert split[..|split|] == split;
  }

  method CanonicalQuery(query: Option<Bytes>) returns (result: Bytes)
    ensures result == match query { case None => [] case Some(q) => Canonical(q) }
  {
    if query == None || query == Some([]) {
      CanonicalEmpty();
      return [];
    }
    var params := EncodeParts(Split(query.value, AMPERSAND));
    params := Sort(PairLe, params);
    result := Join(Map(Show, params), AMPERSAND);
  }

  lemma CanonicalEmpty()
    ensures Canonical([]) == []
  {
    assert Split<byte>([], AMPERSAND) == [[]];
    FilterOne((p: Bytes) => p != [], []);
    assert Params([]) == [];
  }

  // ---------- What the canonical form keeps ----------

  lemma PairOrder()
    ensures TotalPreorder(PairLe)
    ensures forall a, b | PairLe(a, b) && PairLe(b, a) :: a == b
  {
    forall a, b ensures PairLe(a, b) || PairLe(b, a) ensures PairLe(a, b) && PairLe(b, a) ==> a == b {
      LexTotal(a.0, b.0);
      LexTotal(a.1, b.1);
    }
    forall a, b, c | PairLe(a, b) && PairLe(b, c) ensures PairLe(a, c) {
      PairTransitive(a, b, c);
    }
  }

  lemma PairTransitive(a: Pair, b: Pair, c: Pair)
    requires PairLe(a, b) && PairLe(b, c)
    ensures PairLe(a, c)
  {
    if a.0 == b.0 == c.0 {
      LexTransitive(a.1, b.1, c.1);
    } else if a.0 != b.0 && b.0 != c.0 {
      LexTransitive(a.0, b.0, c.0);
      if a.0 == c.0 { LexTotal(a.0, b.0); }
    }
  }

  lemma EncodedHasNoSeparators(s: Bytes)
    ensures AMPERSAND !in Encode(false, s) && EQUALS !in Encode(false, s)
  {
    EncodeClean(false, s);
  }

  /** A printed parameter reads back as the parameter. */
  lemma ShowReadsBack(p: Pair)
    requires IsUtf8(p.0) && IsUtf8(p.1)
    ensures var part := Show(EncodePair(p)); part != [] && AMPERSAND !in part && DecodePart(part) == p
  {
    var k, v := Encode(false, p.0), Encode(false, p.1);
    EncodedHasNoSeparators(p.0);
    EncodedHasNoSeparators(p.1);
    var part := k + [EQUALS] + v;
    assert part[..|k|] == k && part[|k| + 1..] == v && part[|k|] == EQUALS;
    KeyValueAt(part, |k|);
    DecodeEncode(false, p.0);
    DecodeEncode(false, p.1);
  }

  lemma ParamsAreStrings(q: Bytes)
    ensures forall p | p in Params(q) :: IsUtf8(p.0) && IsUtf8(p.1)
  {
    forall i | 0 <= i < |Params(q)| ensures IsUtf8(Params(q)[i].0) && IsUtf8(Params(q)[i].1) {
      var kv := KeyValue(Parts(q)[i]);
      LossyCorrect(Unescape(kv.0));
      LossyCorrect(Unescape(kv.1));
    }
  }

  lemma {:induction false} ParamsOfPrinted(ps: seq<Pair>)
    requires forall p | p in ps :: IsUtf8(p.0) && IsUtf8(p.1)
    ensures Params(Join(Map(Show, Map(EncodePair, ps)), AMPERSAND)) == ps
  {
    var printed := Map(Show, Map(EncodePair, ps));
    var keep := (p: Bytes) => p != [];
    forall i | 0 <= i < |ps|
      ensures printed[i] != [] && AMPERSAND !in printed[i] && DecodePart(printed[i]) == ps[i]
    {
      ShowReadsBack(ps[i]);
    }
    if ps == [] {
      assert Join(printed, AMPERSAND) == [];
      assert Split([], AMPERSAND) == [[]];
      FilterOne(keep, []);
      assert Parts([]) == [];
    } else {
      SplitJoin(printed, AMPERSAND);
      FilterAll(keep, printed);
      assert Parts(Join(printed, AMPERSAND)) == printed;
    }
  }

  function UnescapePair(p: Pair): Pair { (Unescape(p.0), Unescape(p.1)) }

  /** Sorting encoded pairs is encoding some permutation of the decoded ones. */
  lemma SortedParams(q: Bytes) returns (ps: seq<Pair>)
    ensures multiset(ps) == multiset(Params(q))
    ensures Sort(PairLe, Map(EncodePair, Params(q))) == Map(EncodePair, ps)
    ensures forall p | p in ps :: IsUtf8(p.0) && IsUtf8(p.1)
  {
    forall p | p in Params(q) ensures UnescapePair(EncodePair(p)) == p {
      UnescapeEncode(false, p.0);
      UnescapeEncode(false, p.1);
    }
    ps := SortImage(PairLe, EncodePair, UnescapePair, Params(q));
    ParamsAreStrings(q);
    forall p | p in ps ensures p in Params(q) {
      assert p in multiset(ps);
    }
  }

  /** Canonicalising keeps the multiset of decoded parameters. */
  lemma CanonicalKeepsParams(q: Bytes)
    ensures multiset(Params(Canonical(q))) == multiset(Params(q))
  {
    var ps := SortedParams(q);
    ParamsOfPrinted(ps);
  }

  /** The canonical form is a complete invariant: two queries share it exactly when they carry the
      same decoded parameters the same number of times. */
  lemma CanonicalIff(a: Bytes, b: Bytes)
    ensures Canonical(a) == Canonical(b) <==> multiset(Params(a)) == multiset(Params(b))
  {
    if multiset(Params(a)) == multiset(Params(b)) {
      MapPermutes(EncodePair, Params(a), Params(b));
      PairOrder();
      SortCanonical(PairLe, Map(EncodePair, Params(a)), Map(EncodePair, Params(b)));
    }
    CanonicalKeepsParams(a);
    CanonicalKeepsParams(b);
  }

  lemma CanonicalIdempotent(q: Bytes)
    ensures Canonical(Canonical(q)) == Canonical(q)
  {
    CanonicalKeepsParams(q);
    CanonicalIff(Canonical(q), q);
  }

  /** Reordering the `&`-separated parts does not change the canonical form. */
  lemma CanonicalIgnoresOrder(a: Bytes, b: Bytes)
    requires multiset(Split(a, AMPERSAND)) == multiset(Split(b, AMPERSAND))
    ensures Canonical(a) == Canonical(b)
  {
    FilterPermutes((p: Bytes) => p != [], Split(a, AMPERSAND), Split(b, AMPERSAND));
    MapPermutes(DecodePart, Parts(a), Parts(b));
    CanonicalIff(a, b);
  }

  /** The canonical form lists its encoded parameters by ascending key, and by ascending value where
      the keys are equal. */
  lemma CanonicalSorted(q: Bytes)
    ensures var printed := Map(KeyValue, Parts(Canonical(q)));
            && multiset(printed) == multiset(Map(EncodePair, Params(q)))
            && forall i, j | 0 <= i < j < |printed| ::
                 LexLe(printed[i].0, printed[j].0) && (printed[i].0 == printed[j].0 ==> LexLe(printed[i].1, printed[j].1))
  {
    var sorted := Sort(PairLe, Map(EncodePair, Params(q)));
    var ps := SortedParams(q);
    PrintedPairs(ps);
    PairOrder();
    SortSorted(PairLe, Map(EncodePair, Params(q)));
    SortPermutes(PairLe, Map(EncodePair, Params(q)));
    forall i, j | 0 <= i < j < |sorted|
      ensures LexLe(sorted[i].0, sorted[j].0) && (sorted[i].0 == sorted[j].0 ==> LexLe(sorted[i].1, sorted[j].1))
    {
      assert PairLe(sorted[i], sorted[j]);
      LexReflexive(sorted[i].0);
    }
  }

  /** The text between the separators of a printed query is the encoded pairs. */
  lemma PrintedPairs(ps: seq<Pair>)
    requires forall p | p in ps :: IsUtf8(p.0) && IsUtf8(p.1)
    ensures Map(KeyValue, Parts(Join(Map(Show, Map(EncodePair, ps)), AMPERSAND))) == Map(EncodePair, ps)
  {
    var printed := Map(Show, Map(EncodePair, ps));
    var keep := (p: Bytes) => p != [];
    forall i | 0 <= i < |ps|
      ensures printed[i] != [] && AMPERSAND !in printed[i] && KeyValue(printed[i]) == EncodePair(ps[i])
    {
      ShownFields(EncodePair(ps[i]), ps[i]);
    }
    if ps == [] {
      assert Join(printed, AMPERSAND) == [];
      assert Split([], AMPERSAND) == [[]];
      FilterOne(keep, []);
    } else {
      SplitJoin(printed, AMPERSAND);
      FilterAll(keep, printed);
      assert Parts(Join(printed, AMPERSAND)) == printed;
    }
  }

  lemma ShownFields(e: Pair, p: Pair)
    requires e == EncodePair(p)
    ensures Show(e) != [] && AMPERSAND !in Show(e) && KeyValue(Show(e)) == e
  {
    EncodedHasNoSeparators(p.0);
    EncodedHasNoSeparators(p.1);
    var part := Show(e);
    assert part[..|e.0|] == e.0 && part[|e.0| + 1..] == e.1 && part[|e.0|] == EQUALS;
    KeyValueAt(part, |e.0|);
  }
}
