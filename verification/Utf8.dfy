/**
 UTF-8 well-formedness (section 4 of RFC 3629) and the lossy decoding that `from_utf8_lossy`
 performs: each maximal ill-formed subpart becomes one U+FFFD.
 */
module Utf8 {

  type byte = b: int | 0 <= b < 256
  type Bytes = seq<byte>

  const REPLACEMENT: Bytes := [0xEF, 0xBF, 0xBD]

  predicate IsTail(b: byte) { 0x80 <= b <= 0xBF }

  /** The number of continuation bytes a lead byte announces. */
  function TailCount(lead: byte): nat {
    if 0xC2 <= lead <= 0xDF then 1 else if 0xE0 <= lead <= 0xEF then 2 else if 0xF0 <= lead <= 0xF4 then 3 else 0
  }

  /** The second byte is restricted for leads that would otherwise start overlong forms, surrogates
      or values above U+10FFFF. */
  predicate SecondOk(lead: byte, b: byte) {
    && (if lead == 0xE0 then 0xA0 else if lead == 0xF0 then 0x90 else 0x80) <= b
    && b <= (if lead == 0xED then 0x9F else if lead == 0xF4 then 0x8F else 0xBF)
  }

  predicate IsLead(b: byte) { b < 0x80 || 0xC2 <= b <= 0xF4 }

  /** How many bytes at the front are a prefix of some well-formed character (at least 1 if any
      byte is there at all, since an ill-formed byte is a subpart of its own). */
  function GoodPrefix(s: Bytes): (n: nat)
    requires s != []
    ensures 1 <= n <= |s|
  {
    var want := TailCount(s[0]);
    if want == 0 || |s| < 2 || !SecondOk(s[0], s[1]) then 1
    else if want == 1 || |s| < 3 || !IsTail(s[2]) then 2
    else if want == 2 || |s| < 4 || !IsTail(s[3]) then 3
    else 4
  }

  /** Does the input start with a complete well-formed character? */
  predicate StartsWithChar(s: Bytes)
    requires s != []
  {
    IsLead(s[0]) && GoodPrefix(s) == 1 + TailCount(s[0])
  }

  predicate IsUtf8(s: Bytes) {
    s == [] || (StartsWithChar(s) && IsUtf8(s[GoodPrefix(s)..]))
  }

  function Lossy(s: Bytes): Bytes {
    if s == [] then []
    else
      var n := GoodPrefix(s);
      (if StartsWithChar(s) then s[..n] else REPLACEMENT) + Lossy(s[n..])
  }

  /** Lossy decoding always yields UTF-8 and leaves UTF-8 alone. */
  lemma {:induction false} LossyCorrect(s: Bytes)
    ensures IsUtf8(Lossy(s))
    ensures IsUtf8(s) <==> Lossy(s) == s
  {
    if s != [] {
      var n := GoodPrefix(s);
      LossyCorrect(s[n..]);
      assert s == s[..n] + s[n..];
    }
  }

  // ---------- What these bytes encode ----------

  /** Code points without the surrogates. */
  predicate IsScalar(c: int) { 0 <= c < 0xD800 || 0xE000 <= c < 0x110000 }

  /** The encoding of a code point: one to four bytes, six bits in each but the first. */
  function EncodeScalar(c: int): Bytes
    requires IsScalar(c)
  {
    if c < 0x80 then [c]
    else if c < 0x800 then [0xC0 + c / 64, 0x80 + c % 64]
    else if c < 0x10000 then [0xE0 + c / 4096, 0x80 + c / 64 % 64, 0x80 + c % 64]
    else [0xF0 + c / 262144, 0x80 + c / 4096 % 64, 0x80 + c / 64 % 64, 0x80 + c % 64]
  }

  lemma Bits2(a: nat, b: nat)
    requires b < 64
    ensures (a * 64 + b) / 64 == a && (a * 64 + b) % 64 == b
  {
  }

  lemma Bits3(a: nat, b: nat, c: nat)
    requires b < 64 && c < 64
    ensures var v := (a * 64 + b) * 64 + c; v / 4096 == a && v / 64 % 64 == b && v % 64 == c
  {
    Bits2(a * 64 + b, c);
    Bits2(a, b);
  }

  lemma Bits4(a: nat, b: nat, c: nat, d: nat)
    requires b < 64 && c < 64 && d < 64
    ensures var v := ((a * 64 + b) * 64 + c) * 64 + d;
            v / 262144 == a && v / 4096 % 64 == b && v / 64 % 64 == c && v % 64 == d
  {
    Bits2((a * 64 + b) * 64 + c, d);
    Bits3(a, b, c);
  }

  lemma TwoBytes(a: nat, b: nat) returns (c: int)
    requires 2 <= a < 32 && b < 64
    ensures IsScalar(c) && EncodeScalar(c) == [0xC0 + a, 0x80 + b]
  {
    c := a * 64 + b;
    Bits2(a, b);
  }

  lemma ThreeBytes(a: nat, b: nat, d: nat) returns (c: int)
    requires a < 16 && b < 64 && d < 64 && (a == 0 ==> b >= 32) && (a == 13 ==> b < 32)
    ensures IsScalar(c) && EncodeScalar(c) == [0xE0 + a, 0x80 + b, 0x80 + d]
  {
    c := (a * 64 + b) * 64 + d;
    Bits3(a, b, d);
  }

  lemma FourBytes(a: nat, b: nat, d: nat, e: nat) returns (c: int)
    requires a < 5 && b < 64 && d < 64 && e < 64 && (a == 0 ==> b >= 16) && (a == 4 ==> b < 16)
    ensures IsScalar(c) && EncodeScalar(c) == [0xF0 + a, 0x80 + b, 0x80 + d, 0x80 + e]
  {
    c := ((a * 64 + b) * 64 + d) * 64 + e;
    Bits4(a, b, d, e);
  }

  /** A lead byte, its restricted second byte and tail bytes are the encoding of a code point. */
  lemma CharDecodes(s: Bytes) returns (c: int)
    requires s != [] && IsLead(s[0]) && |s| == 1 + TailCount(s[0])
    requires (|s| > 1 ==> SecondOk(s[0], s[1])) && forall i | 2 <= i < |s| :: IsTail(s[i])
    ensures IsScalar(c) && EncodeScalar(c) == s
  {
    if |s| == 1 {
      c := s[0];
    } else if |s| == 2 {
      c := TwoBytes(s[0] - 0xC0, s[1] - 0x80);
    } else if |s| == 3 {
      c := ThreeBytes(s[0] - 0xE0, s[1] - 0x80, s[2] - 0x80);
    } else {
      c := FourBytes(s[0] - 0xF0, s[1] - 0x80, s[2] - 0x80, s[3] - 0x80);
    }
  }

  /** And every encoding has that form. */
  lemma EncodingShape(c: int)
    requires IsScalar(c)
    ensures var s := EncodeScalar(c);
            && IsLead(s[0]) && |s| == 1 + TailCount(s[0])
            && (|s| > 1 ==> SecondOk(s[0], s[1])) && forall i | 2 <= i < |s| :: IsTail(s[i])
  {
  }

  /** The good prefix is the longest one that begins a character, if any of two bytes or more does. */
  lemma GoodPrefixIff(s: Bytes, k: nat)
    requires 2 <= k <= |s|
    ensures k <= GoodPrefix(s) <==> exists c | IsScalar(c) :: s[..k] <= EncodeScalar(c)
  {
    if k <= GoodPrefix(s) {
      var padded := s[..k] + seq(1 + TailCount(s[0]) - k, i => 0x80);
      var c := CharDecodes(padded);
      assert s[..k] <= padded;
    }
    if c :| IsScalar(c) && s[..k] <= EncodeScalar(c) {
      EncodingShape(c);
      var e := EncodeScalar(c);
      forall i | 0 <= i < k ensures e[i] == s[i] { assert s[..k][i] == s[i]; }
    }
  }

  lemma StartsWithCharIff(s: Bytes)
    requires s != []
    ensures StartsWithChar(s) <==> exists c | IsScalar(c) :: EncodeScalar(c) <= s
    ensures forall c | IsScalar(c) && EncodeScalar(c) <= s :: |EncodeScalar(c)| == GoodPrefix(s)
  {
    if StartsWithChar(s) {
      var c := CharDecodes(s[..GoodPrefix(s)]);
    }
    forall c | IsScalar(c) && EncodeScalar(c) <= s ensures StartsWithChar(s) && |EncodeScalar(c)| == GoodPrefix(s) {
      EncodingShape(c);
      var e := EncodeScalar(c);
      forall i | 0 <= i < |e| ensures e[i] == s[i] {}
    }
  }

  function EncodeText(cs: seq<int>): Bytes
    requires forall c | c in cs :: IsScalar(c)
  {
    if cs == [] then [] else EncodeScalar(cs[0]) + EncodeText(cs[1..])
  }

  ghost predicate IsEncoded(s: Bytes, cs: seq<int>) { (forall c | c in cs :: IsScalar(c)) && s == EncodeText(cs) }

  lemma {:induction false} TextIsUtf8(cs: seq<int>)
    requires forall c | c in cs :: IsScalar(c)
    ensures IsUtf8(EncodeText(cs))
  {
    if cs != [] {
      var e, rest := EncodeScalar(cs[0]), EncodeText(cs[1..]);
      TextIsUtf8(cs[1..]);
      StartsWithCharIff(e + rest);
      assert e <= e + rest && (e + rest)[|e|..] == rest;
    }
  }

  lemma {:induction false} Utf8IsText(s: Bytes) returns (cs: seq<int>)
    requires IsUtf8(s)
    ensures IsEncoded(s, cs)
  {
    cs := [];
    if s != [] {
      var n := GoodPrefix(s);
      var c := CharDecodes(s[..n]);
      cs := Utf8IsText(s[n..]);
      cs := [c] + cs;
      assert s == s[..n] + s[n..];
    }
  }

  /** Well-formed bytes are exactly the encodings of sequences of code points. */
  lemma IsUtf8Iff(s: Bytes)
    ensures IsUtf8(s) <==> exists cs :: IsEncoded(s, cs)
  {
    if IsUtf8(s) { var cs := Utf8IsText(s); }
    if cs :| IsEncoded(s, cs) { TextIsUtf8(cs); }
  }

  /** What the lossy decoding makes of ill-formed input: U+FFFD for each maximal beginning. */
  lemma LossyReplaces(s: Bytes)
    requires s != []
    ensures Lossy(s)
         == (if exists c | IsScalar(c) :: EncodeScalar(c) <= s then s[..GoodPrefix(s)] else EncodeScalar(0xFFFD)) + Lossy(s[GoodPrefix(s)..])
  {
    StartsWithCharIff(s);
  }
}
