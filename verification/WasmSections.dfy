/**
 Reading the plugin manifest embedded in a WASM binary: unsigned LEB128 numbers (section 5.2.2 of
 the WebAssembly Core Specification) and the walk over the module's sections (sections 5.5.2 and
 5.5.3). The decoder is proved exact on all byte strings, padded and oversized encodings included;
 the walk is proved sound and complete for the sections of a module.
 */
module WasmSections {
  import opened Text
  import opened Utf8

  const TWO_32 := 0x1_0000_0000

  // ---------- LEB128 ----------

  /** The number a LEB128 byte string stands for: little-endian groups of seven bits. */
  function LebValue(bs: Bytes): nat {
    if bs == [] then 0 else bs[0] % 128 + 128 * LebValue(bs[1..])
  }

  /** Continuation bit on every byte but the last, and at most five bytes. */
  predicate IsLeb(bs: Bytes) {
    1 <= |bs| <= 5 && bs[|bs| - 1] < 128 && forall i | 0 <= i < |bs| - 1 :: bs[i] >= 128
  }

  /** The length of the LEB128 number at the front, if there is one. */
  function LebLength(bs: Bytes, i: nat := 0): (n: Option<nat>)
    requires i <= 5 && i <= |bs| && forall k | 0 <= k < i :: bs[k] >= 128
    ensures n.Some? ==> i < n.value <= |bs| && IsLeb(bs[..n.value])
    ensures n.None? ==> forall k | 0 <= k <= |bs| :: !IsLeb(bs[..k])
    decreases 5 - i
  {
    if i == 5 || i == |bs| then None
    else if bs[i] < 128 then Some(i + 1)
    else LebLength(bs, i + 1)
  }

  /** The decoder's result: the value modulo 2^32 (the fifth byte's high bits fall off) and the
      number of bytes read. */
  function ReadLeb(bs: Bytes): (r: Option<(nat, nat)>)
    ensures r.Some? ==> r.value.1 <= |bs|
  {
    match LebLength(bs)
    case None => None
    case Some(n) => Some((LebValue(bs[..n]) % TWO_32, n))
  }

  function Pow128(k: nat): nat { if k == 0 then 1 else 128 * Pow128(k - 1) }

  lemma {:induction false} LebSnoc(bs: Bytes, b: byte)
    ensures LebValue(bs + [b]) == LebValue(bs) + b % 128 * Pow128(|bs|)
  {
    if bs == [] {
      assert [] + [b] == [b] && [b][1..] == [];
    } else {
      LebSnoc(bs[1..], b);
      assert (bs + [b])[1..] == bs[1..] + [b];
    }
  }

  lemma {:induction false} LebBound(bs: Bytes)
    ensures LebValue(bs) < Pow128(|bs|)
  {
    if bs != [] { LebBound(bs[1..]); }
  }

  lemma Pow128Values()
    ensures Pow128(1) == 0x80 && Pow128(2) == 0x4000 && Pow128(3) == 0x20_0000 && Pow128(4) == 0x1000_0000
  {
    assert Pow128(0) == 1;
  }

  lemma Mod32(q: int, r: int)
    requires 0 <= r < TWO_32
    ensures (q * TWO_32 + r) % TWO_32 == r
  {
  }

  /** Dropping the bits shifted out of a `u32` and OR-ing into the (disjoint) lower bits is
      addition modulo 2^32. */
  lemma ShiftIn(result: nat, group: nat, k: nat)
    requires k < 5 && result < Pow128(k) && group < 128
    ensures result + group * Pow128(k) % TWO_32 == (result + group * Pow128(k)) % TWO_32
    ensures k < 4 ==> group * Pow128(k) % TWO_32 == group * Pow128(k)
  {
    Pow128Values();
    var shifted := group * Pow128(k);
    if k == 4 {
      var hi, lo := group / 16, group % 16 * 0x1000_0000;
      assert shifted == hi * TWO_32 + lo;
      Mod32(hi, lo);
      Mod32(hi, result + lo);
    } else {
      assert shifted < 128 * Pow128(k);
      Mod32(0, shifted);
      Mod32(0, result + shifted);
    }
  }

  /** One step of the decoding loop. */
  lemma LebStep(bytes: Bytes, i: nat, result: nat)
    requires i < |bytes| && i < 5 && result == LebValue(bytes[..i])
    ensures var next := result + bytes[i] % 128 * Pow128(i) % TWO_32;
            next == LebValue(bytes[..i + 1]) % TWO_32 && (i < 4 ==> next == LebValue(bytes[..i + 1]))
  {
    assert bytes[..i + 1] == bytes[..i] + [bytes[i]];
    LebSnoc(bytes[..i], bytes[i]);
    LebBound(bytes[..i]);
    ShiftIn(result, bytes[i] % 128, i);
  }

  method ReadUleb128(bytes: Bytes) returns (r: Option<(nat, nat)>)
    ensures r == ReadLeb(bytes)
  {
    var result, scale := 0, 1;
    for i := 0 to |bytes|
      invariant i <= 5 && scale == Pow128(i)
      invariant forall k | 0 <= k < i :: bytes[k] >= 128
      invariant i < 5 ==> result == LebValue(bytes[..i])
      invariant LebLength(bytes) == LebLength(bytes, i)
    {
      if i >= 5 {
        return None;
      }
      LebStep(bytes, i, result);
      result := result + bytes[i] % 128 * scale % TWO_32;
      if bytes[i] < 128 {
        return Some((result, i + 1));
      }
      scale := scale * 128;
    }
    return None;
  }

  // ---------- The encoder ----------

  function Leb(v: nat): (bs: Bytes)
    ensures bs != []
  {
    if v < 128 then [v] else [128 + v % 128] + Leb(v / 128)
  }

  method EncodeUleb128(value: nat) returns (out: Bytes)
    ensures out == Leb(value)
  {
    out := [];
    var v := value;
    while true
      invariant out + Leb(v) == Leb(value)
      decreases v
    {
      var byte := v % 128;
      var rest := v / 128;
      if rest != 0 {
        Assoc(out, [128 + byte], Leb(rest));
        out := out + [128 + byte];
      } else {
        out := out + [byte];
        return;
      }
      v := rest;
    }
  }

  lemma {:induction false} LebEncodes(v: nat, k: nat)
    requires v < Pow128(k)
    ensures 1 <= |Leb(v)| && (k > 0 ==> |Leb(v)| <= k)
    ensures LebValue(Leb(v)) == v
    ensures Leb(v)[|Leb(v)| - 1] < 128 && forall i | 0 <= i < |Leb(v)| - 1 :: Leb(v)[i] >= 128
    decreases k
  {
    if v < 128 {
      assert [v][1..] == [] && LebValue([]) == 0;
    } else {
      assert Pow128(k) == 128 * Pow128(k - 1);
      LebEncodes(v / 128, k - 1);
      assert Leb(v)[1..] == Leb(v / 128);
    }
  }

  /** A LEB128 number in front of anything is read back, padded encodings included. */
  lemma ReadsBack(bs: Bytes, rest: Bytes)
    requires IsLeb(bs)
    ensures ReadLeb(bs + rest) == Some((LebValue(bs) % TWO_32, |bs|))
  {
    var s := bs + rest;
    assert s[..|bs|] == bs;
    var n := LebLength(s);
    assert n.Some?;
    assert forall i | 0 <= i < |bs| :: s[i] == bs[i];
    assert forall i | 0 <= i < n.value :: s[..n.value][i] == s[i];
  }

  /** Decoding inverts the encoder for every `u32`, whatever follows. */
  lemma ReadInvertsLeb(v: nat, rest: Bytes)
    requires v < TWO_32
    ensures ReadLeb(Leb(v) + rest) == Some((v, |Leb(v)|))
  {
    assert Pow128(5) == 128 * Pow128(4);
    Pow128Values();
    LebEncodes(v, 5);
    ReadsBack(Leb(v), rest);
  }

  // ---------- Sections ----------

  const HEADER_LENGTH := 8

  const MANIFEST_SECTION: Bytes :=
    [0x62, 0x61, 0x72, 0x62, 0x61, 0x63, 0x61, 0x6E, 0x65, 0x5F, 0x6D, 0x61, 0x6E, 0x69, 0x66, 0x65, 0x73, 0x74]

  /** A custom section (id 0) holds a name and a payload; the contents of others do not matter here.
      Lengths are kept in the encoding they have in the file. */
  datatype Section =
    | Custom(length: Bytes, nameLength: Bytes, name: Bytes, payload: Bytes)
    | Other(id: byte, length: Bytes, content: Bytes)

  /** `bs` is read as the number `n`. */
  predicate Denotes(bs: Bytes, n: nat) { IsLeb(bs) && LebValue(bs) % TWO_32 == n }

  function Content(s: Section): Bytes {
    match s
    case Custom(_, nameLength, name, payload) => nameLength + name + payload
    case Other(_, _, content) => content
  }

  predicate WellFormed(s: Section) {
    && Denotes(s.length, |Content(s)|)
    && (if s.Custom? then Denotes(s.nameLength, |s.name|) else s.id != 0)
  }

  function Encode(s: Section): Bytes { [if s.Custom? then 0 else s.id] + s.length + Content(s) }

  function EncodeAll(ss: seq<Section>): Bytes {
    if ss == [] then [] else Encode(ss[0]) + EncodeAll(ss[1..])
  }

  /** The manifest of a module: the payload of its first manifest section, if that is text. */
  function FirstManifest(ss: seq<Section>): Option<Bytes> {
    if ss == [] then None
    else if ss[0].Custom? && ss[0].name == MANIFEST_SECTION then
      if IsUtf8(ss[0].payload) then Some(ss[0].payload) else None
    else FirstManifest(ss[1..])
  }

  // ---------- The walk ----------

  /** The section at the front: its id, its length bytes, its content, and what follows. */
  datatype Frame = Frame(id: byte, length: Bytes, content: Bytes, rest: Bytes)

  function NextFrame(bs: Bytes): (f: Option<Frame>)
    requires bs != []
    ensures f.Some? ==> |f.value.rest| < |bs|
  {
    match ReadLeb(bs[1..])
    case None => None
    case Some((len, n)) =>
      var end := 1 + n + len;
      if end > |bs| then None else Some(Frame(bs[0], bs[1..1 + n], bs[1 + n..end], bs[end..]))
  }

  datatype Named = Named(nameLength: Bytes, name: Bytes, payload: Bytes)

  /** The name and payload of a custom section's content. */
  function SplitName(content: Bytes): Option<Named> {
    match ReadLeb(content)
    case None => None
    case Some((nameLen, n)) =>
      if n + nameLen > |content| then None
      else Some(Named(content[..n], content[n..n + nameLen], content[n + nameLen..]))
  }

  function Walk(bs: Bytes): Option<Bytes>
    decreases |bs|
  {
    if bs == [] then None
    else
      match NextFrame(bs)
      case None => None
      case Some(f) =>
        if f.id == 0 then
          match SplitName(f.content)
          case None => None
          case Some(custom) =>
            if custom.name == MANIFEST_SECTION then
              (if IsUtf8(custom.payload) then Some(custom.payload) else None)
            else Walk(f.rest)
        else Walk(f.rest)
  }

  /** The manifest of a whole file: the walk starts after the header. */
  function ManifestOf(wasm: Bytes): Option<Bytes> {
    if |wasm| <= HEADER_LENGTH then None else Walk(wasm[HEADER_LENGTH..])
  }

  /** Bounds-checked slicing of the section at `pos`. */
  method ReadFrame(wasm: Bytes, pos: nat) returns (r: Option<(byte, Bytes, nat)>)
    requires pos < |wasm|
    ensures match NextFrame(wasm[pos..]) {
      case None => r == None
      case Some(f) => r.Some? && r.value.0 == f.id && r.value.1 == f.content
                      && pos < r.value.2 <= |wasm| && wasm[r.value.2..] == f.rest
    }
  {
    ghost var bs := wasm[pos..];
    assert wasm[pos + 1..] == bs[1..];
    var size := ReadUleb128(wasm[pos + 1..]);
    if size == None { return None; }
    var (len, consumed) := size.value;
    var start := pos + 1 + consumed;
    var end := start + len;
    if end > |wasm| { return None; }
    assert wasm[start..end] == bs[1 + consumed..1 + consumed + len];
    assert wasm[end..] == bs[1 + consumed + len..];
    return Some((wasm[pos], wasm[start..end], end));
  }

  method ReadName(content: Bytes) returns (r: Option<(Bytes, Bytes)>)
    ensures match SplitName(content) {
      case None => r == None
      case Some(c) => r == Some((c.name, c.payload))
    }
  {
    var nameSize := ReadUleb128(content);
    if nameSize == None { return None; }
    var (nameLen, n) := nameSize.value;
    var nameEnd := n + nameLen;
    if nameEnd > |content| { return None; }
    return Some((content[n..nameEnd], content[nameEnd..]));
  }

  method ReadEmbeddedManifest(wasm: Bytes) returns (manifest: Option<Bytes>)
    ensures manifest == ManifestOf(wasm)
  {
    var pos := HEADER_LENGTH;
    while pos < |wasm|
      invariant HEADER_LENGTH <= pos
      invariant pos <= |wasm| ==> ManifestOf(wasm) == Walk(wasm[pos..])
      invariant pos > |wasm| ==> ManifestOf(wasm) == None
      decreases |wasm| - pos
    {
      var frame := ReadFrame(wasm, pos);
      if frame == None { return None; }
      var (id, section, end) := frame.value;
      if id == 0 {
        var custom := ReadName(section);
        if custom == None { return None; }
        if custom.value.0 == MANIFEST_SECTION {
          return if IsUtf8(custom.value.1) then Some(custom.value.1) else None;
        }
      }
      pos := end;
    }
    return None;
  }

  // ---------- The walk finds exactly the first manifest section ----------

  lemma SplitNameEncoded(nameLength: Bytes, name: Bytes, payload: Bytes)
    requires Denotes(nameLength, |name|)
    ensures SplitName(nameLength + name + payload) == Some(Named(nameLength, name, payload))
  {
    var c := nameLength + name + payload;
    assert c == nameLength + (name + payload);
    ReadsBack(nameLength, name + payload);
    var n := |nameLength|;
    assert c[..n] == nameLength && c[n..n + |name|] == name && c[n + |name|..] == payload;
  }

  lemma NextFrameEncoded(id: byte, length: Bytes, content: Bytes, rest: Bytes)
    requires Denotes(length, |content|)
    ensures NextFrame([id] + length + content + rest) == Some(Frame(id, length, content, rest))
  {
    var bs := [id] + length + content + rest;
    assert bs[1..] == length + (content + rest);
    ReadsBack(length, content + rest);
    var n := |length|;
    assert bs[1..1 + n] == length && bs[1 + n..1 + n + |content|] == content && bs[1 + n + |content|..] == rest;
  }

  lemma WalkStep(s: Section, rest: Bytes)
    requires WellFormed(s)
    ensures Walk(Encode(s) + rest)
         == if s.Custom? && s.name == MANIFEST_SECTION
            then (if IsUtf8(s.payload) then Some(s.payload) else None)
            else Walk(rest)
  {
    NextFrameEncoded(if s.Custom? then 0 else s.id, s.length, Content(s), rest);
    if s.Custom? { SplitNameEncoded(s.nameLength, s.name, s.payload); }
  }

  lemma {:induction false} WalkComplete(ss: seq<Section>)
    requires forall s | s in ss :: WellFormed(s)
    ensures Walk(EncodeAll(ss)) == FirstManifest(ss)
  {
    if ss != [] {
      WalkComplete(ss[1..]);
      WalkStep(ss[0], EncodeAll(ss[1..]));
    }
  }

  /** Once there is a manifest, what follows it does not matter. */
  lemma {:induction false} WalkIgnoresTail(ss: seq<Section>, tail: Bytes)
    requires (forall s | s in ss :: WellFormed(s)) && FirstManifest(ss).Some?
    ensures Walk(EncodeAll(ss) + tail) == FirstManifest(ss)
  {
    var s, rest := ss[0], ss[1..];
    assert ss == [s] + rest;
    OneMore(s, rest, tail);
    WalkStep(s, EncodeAll(rest) + tail);
    if !(s.Custom? && s.name == MANIFEST_SECTION) {
      WalkIgnoresTail(rest, tail);
    }
  }

  /** Completeness: for every well-formed list of sections after any header, the walk returns the
      payload of the first manifest section, or nothing if there is none. */
  lemma ManifestComplete(header: Bytes, ss: seq<Section>)
    requires |header| == HEADER_LENGTH && forall s | s in ss :: WellFormed(s)
    ensures ManifestOf(header + EncodeAll(ss)) == FirstManifest(ss)
  {
    WalkComplete(ss);
    assert (header + EncodeAll(ss))[HEADER_LENGTH..] == EncodeAll(ss);
  }

  lemma FrameIsEncoded(bs: Bytes)
    requires bs != [] && NextFrame(bs).Some?
    ensures var f := NextFrame(bs).value;
            bs == [f.id] + f.length + f.content + f.rest && Denotes(f.length, |f.content|)
  {
    var (len, n) := ReadLeb(bs[1..]).value;
    assert bs[1..][..n] == bs[1..1 + n];
    assert bs == [bs[0]] + bs[1..1 + n] + bs[1 + n..1 + n + len] + bs[1 + n + len..];
  }

  lemma OneMore(s: Section, rest: seq<Section>, tail: Bytes)
    ensures EncodeAll([s] + rest) + tail == Encode(s) + (EncodeAll(rest) + tail)
    ensures !(s.Custom? && s.name == MANIFEST_SECTION) ==> FirstManifest([s] + rest) == FirstManifest(rest)
  {
    assert ([s] + rest)[1..] == rest;
    Assoc(Encode(s), EncodeAll(rest), tail);
  }

  /** The section that a frame the walk accepts encodes. */
  lemma SectionOf(f: Frame) returns (s: Section)
    requires Denotes(f.length, |f.content|) && (f.id == 0 ==> SplitName(f.content).Some?)
    ensures WellFormed(s) && Encode(s) == [f.id] + f.length + f.content && (s.Custom? <==> f.id == 0)
    ensures s.Custom? ==> s.name == SplitName(f.content).value.name && s.payload == SplitName(f.content).value.payload
  {
    if f.id == 0 {
      var c := SplitName(f.content).value;
      s := Custom(f.length, c.nameLength, c.name, c.payload);
    } else {
      s := Other(f.id, f.length, f.content);
    }
  }

  /** Soundness on arbitrary bytes: a manifest is returned only if the bytes start with well-formed
      sections whose first manifest section carries it. */
  lemma {:induction false} WalkSound(bs: Bytes) returns (ss: seq<Section>, tail: Bytes)
    requires Walk(bs).Some?
    ensures bs == EncodeAll(ss) + tail && (forall s | s in ss :: WellFormed(s))
    ensures FirstManifest(ss) == Walk(bs)
    decreases |bs|
  {
    var f := NextFrame(bs).value;
    FrameIsEncoded(bs);
    var s := SectionOf(f);
    var rest: seq<Section> := [];
    tail := f.rest;
    if s.Custom? && s.name == MANIFEST_SECTION {
      assert EncodeAll(rest) + tail == tail;
    } else {
      rest, tail := WalkSound(f.rest);
    }
    OneMore(s, rest, tail);
    ss := [s] + rest;
  }

  /** The bytes begin with well-formed sections whose first manifest is `m`. */
  ghost predicate BeginsWith(bs: Bytes, ss: seq<Section>, tail: Bytes, m: Bytes) {
    bs == EncodeAll(ss) + tail && (forall s | s in ss :: WellFormed(s)) && FirstManifest(ss) == Some(m)
  }

  /** On arbitrary bytes, exactly when a manifest is found. */
  lemma WalkIff(bs: Bytes, m: Bytes)
    ensures Walk(bs) == Some(m) <==> exists ss, tail :: BeginsWith(bs, ss, tail, m)
  {
    if Walk(bs) == Some(m) {
      var ss, tail := WalkSound(bs);
      assert BeginsWith(bs, ss, tail, m);
    }
    if ss, tail :| BeginsWith(bs, ss, tail, m) {
      WalkIgnoresTail(ss, tail);
    }
  }

  /** The name that is looked for, in characters. */
  lemma ManifestSectionName()
    ensures |MANIFEST_SECTION| == |"barbacane_manifest"|
    ensures forall i | 0 <= i < |MANIFEST_SECTION| :: MANIFEST_SECTION[i] == "barbacane_manifest"[i] as int
  {
  }

  /** Which files have a manifest: eight bytes of header, then such sections. */
  lemma ManifestIff(wasm: Bytes, m: Bytes)
    ensures ManifestOf(wasm) == Some(m) <==> |wasm| > 8 && exists ss, tail :: BeginsWith(wasm[8..], ss, tail, m)
  {
    if |wasm| > 8 { WalkIff(wasm[8..], m); }
  }
}
