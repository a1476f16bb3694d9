/**
 Path templates such as `/files/{bucket}/{key+}`: the character-by-character validator, and the
 normaliser that erases parameter names for conflict detection. The validator is proved to accept
 exactly the printed forms of a token grammar; normalised forms are proved equal exactly for equal
 skeletons.

 `unicode` decides which characters outside ASCII count as alphanumeric.
 */
module PathTemplates {
  import opened Text

  // ---------- The grammar ----------

  /** A literal character, or a parameter with the text between its braces. */
  datatype Token = Lit(c: char) | Param(name: string)

  function PrintToken(t: Token): string {
    match t
    case Lit(c) => [c]
    case Param(name) => ['{'] + name + ['}']
  }

  function Print(ts: seq<Token>): string { Flat(PrintToken, ts) }

  predicate IsWord(unicode: char -> bool, c: char) {
    || '0' <= c <= '9' || 'a' <= c <= 'z' || 'A' <= c <= 'Z' || c == '_'
    || (c as int >= 128 && unicode(c))
  }

  predicate IsWildcard(name: string) { name != [] && name[|name| - 1] == '+' }

  function Base(name: string): string { if IsWildcard(name) then name[..|name| - 1] else name }

  /** Word characters followed by plus signs. More than one plus sign is let through. */
  predicate NameChars(unicode: char -> bool, name: string) {
    && (forall i | 0 <= i < |name| :: IsWord(unicode, name[i]) || name[i] == '+')
    && (forall i, j | 0 <= i < j < |name| :: name[i] == '+' ==> name[j] == '+')
  }

  predicate TokenOk(unicode: char -> bool, t: Token) {
    match t
    case Lit(c) => c != '{' && c != '}'
    case Param(name) => NameChars(unicode, name) && Base(name) != []
  }

  predicate IsWild(t: Token) { t.Param? && IsWildcard(t.name) }

  /** Token `i` stands alone in its segment, and only slashes follow. */
  predicate IsLastSegment(ts: seq<Token>, i: nat)
    requires i < |ts|
  {
    && (i == 0 || ts[i - 1] == Lit('/'))
    && forall j | i < j < |ts| :: ts[j] == Lit('/')
  }

  /** What a template is: well-formed tokens, distinct parameter names, and at most one wildcard,
      which is the whole last nonempty segment. */
  ghost predicate Template(unicode: char -> bool, ts: seq<Token>) {
    && (forall i | 0 <= i < |ts| :: TokenOk(unicode, ts[i]))
    && (forall i, j | 0 <= i < j < |ts| && ts[i].Param? && ts[j].Param? :: Base(ts[i].name) != Base(ts[j].name))
    && (forall i, j | 0 <= i < j < |ts| :: !(IsWild(ts[i]) && IsWild(ts[j])))
    && (forall i | 0 <= i < |ts| && IsWild(ts[i]) :: IsLastSegment(ts, i))
  }

  // ---------- The validator ----------

  datatype TemplateError =
    | NestedBrace | UnmatchedBrace | EmptyName | SecondWildcard | WildcardNotLast
    | DuplicateName | InvalidCharacter | MisplacedPlus | UnclosedBrace

  /** The loop state; `brace_depth` is 1 inside a parameter and 0 outside. */
  datatype Scanner = Scanner(seen: set<string>, current: string, inParam: bool, hasWildcard: bool)

  const START := Scanner({}, [], false, false)

  function CloseParam(last: string, st: Scanner): (Option<TemplateError>, Scanner) {
    var wild := IsWildcard(st.current);
    if Base(st.current) == [] then (Some(EmptyName), st)
    else if wild && st.hasWildcard then (Some(SecondWildcard), st)
    else if wild && last != ['{'] + st.current + ['}'] then (Some(WildcardNotLast), st)
    else if Base(st.current) in st.seen then (Some(DuplicateName), st)
    else (None, Scanner(st.seen + {Base(st.current)}, [], false, st.hasWildcard || wild))
  }

  function ScanChar(unicode: char -> bool, last: string, st: Scanner, c: char): (Option<TemplateError>, Scanner) {
    if c == '{' then
      if st.inParam then (Some(NestedBrace), st) else (None, st.(inParam := true))
    else if c == '}' then
      if !st.inParam then (Some(UnmatchedBrace), st) else CloseParam(last, st)
    else if !st.inParam then (None, st)
    else if c == '+' then (None, st.(current := st.current + [c]))
    else if !IsWord(unicode, c) then (Some(InvalidCharacter), st)
    else if IsWildcard(st.current) then (Some(MisplacedPlus), st)
    else (None, st.(current := st.current + [c]))
  }

  function Scan(unicode: char -> bool, last: string, st: Scanner, s: string): Option<TemplateError>
    decreases |s|
  {
    if s == [] then (if st.inParam then Some(UnclosedBrace) else None)
    else
      var (err, st') := ScanChar(unicode, last, st, s[0]);
      if err.Some? then err else Scan(unicode, last, st', s[1..])
  }

  function Segments(path: string): seq<string> { Filter((s: string) => s != [], Split(path, '/')) }

  function LastSegment(path: string): string {
    var segments := Segments(path);
    if segments == [] then [] else segments[|segments| - 1]
  }

  function Validate(unicode: char -> bool, path: string): Option<TemplateError> {
    Scan(unicode, LastSegment(path), START, path)
  }

  method ValidatePathTemplate(unicode: char -> bool, path: string) returns (error: Option<TemplateError>)
    ensures error == Validate(unicode, path)
  {
    var seen: set<string> := {};
    var current: string := [];
    var inParam, hasWildcard := false, false;
    var last := LastSegment(path);
    for i := 0 to |path|
      invariant inParam || current == []
      invariant Validate(unicode, path) == Scan(unicode, last, Scanner(seen, current, inParam, hasWildcard), path[i..])
    {
      assert path[i..][0] == path[i] && path[i..][1..] == path[i + 1..];
      var c := path[i];
      if c == '{' {
        if inParam { return Some(NestedBrace); }
        inParam := true;
      } else if c == '}' {
        if !inParam { return Some(UnmatchedBrace); }
        var wild := IsWildcard(current);
        var base := if wild then current[..|current| - 1] else current;
        if base == [] { return Some(EmptyName); }
        if wild {
          if hasWildcard { return Some(SecondWildcard); }
          if last != ['{'] + current + ['}'] { return Some(WildcardNotLast); }
        }
        if base in seen { return Some(DuplicateName); }
        hasWildcard := hasWildcard || wild;
        inParam := false;
        seen := seen + {base};
        current := [];
      } else if inParam {
        if c == '+' {
          current := current + [c];
        } else if !IsWord(unicode, c) {
          return Some(InvalidCharacter);
        } else if IsWildcard(current) {
          return Some(MisplacedPlus);
        } else {
          current := current + [c];
        }
      }
    }
    return if inParam then Some(UnclosedBrace) else None;
  }

  // ---------- The scan accepts exactly the token sequences that pass one by one ----------

  /** The scanner's checks, token by token. */
  predicate Passes(unicode: char -> bool, last: string, seen: set<string>, hasWildcard: bool, ts: seq<Token>)
    decreases |ts|
  {
    if ts == [] then true
    else if ts[0].Lit? then TokenOk(unicode, ts[0]) && Passes(unicode, last, seen, hasWildcard, ts[1..])
    else
      && TokenOk(unicode, ts[0]) && Base(ts[0].name) !in seen
      && (IsWild(ts[0]) ==> !hasWildcard && last == PrintToken(ts[0]))
      && Passes(unicode, last, seen + {Base(ts[0].name)}, hasWildcard || IsWild(ts[0]), ts[1..])
  }

  lemma {:induction false} ScanName(unicode: char -> bool, last: string, st: Scanner, name: string, s: string)
    requires st.inParam && NameChars(unicode, st.current + name)
    ensures Scan(unicode, last, st, name + s) == Scan(unicode, last, st.(current := st.current + name), s)
    decreases |name|
  {
    if name == [] {
      assert name + s == s && st.current + name == st.current;
    } else {
      var c, cur := name[0], st.current;
      assert (cur + name)[|cur|] == c;
      assert IsWildcard(cur) ==> (cur + name)[|cur| - 1] == '+';
      assert (name + s)[1..] == name[1..] + s;
      assert cur + [c] + name[1..] == cur + name;
      ScanName(unicode, last, st.(current := cur + [c]), name[1..], s);
    }
  }

  /** A whole parameter token, scanned. */
  lemma ScanParam(unicode: char -> bool, last: string, st: Scanner, name: string, rest: string)
    requires !st.inParam && st.current == [] && TokenOk(unicode, Param(name)) && Base(name) !in st.seen
    requires IsWildcard(name) ==> !st.hasWildcard && last == PrintToken(Param(name))
    ensures Scan(unicode, last, st, PrintToken(Param(name)) + rest)
         == Scan(unicode, last, Scanner(st.seen + {Base(name)}, [], false, st.hasWildcard || IsWildcard(name)), rest)
  {
    var s := PrintToken(Param(name)) + rest;
    var open, close := st.(inParam := true), ['}'] + rest;
    assert s[0] == '{' && s[1..] == name + close;
    assert [] + name == name;
    ScanName(unicode, last, open, name, close);
    assert close[0] == '}' && close[1..] == rest;
  }

  lemma {:induction false} ScanAccepts(unicode: char -> bool, last: string, st: Scanner, ts: seq<Token>)
    requires !st.inParam && st.current == [] && Passes(unicode, last, st.seen, st.hasWildcard, ts)
    ensures Scan(unicode, last, st, Print(ts)) == None
    decreases |ts|
  {
    if ts != [] {
      if ts[0].Lit? {
        assert Print(ts)[0] == ts[0].c && Print(ts)[1..] == Print(ts[1..]);
        ScanAccepts(unicode, last, st, ts[1..]);
      } else {
        var name := ts[0].name;
        ScanParam(unicode, last, st, name, Print(ts[1..]));
        ScanAccepts(unicode, last, Scanner(st.seen + {Base(name)}, [], false, st.hasWildcard || IsWildcard(name)), ts[1..]);
      }
    }
  }

  /** Inside a parameter, an accepting scan reads the rest of the name and its closing brace. */
  lemma {:induction false} ScanClosesParam(unicode: char -> bool, last: string, st: Scanner, s: string)
    returns (more: string, rest: string)
    requires st.inParam && NameChars(unicode, st.current) && Scan(unicode, last, st, s) == None
    ensures s == more + ['}'] + rest && NameChars(unicode, st.current + more)
    ensures var (err, after) := CloseParam(last, st.(current := st.current + more));
            err == None && Scan(unicode, last, after, rest) == None
    decreases |s|
  {
    var c, tail := s[0], s[1..];
    assert s == [c] + tail;
    if c == '}' {
      more, rest := [], tail;
      assert st.current + more == st.current;
      assert st.(current := st.current + more) == st;
    } else {
      var st' := st.(current := st.current + [c]);
      var more';
      more', rest := ScanClosesParam(unicode, last, st', tail);
      more := [c] + more';
      Assoc(st.current, [c], more');
      assert st.(current := st.current + more) == st'.(current := st'.current + more');
      assert [c] + (more' + ['}'] + rest) == more + ['}'] + rest;
    }
  }

  lemma ParamText(s: string, name: string, rest: string)
    requires s != [] && s[0] == '{' && s[1..] == name + ['}'] + rest
    ensures s == PrintToken(Param(name)) + rest
  {
    assert s == ['{'] + s[1..];
  }

  /** Outside a parameter, an accepting scan that meets an opening brace reads a whole parameter. */
  lemma ScanReadsParam(unicode: char -> bool, last: string, st: Scanner, s: string)
    returns (name: string, rest: string)
    requires !st.inParam && st.current == [] && Scan(unicode, last, st, s) == None
    requires s != [] && s[0] == '{'
    ensures |rest| < |s| && s == PrintToken(Param(name)) + rest && NameChars(unicode, name)
    ensures var (err, after) := CloseParam(last, st.(inParam := true, current := name));
            err == None && Scan(unicode, last, after, rest) == None
  {
    var open := st.(inParam := true);
    name, rest := ScanClosesParam(unicode, last, open, s[1..]);
    assert [] + name == name;
    ParamText(s, name, rest);
  }

  lemma {:induction false} ScanReads(unicode: char -> bool, last: string, st: Scanner, s: string) returns (ts: seq<Token>)
    requires !st.inParam && st.current == [] && Scan(unicode, last, st, s) == None
    ensures s == Print(ts) && Passes(unicode, last, st.seen, st.hasWildcard, ts)
    decreases |s|
  {
    if s == [] {
      ts := [];
    } else if s[0] == '{' {
      var name, rest := ScanReadsParam(unicode, last, st, s);
      var tail := ScanReads(unicode, last, CloseParam(last, st.(inParam := true, current := name)).1, rest);
      ts := [Param(name)] + tail;
    } else {
      var tail := ScanReads(unicode, last, st, s[1..]);
      ts := [Lit(s[0])] + tail;
      assert s == [s[0]] + s[1..];
    }
  }

  // ---------- Passing one by one is the declarative conditions ----------

  ghost predicate DistinctNames(ts: seq<Token>, seen: set<string>) {
    && (forall i | 0 <= i < |ts| && ts[i].Param? :: Base(ts[i].name) !in seen)
    && (forall i, j | 0 <= i < j < |ts| && ts[i].Param? && ts[j].Param? :: Base(ts[i].name) != Base(ts[j].name))
  }

  ghost predicate OneWildcard(ts: seq<Token>, already: bool) {
    && (already ==> forall i | 0 <= i < |ts| :: !IsWild(ts[i]))
    && (forall i, j | 0 <= i < j < |ts| :: !(IsWild(ts[i]) && IsWild(ts[j])))
  }

  ghost predicate AllTokensOk(unicode: char -> bool, ts: seq<Token>) {
    forall i | 0 <= i < |ts| :: TokenOk(unicode, ts[i])
  }

  ghost predicate WildcardsAre(ts: seq<Token>, last: string) {
    forall i | 0 <= i < |ts| && IsWild(ts[i]) :: last == PrintToken(ts[i])
  }

  lemma {:induction false} PassesIff(unicode: char -> bool, last: string, seen: set<string>, hasWildcard: bool, ts: seq<Token>)
    ensures Passes(unicode, last, seen, hasWildcard, ts) <==>
              AllTokensOk(unicode, ts) && DistinctNames(ts, seen) && OneWildcard(ts, hasWildcard) && WildcardsAre(ts, last)
    decreases |ts|
  {
    if ts != [] {
      var t := ts[0];
      if t.Lit? {
        PassesIff(unicode, last, seen, hasWildcard, ts[1..]);
      } else {
        PassesIff(unicode, last, seen + {Base(t.name)}, hasWildcard || IsWild(t), ts[1..]);
      }
    }
  }

  // ---------- The textual comparison with the last segment ----------

  predicate AllSlashes(s: string) { forall i | 0 <= i < |s| :: s[i] == '/' }

  lemma {:induction false} SegmentsOfSlashes(s: string)
    requires AllSlashes(s)
    ensures Segments(s) == []
  {
    var keep := (x: string) => x != [];
    FilterOne(keep, []);
    if s == [] {
      assert Split<char>([], '/') == [[]];
    } else {
      SegmentsOfSlashes(s[1..]);
      assert Split(s, '/') == [[]] + Split(s[1..], '/');
      FilterConcat(keep, [[]], Split(s[1..], '/'));
    }
  }

  lemma SegmentsConcat(a: string, b: string)
    ensures Segments(a + ['/'] + b) == Segments(a) + Segments(b)
  {
    SplitConcat(a, b, '/');
    FilterConcat((x: string) => x != [], Split(a, '/'), Split(b, '/'));
  }

  lemma OneSegment(seg: string)
    requires seg != [] && '/' !in seg
    ensures Segments(seg) == [seg]
  {
    SplitPrefix(seg, [], '/');
    assert seg + [] == seg;
    FilterOne((x: string) => x != [], seg);
  }

  lemma SegmentThenSlashes(seg: string, slashes: string)
    requires seg != [] && '/' !in seg && AllSlashes(slashes)
    ensures Segments(seg + slashes) == [seg]
  {
    OneSegment(seg);
    if slashes == [] {
      assert seg + slashes == seg;
    } else {
      SegmentsOfSlashes(slashes[1..]);
      SegmentsConcat(seg, slashes[1..]);
      assert seg + slashes == seg + ['/'] + slashes[1..];
    }
  }

  /** A path that ends in a slash-free segment and slashes has that segment as its last one. */
  lemma LastSegmentOf(pre: string, seg: string, slashes: string)
    requires pre == [] || pre[|pre| - 1] == '/'
    requires seg != [] && '/' !in seg && AllSlashes(slashes)
    ensures LastSegment(pre + seg + slashes) == seg
  {
    SegmentThenSlashes(seg, slashes);
    if pre == [] {
      assert pre + seg + slashes == seg + slashes;
    } else {
      var front := pre[..|pre| - 1];
      assert pre + seg + slashes == front + ['/'] + (seg + slashes);
      SegmentsConcat(front, seg + slashes);
    }
  }

  /** Every path is of that shape, or all slashes. */
  lemma {:induction false} LastSegmentShape(path: string) returns (pre: string, seg: string, slashes: string)
    ensures path == pre + seg + slashes && LastSegment(path) == seg
    ensures (pre == [] || pre[|pre| - 1] == '/') && '/' !in seg && AllSlashes(slashes)
  {
    var n := |path|;
    while n > 0 && path[n - 1] == '/'
      invariant 0 <= n <= |path| && AllSlashes(path[n..])
    {
      n := n - 1;
    }
    var m := n;
    while m > 0 && path[m - 1] != '/'
      invariant 0 <= m <= n && '/' !in path[m..n]
    {
      m := m - 1;
    }
    pre, seg, slashes := path[..m], path[m..n], path[n..];
    assert path == pre + seg + slashes;
    if seg == [] {
      assert path == slashes;
      SegmentsOfSlashes(path);
    } else {
      LastSegmentOf(pre, seg, slashes);
    }
  }

  lemma NameHasNoMarks(unicode: char -> bool, name: string)
    requires NameChars(unicode, name)
    ensures '{' !in name && '}' !in name && '/' !in name
  {
  }

  lemma PrintTake(ts: seq<Token>, k: nat)
    requires k < |ts|
    ensures |Print(ts[..k + 1])| == |PrintToken(ts[0])| + |Print(ts[1..][..k])|
  {
    assert ts[..k + 1][1..] == ts[1..][..k];
  }

  /** An opening brace in the text is the start of a parameter token. */
  lemma {:induction false} BraceStartsParam(unicode: char -> bool, ts: seq<Token>, pos: nat) returns (k: nat)
    requires AllTokensOk(unicode, ts) && pos < |Print(ts)| && Print(ts)[pos] == '{'
    ensures k < |ts| && ts[k].Param? && |Print(ts[..k])| == pos
    decreases |ts|
  {
    if pos == 0 {
      k := 0;
      assert Print(ts)[0] == PrintToken(ts[0])[0];
    } else {
      var j := BraceStartsParam(unicode, ts[1..], pos - |PrintToken(ts[0])|);
      PrintTake(ts, j);
      k := j + 1;
    }
  }

  lemma SameName(unicode: char -> bool, a: string, s: string, b: string, t: string)
    requires NameChars(unicode, a) && NameChars(unicode, b)
    requires PrintToken(Param(a)) + s == PrintToken(Param(b)) + t
    ensures a == b && s == t
  {
    var u, v := PrintToken(Param(a)) + s, PrintToken(Param(b)) + t;
    NameHasNoMarks(unicode, a);
    NameHasNoMarks(unicode, b);
    assert u[1 + |a|] == '}' && v[1 + |b|] == '}';
    assert forall i | 0 <= i < |a| :: u[1 + i] == a[i];
    assert forall i | 0 <= i < |b| :: v[1 + i] == b[i];
    assert |a| == |b|;
    assert a == u[1..1 + |a|] && b == v[1..1 + |b|];
    assert s == u[2 + |a|..] && t == v[2 + |b|..];
  }

  lemma {:induction false} SlashTokens(unicode: char -> bool, ts: seq<Token>)
    requires AllTokensOk(unicode, ts)
    ensures AllSlashes(Print(ts)) <==> forall i | 0 <= i < |ts| :: ts[i] == Lit('/')
  {
    if ts != [] {
      SlashTokens(unicode, ts[1..]);
      ConsSlashes(ts[0], Print(ts[1..]));
      assert ts == [ts[0]] + ts[1..];
      assert forall i | 0 <= i < |ts[1..]| :: ts[1..][i] == ts[i + 1];
    }
  }

  lemma ConsSlashes(t: Token, rest: string)
    ensures AllSlashes(PrintToken(t) + rest) <==> t == Lit('/') && AllSlashes(rest)
  {
    var p := PrintToken(t) + rest;
    assert p[0] == PrintToken(t)[0];
    if AllSlashes(p) {
      forall i | 0 <= i < |rest| ensures rest[i] == '/' { assert rest[i] == p[|PrintToken(t)| + i]; }
    }
  }

  /** A wildcard that is the last segment makes the comparison succeed. */
  lemma WildcardIsLastText(unicode: char -> bool, ts: seq<Token>, i: nat)
    requires AllTokensOk(unicode, ts) && i < |ts| && IsWild(ts[i]) && IsLastSegment(ts, i)
    ensures LastSegment(Print(ts)) == PrintToken(ts[i])
  {
    FlatSplit(PrintToken, ts, i);
    EndsInSlash(ts, i);
    var rest := ts[i + 1..];
    forall j | 0 <= j < |rest| ensures rest[j] == Lit('/') && TokenOk(unicode, rest[j]) { assert rest[j] == ts[i + 1 + j]; }
    SlashTokens(unicode, rest);
    assert '/' !in PrintToken(ts[i]) by { NameHasNoMarks(unicode, ts[i].name); }
    LastSegmentOf(Print(ts[..i]), PrintToken(ts[i]), Print(rest));
  }

  lemma EndsInSlash(ts: seq<Token>, i: nat)
    requires i < |ts| && (i == 0 || ts[i - 1] == Lit('/'))
    ensures var pre := Print(ts[..i]); pre == [] || pre[|pre| - 1] == '/'
  {
    if i > 0 {
      assert ts[..i] == ts[..i - 1] + [ts[i - 1]];
      FlatConcat(PrintToken, ts[..i - 1], [ts[i - 1]]);
      FlatOne(PrintToken, ts[i - 1]);
    }
  }

  /** Where a parameter's text stands between `pre` and `slashes`, the token stands there too. */
  lemma TokenAtText(unicode: char -> bool, ts: seq<Token>, pre: string, name: string, slashes: string) returns (k: nat)
    requires AllTokensOk(unicode, ts) && NameChars(unicode, name)
    requires Print(ts) == pre + PrintToken(Param(name)) + slashes
    ensures k < |ts| && ts[k] == Param(name) && Print(ts[..k]) == pre && Print(ts[k + 1..]) == slashes
  {
    var seg := PrintToken(Param(name));
    assert Print(ts)[|pre|] == '{';
    k := BraceStartsParam(unicode, ts, |pre|);
    var before, here, rest := Print(ts[..k]), PrintToken(ts[k]), Print(ts[k + 1..]);
    FlatSplit(PrintToken, ts, k);
    Assoc(before, here, rest);
    Assoc(pre, seg, slashes);
    CutEqual(before, here + rest, pre, seg + slashes);
    SameName(unicode, ts[k].name, rest, name, slashes);
  }

  /** Conversely, if the comparison succeeds for the only wildcard, then that wildcard is the last
      segment. */
  lemma TextIsLastWildcard(unicode: char -> bool, ts: seq<Token>, i: nat)
    requires AllTokensOk(unicode, ts) && OneWildcard(ts, false)
    requires i < |ts| && IsWild(ts[i]) && LastSegment(Print(ts)) == PrintToken(ts[i])
    ensures IsLastSegment(ts, i)
  {
    var pre, seg, slashes := LastSegmentShape(Print(ts));
    assert TokenOk(unicode, ts[i]);
    var k := TokenAtText(unicode, ts, pre, ts[i].name, slashes);
    assert k == i;
    OnlySlashesFollow(unicode, ts, i);
    SlashBefore(unicode, ts, i);
  }

  /** Without the at-most-one rule the comparison is not sound: in `/{a+}/{a+}` the first wildcard
      passes it, but a segment follows. */
  lemma TextAloneIsUnsound(unicode: char -> bool, name: string) returns (ts: seq<Token>)
    requires TokenOk(unicode, Param(name)) && IsWildcard(name)
    ensures ts == [Lit('/'), Param(name), Lit('/'), Param(name)] && AllTokensOk(unicode, ts)
    ensures LastSegment(Print(ts)) == PrintToken(ts[1]) && !IsLastSegment(ts, 1)
  {
    var slash, wild := Lit('/'), Param(name);
    ts := [slash, wild, slash, wild];
    NameHasNoMarks(unicode, name);
    PrintTwo(slash, wild);
    FlatConcat(PrintToken, [slash, wild], [slash, wild]);
    assert [slash, wild] + [slash, wild] == ts;
    var seg := PrintToken(wild);
    var pre := ['/'] + seg + ['/'];
    assert Print(ts) == pre + seg + [];
    LastSegmentOf(pre, seg, []);
  }

  lemma PrintTwo(x: Token, y: Token)
    ensures Print([x, y]) == PrintToken(x) + PrintToken(y)
  {
    FlatConcat(PrintToken, [x], [y]);
    FlatOne(PrintToken, x);
    FlatOne(PrintToken, y);
    assert [x] + [y] == [x, y];
  }

  lemma OnlySlashesFollow(unicode: char -> bool, ts: seq<Token>, i: nat)
    requires AllTokensOk(unicode, ts) && i < |ts| && AllSlashes(Print(ts[i + 1..]))
    ensures forall j | i < j < |ts| :: ts[j] == Lit('/')
  {
    var rest := ts[i + 1..];
    forall j | 0 <= j < |rest| ensures TokenOk(unicode, rest[j]) { assert rest[j] == ts[i + 1 + j]; }
    SlashTokens(unicode, rest);
    forall j | i < j < |ts| ensures ts[j] == Lit('/') { assert ts[j] == rest[j - i - 1]; }
  }

  lemma SlashBefore(unicode: char -> bool, ts: seq<Token>, i: nat)
    requires AllTokensOk(unicode, ts) && i < |ts|
    requires var pre := Print(ts[..i]); pre == [] || pre[|pre| - 1] == '/'
    ensures i == 0 || ts[i - 1] == Lit('/')
  {
    if i > 0 {
      assert ts[..i] == ts[..i - 1] + [ts[i - 1]];
      FlatConcat(PrintToken, ts[..i - 1], [ts[i - 1]]);
      FlatOne(PrintToken, ts[i - 1]);
    }
  }

  /** The validator accepts a path exactly when it is the text of a template. */
  lemma ValidateAccepts(unicode: char -> bool, ts: seq<Token>)
    requires Template(unicode, ts)
    ensures Validate(unicode, Print(ts)) == None
  {
    var last := LastSegment(Print(ts));
    forall i | 0 <= i < |ts| && IsWild(ts[i]) ensures last == PrintToken(ts[i]) {
      WildcardIsLastText(unicode, ts, i);
    }
    PassesIff(unicode, last, {}, false, ts);
    ScanAccepts(unicode, last, START, ts);
  }

  lemma ValidateReads(unicode: char -> bool, path: string) returns (ts: seq<Token>)
    requires Validate(unicode, path) == None
    ensures path == Print(ts) && Template(unicode, ts)
  {
    ts := ScanReads(unicode, LastSegment(path), START, path);
    PassesIff(unicode, LastSegment(path), {}, false, ts);
    forall i | 0 <= i < |ts| && IsWild(ts[i]) ensures IsLastSegment(ts, i) {
      TextIsLastWildcard(unicode, ts, i);
    }
  }

  lemma ValidateIff(unicode: char -> bool, path: string)
    ensures Validate(unicode, path) == None <==> exists ts :: Template(unicode, ts) && path == Print(ts)
  {
    if Validate(unicode, path) == None {
      var ts := ValidateReads(unicode, path);
    }
    forall ts | Template(unicode, ts) && path == Print(ts) ensures Validate(unicode, path) == None {
      ValidateAccepts(unicode, ts);
    }
  }

  /** The characters of a name: ASCII digits, letters and the underscore, and beyond ASCII what counts
      as alphanumeric. */
  lemma WordIff(unicode: char -> bool, c: char)
    ensures c as int >= 128 ==> (IsWord(unicode, c) <==> unicode(c))
    ensures c as int < 128 ==>
              (IsWord(unicode, c) <==> c in "0123456789" || c in "abcdefghijklmnopqrstuvwxyz"
                                       || c in "ABCDEFGHIJKLMNOPQRSTUVWXYZ" || c == '_')
  {
    Digits(c);
    LowerCase(c);
    UpperCase(c);
  }

  lemma Digits(c: char)
    ensures c in "0123456789" <==> '0' <= c <= '9'
  {
    RowIff(c, '0', "0123456789");
  }

  lemma LowerCase(c: char)
    ensures c in "abcdefghijklmnopqrstuvwxyz" <==> 'a' <= c <= 'z'
  {
    RowIff(c, 'a', "abcdefghijklmnopqrstuvwxyz");
  }

  lemma UpperCase(c: char)
    ensures c in "ABCDEFGHIJKLMNOPQRSTUVWXYZ" <==> 'A' <= c <= 'Z'
  {
    RowIff(c, 'A', "ABCDEFGHIJKLMNOPQRSTUVWXYZ");
  }

  lemma RowIff(c: char, first: char, row: string)
    requires forall i | 0 <= i < |row| :: row[i] as int == first as int + i
    ensures c in row <==> first <= c && c as int < first as int + |row|
  {
    if first <= c && c as int < first as int + |row| {
      assert row[c as int - first as int] == c;
    }
  }

  // ---------- Which error is reported ----------

  /** The text of the parameter that is still open at the end, if one is. */
  function OpenName(s: string): Option<string> {
    if s == [] then None
    else
      var before, c := OpenName(s[..|s| - 1]), s[|s| - 1];
      if c == '{' then Some([]) else if c == '}' || before.None? then None else Some(before.value + [c])
  }

  /** The parameters that have been closed, in order. */
  function ClosedNames(s: string): seq<string> {
    if s == [] then []
    else
      var front, c := s[..|s| - 1], s[|s| - 1];
      ClosedNames(front) + if c == '}' && OpenName(front).Some? then [OpenName(front).value] else []
  }

  ghost predicate HasWildcard(names: seq<string>) { exists n | n in names :: IsWildcard(n) }

  ghost predicate HasBase(names: seq<string>, base: string) { exists n | n in names :: Base(n) == base }

  /** What is wrong with a parameter that is being closed, after others have been. */
  ghost predicate CloseError(last: string, closed: seq<string>, name: string, error: TemplateError) {
    var wild := |name| > 1 && IsWildcard(name);
    var misplaced := last != ['{'] + name + ['}'];
    match error
    case EmptyName => name == [] || name == ['+']
    case SecondWildcard => wild && HasWildcard(closed)
    case WildcardNotLast => wild && !HasWildcard(closed) && misplaced
    case DuplicateName =>
      name != [] && name != ['+'] && !(wild && (HasWildcard(closed) || misplaced)) && HasBase(closed, Base(name))
    case _ => false
  }

  /** What is wrong with any other character, given the open parameter. */
  predicate CharError(unicode: char -> bool, c: char, open: Option<string>, error: TemplateError) {
    match error
    case NestedBrace => c == '{' && open.Some?
    case UnmatchedBrace => c == '}' && open.None?
    case InvalidCharacter => open.Some? && c != '{' && c != '}' && c != '+' && !IsWord(unicode, c)
    case MisplacedPlus => open.Some? && c != '{' && c != '}' && c != '+' && IsWord(unicode, c) && IsWildcard(open.value)
    case _ => false
  }

  /** What is wrong with a path at a position: the character there, or its end. */
  ghost predicate ErrorAt(unicode: char -> bool, path: string, i: nat, error: TemplateError) {
    if i >= |path| then i == |path| && error == UnclosedBrace && OpenName(path).Some?
    else
      var open := OpenName(path[..i]);
      if path[i] == '}' && open.Some? then CloseError(LastSegment(path), ClosedNames(path[..i]), open.value, error)
      else CharError(unicode, path[i], open, error)
  }

  /** The loop state after an accepted beginning. */
  ghost function StateOf(s: string): Scanner {
    var open, closed := OpenName(s), ClosedNames(s);
    Scanner(Image(Base, closed), if open.Some? then open.value else [], open.Some?, HasWildcard(closed))
  }

  lemma StateSnoc(unicode: char -> bool, last: string, s: string, c: char)
    requires ScanChar(unicode, last, StateOf(s), c).0 == None
    ensures ScanChar(unicode, last, StateOf(s), c).1 == StateOf(s + [c])
  {
    var longer := s + [c];
    assert longer[..|longer| - 1] == s;
    if c == '}' && OpenName(s).Some? {
      var name, closed := OpenName(s).value, ClosedNames(s);
      ImageSnoc(Base, closed, name);
      assert HasWildcard(closed + [name]) <==> HasWildcard(closed) || IsWildcard(name) by {
        assert forall n :: n in closed + [name] <==> n in closed || n == name;
      }
    }
  }

  lemma CloseErrorIff(last: string, closed: seq<string>, name: string, error: TemplateError)
    ensures CloseParam(last, Scanner(Image(Base, closed), name, true, HasWildcard(closed))).0 == Some(error)
       <==> CloseError(last, closed, name, error)
  {
    assert Base(name) in Image(Base, closed) <==> HasBase(closed, Base(name));
    assert Base(name) == [] <==> name == [] || name == ['+'];
  }

  lemma StepErrorIff(unicode: char -> bool, path: string, i: nat, error: TemplateError)
    requires i < |path|
    ensures ScanChar(unicode, LastSegment(path), StateOf(path[..i]), path[i]).0 == Some(error) <==> ErrorAt(unicode, path, i, error)
  {
    if path[i] == '}' && OpenName(path[..i]).Some? {
      CloseErrorIff(LastSegment(path), ClosedNames(path[..i]), OpenName(path[..i]).value, error);
    }
  }

  lemma {:induction false} ErrorFound(unicode: char -> bool, path: string, i: nat) returns (k: nat)
    requires i <= |path| && Scan(unicode, LastSegment(path), StateOf(path[..i]), path[i..]).Some?
    ensures i <= k <= |path|
    ensures ErrorAt(unicode, path, k, Scan(unicode, LastSegment(path), StateOf(path[..i]), path[i..]).value)
    ensures forall j: nat, e | i <= j < k :: !ErrorAt(unicode, path, j, e)
    decreases |path| - i
  {
    var last := LastSegment(path);
    if i == |path| {
      k := i;
      assert path[..i] == path;
    } else {
      var (error, st) := ScanChar(unicode, last, StateOf(path[..i]), path[i]);
      assert path[i..][0] == path[i] && path[i..][1..] == path[i + 1..];
      forall e ensures error == Some(e) <==> ErrorAt(unicode, path, i, e) { StepErrorIff(unicode, path, i, e); }
      if error.Some? {
        k := i;
      } else {
        StateSnoc(unicode, last, path[..i], path[i]);
        assert path[..i + 1] == path[..i] + [path[i]];
        k := ErrorFound(unicode, path, i + 1);
      }
    }
  }

  /** The reported error is what is wrong at the first position where anything is. */
  lemma ErrorIsFirst(unicode: char -> bool, path: string) returns (k: nat)
    requires Validate(unicode, path).Some?
    ensures ErrorAt(unicode, path, k, Validate(unicode, path).value)
    ensures forall j: nat, e | j < k :: !ErrorAt(unicode, path, j, e)
  {
    assert path[..0] == [] && path[0..] == path;
    assert StateOf([]) == START by { assert Image(Base, []) == {}; }
    k := ErrorFound(unicode, path, 0);
  }

  /** A slash and one more character. */
  lemma ShortTemplate(unicode: char -> bool, c: char) returns (ts: seq<Token>)
    requires c != '{' && c != '}'
    ensures ts == [Lit('/'), Lit(c)] && Template(unicode, ts) && Print(ts) == ['/', c]
    ensures Validate(unicode, ['/', c]) == None
  {
    ts := [Lit('/'), Lit(c)];
    PrintTwo(Lit('/'), Lit(c));
    ValidateAccepts(unicode, ts);
  }

  /** The documentation allows one plus sign, as the last character; the validator accepts more,
      because only the last one is taken off before the name is looked at. */
  lemma RepeatedPlusAccepted(unicode: char -> bool)
    ensures Validate(unicode, "/{a++}") == None
  {
    var slash, param := Lit('/'), Param("a++");
    assert Template(unicode, [slash, param]) by { assert Base("a++") == "a+"; }
    ValidateAccepts(unicode, [slash, param]);
    PrintTwo(slash, param);
    assert PrintToken(slash) + PrintToken(param) == "/{a++}";
  }

  /** An accepted name is a documented one exactly when its last character but one is no plus. */
  lemma DocumentedNameIff(unicode: char -> bool, name: string)
    requires TokenOk(unicode, Param(name))
    ensures '+' !in Base(name) <==> |name| < 2 || name[|name| - 2] != '+'
  {
    if '+' in Base(name) { assert IsWildcard(name); }
  }

  // ---------- Normalisation ----------

  function NormalizeFrom(s: string, inParam: bool, isWildcard: bool): string {
    if s == [] then []
    else if s[0] == '{' then ['{', '_'] + NormalizeFrom(s[1..], true, false)
    else if s[0] == '}' then (if isWildcard then ['+', '}'] else ['}']) + NormalizeFrom(s[1..], false, false)
    else if inParam then NormalizeFrom(s[1..], true, isWildcard || s[0] == '+')
    else [s[0]] + NormalizeFrom(s[1..], false, isWildcard)
  }

  function Normalize(path: string): string { NormalizeFrom(path, false, false) }

  method NormalizePathTemplate(path: string) returns (result: string)
    ensures result == Normalize(path)
  {
    result := [];
    var inParam, isWildcard := false, false;
    for i := 0 to |path|
      invariant Normalize(path) == result + NormalizeFrom(path[i..], inParam, isWildcard)
    {
      var c := path[i];
      ghost var rest := path[i + 1..];
      assert path[i..][0] == c && path[i..][1..] == rest;
      if c == '{' {
        Assoc(result, ['{', '_'], NormalizeFrom(rest, true, false));
        result := result + ['{', '_'];
        inParam, isWildcard := true, false;
      } else if c == '}' {
        Assoc(result, if isWildcard then ['+', '}'] else ['}'], NormalizeFrom(rest, false, false));
        result := result + if isWildcard then ['+', '}'] else ['}'];
        inParam, isWildcard := false, false;
      } else if inParam {
        isWildcard := isWildcard || c == '+';
      } else {
        Assoc(result, [c], NormalizeFrom(rest, false, isWildcard));
        result := result + [c];
      }
    }
  }

  /** What routing sees of a token: literals as they are, parameters without their names. */
  datatype Mark = Literal(c: char) | One | Rest

  function MarkOf(t: Token): Mark { if t.Lit? then Literal(t.c) else if IsWild(t) then Rest else One }

  function Skeleton(ts: seq<Token>): seq<Mark> { Map(MarkOf, ts) }

  function PrintMark(m: Mark): string {
    match m
    case Literal(c) => [c]
    case One => ['{', '_', '}']
    case Rest => ['{', '_', '+', '}']
  }

  lemma {:induction false} NormalizeName(name: string, s: string, isWildcard: bool)
    requires '{' !in name && '}' !in name
    ensures NormalizeFrom(name + s, true, isWildcard) == NormalizeFrom(s, true, isWildcard || '+' in name)
  {
    if name == [] {
      assert name + s == s;
    } else {
      assert (name + s)[0] == name[0] && (name + s)[1..] == name[1..] + s;
      NormalizeName(name[1..], s, isWildcard || name[0] == '+');
    }
  }

  lemma PlusIsSuffix(unicode: char -> bool, name: string)
    requires NameChars(unicode, name)
    ensures '+' in name <==> IsWildcard(name)
  {
  }

  lemma NormalizeClose(rest: string, isWildcard: bool)
    ensures ['{', '_'] + NormalizeFrom(['}'] + rest, true, isWildcard)
         == PrintMark(if isWildcard then Rest else One) + Normalize(rest)
  {
    var close := ['}'] + rest;
    assert close[0] == '}' && close[1..] == rest;
    var end := if isWildcard then ['+', '}'] else ['}'];
    Assoc(['{', '_'], end, Normalize(rest));
    assert ['{', '_'] + end == PrintMark(if isWildcard then Rest else One);
  }

  lemma NormalizeParam(unicode: char -> bool, name: string, rest: string)
    requires TokenOk(unicode, Param(name))
    ensures NormalizeFrom(['{'] + name + ['}'] + rest, false, false)
         == PrintMark(if IsWildcard(name) then Rest else One) + Normalize(rest)
  {
    var s, close := ['{'] + name + ['}'] + rest, ['}'] + rest;
    NameHasNoMarks(unicode, name);
    PlusIsSuffix(unicode, name);
    assert s[0] == '{' && s[1..] == name + close;
    NormalizeName(name, close, false);
    NormalizeClose(rest, IsWildcard(name));
  }

  lemma NormalizeToken(unicode: char -> bool, t: Token, rest: string)
    requires TokenOk(unicode, t)
    ensures NormalizeFrom(PrintToken(t) + rest, false, false) == PrintMark(MarkOf(t)) + Normalize(rest)
  {
    if t.Lit? {
      var s := PrintToken(t) + rest;
      assert s[0] == t.c && s[1..] == rest;
    } else {
      NormalizeParam(unicode, t.name, rest);
    }
  }

  /** Normalising a template prints its skeleton. */
  lemma {:induction false} NormalizePrint(unicode: char -> bool, ts: seq<Token>)
    requires AllTokensOk(unicode, ts)
    ensures Normalize(Print(ts)) == Flat(PrintMark, Skeleton(ts))
  {
    if ts != [] {
      NormalizePrint(unicode, ts[1..]);
      NormalizeToken(unicode, ts[0], Print(ts[1..]));
      assert Skeleton(ts)[1..] == Skeleton(ts[1..]);
    }
  }

  predicate NoBraces(ms: seq<Mark>) {
    forall i | 0 <= i < |ms| :: ms[i].Literal? ==> ms[i].c != '{' && ms[i].c != '}'
  }

  lemma FirstMark(a: Mark, s: string, b: Mark, t: string)
    requires NoBraces([a, b]) && PrintMark(a) + s == PrintMark(b) + t
    ensures a == b && s == t
  {
    var u, v := PrintMark(a) + s, PrintMark(b) + t;
    assert [a, b][0] == a && [a, b][1] == b;
    assert u[0] == PrintMark(a)[0] && v[0] == PrintMark(b)[0];
    if !a.Literal? && !b.Literal? {
      assert u[2] == PrintMark(a)[2] && v[2] == PrintMark(b)[2];
    }
    CutEqual(PrintMark(a), s, PrintMark(b), t);
  }

  lemma {:induction false} SkeletonReadsBack(a: seq<Mark>, b: seq<Mark>)
    requires NoBraces(a) && NoBraces(b) && Flat(PrintMark, a) == Flat(PrintMark, b)
    ensures a == b
  {
    if a != [] && b != [] {
      FirstMark(a[0], Flat(PrintMark, a[1..]), b[0], Flat(PrintMark, b[1..]));
      SkeletonReadsBack(a[1..], b[1..]);
      assert a == [a[0]] + a[1..] && b == [b[0]] + b[1..];
    }
  }

  /** Two templates normalise to the same text exactly when they have the same skeleton of literals,
      parameters and wildcard. */
  lemma NormalizeIff(unicode: char -> bool, a: seq<Token>, b: seq<Token>)
    requires Template(unicode, a) && Template(unicode, b)
    ensures Normalize(Print(a)) == Normalize(Print(b)) <==> Skeleton(a) == Skeleton(b)
  {
    NormalizePrint(unicode, a);
    NormalizePrint(unicode, b);
    SkeletonHasNoBraces(unicode, a);
    SkeletonHasNoBraces(unicode, b);
    if Flat(PrintMark, Skeleton(a)) == Flat(PrintMark, Skeleton(b)) {
      SkeletonReadsBack(Skeleton(a), Skeleton(b));
    }
  }

  lemma SkeletonHasNoBraces(unicode: char -> bool, ts: seq<Token>)
    requires AllTokensOk(unicode, ts)
    ensures NoBraces(Skeleton(ts))
  {
    forall i | 0 <= i < |ts| ensures Skeleton(ts)[i].Literal? ==> Skeleton(ts)[i].c != '{' && Skeleton(ts)[i].c != '}' {
      assert TokenOk(unicode, ts[i]) && Skeleton(ts)[i] == MarkOf(ts[i]);
    }
  }

}
