/**
 * `Mime.split_header` and its counterpart, the `content_type; key="val"; ...`
 * rewriting done inside `Mime#to_s`: a header value is a primary token followed by
 * `key=value` attributes, a simplified form of the parameter syntax of section 5.1
 * of RFC 2045.
 */
module HeaderParams {
  import opened Wrappers
  import opened Text
  import opened Assoc

  /** A Ruby Hash from attribute name to value. */
  type Attrs = Assoc<string>

  // ---------------------------------------------------------------------------
  // The attribute pattern `;\s*([^\s=]+)\s*=\s*("[^"]*"|[^\s;]*)\s*`, tried at one
  // position. The pattern never needs to backtrack, so it is a sequence of scans.

  predicate IsKeyChar(c: char) { !IsSpace(c) && c != '=' }

  predicate IsBareChar(c: char) { !IsSpace(c) && c != ';' }

  /** One match: the key, the value as written (quotes included) and where the match ends. */
  datatype AttrMatch = AttrMatch(key: string, raw: string, end: nat)

  /** The end of the value alternative: a closed `"..."`, else a bare run. */
  function ValueEnd(h: string, c: nat): (v: nat)
    requires c <= |h|
    ensures c <= v <= |h|
  {
    if c < |h| && h[c] == '"' && c + 1 + IndexOf(h[c + 1..], '"') < |h| then
      c + 2 + IndexOf(h[c + 1..], '"')
    else
      ScanWhile(h, c, IsBareChar)
  }

  /** The value alternative from `c`, then the trailing `\s*`. */
  function MatchValue(key: string, h: string, c: nat): (m: Option<AttrMatch>)
    requires c <= |h|
    ensures m.Some? && c <= m.value.end <= |h|
  {
    var v := ValueEnd(h, c);
    Some(AttrMatch(key, h[c..v], SkipSpaces(h, v)))
  }

  /** `([^\s=]+)\s*=\s*` from `a`, then the value. */
  function MatchKey(h: string, a: nat): (m: Option<AttrMatch>)
    requires a <= |h|
    ensures m.Some? ==> a < m.value.end <= |h|
  {
    var k := ScanWhile(h, a, IsKeyChar);
    var e := SkipSpaces(h, k);
    if k == a || e == |h| || h[e] != '=' then None
    else MatchValue(h[a..k], h, SkipSpaces(h, e + 1))
  }

  /** The whole pattern tried at position `p`. */
  function MatchAttrAt(h: string, p: nat): (m: Option<AttrMatch>)
    requires p <= |h|
    ensures m.Some? ==> p < m.value.end <= |h|
  {
    if p == |h| || h[p] != ';' then None else MatchKey(h, SkipSpaces(h, p + 1))
  }

  /** `header.scan(pattern)` from position `p`: every non-overlapping match, left to right. */
  function ScanAttrs(h: string, p: nat): seq<AttrMatch>
    requires p <= |h|
    decreases |h| - p
  {
    if p == |h| then []
    else
      var m := MatchAttrAt(h, p);
      if m.Some? then [m.value] + ScanAttrs(h, m.value.end) else ScanAttrs(h, p + 1)
  }

  /** `value[/^"/] ? value[1..-2] : value`. */
  function Unquote(raw: string): string {
    if |raw| > 0 && raw[0] == '"' then (if |raw| >= 2 then raw[1..|raw| - 1] else []) else raw
  }

  /** One step of the loop: a key seen before is ignored (with a warning). */
  function AddFirst(a: Attrs, m: AttrMatch): Attrs {
    if Lookup(a, m.key).Some? then a else a + [(m.key, Unquote(m.raw))]
  }

  function Fold(acc: Attrs, ms: seq<AttrMatch>): Attrs
    decreases |ms|
  {
    if ms == [] then acc else Fold(AddFirst(acc, ms[0]), ms[1..])
  }

  function Attributes(h: string): Attrs {
    Fold([], ScanAttrs(h, 0))
  }

  /** The unquoted value of the first match with this key. */
  function FirstValue(ms: seq<AttrMatch>, key: string): Option<string> {
    if ms == [] then None
    else if ms[0].key == key then Some(Unquote(ms[0].raw))
    else FirstValue(ms[1..], key)
  }

  lemma {:induction false} FoldLookup(acc: Attrs, ms: seq<AttrMatch>, key: string)
    ensures Lookup(Fold(acc, ms), key) == if Lookup(acc, key).Some? then Lookup(acc, key) else FirstValue(ms, key)
    decreases |ms|
  {
    if ms != [] {
      var acc' := AddFirst(acc, ms[0]);
      FoldLookup(acc', ms[1..], key);
      if Lookup(acc, ms[0].key).None? {
        LookupAppend(acc, ms[0].key, Unquote(ms[0].raw), key);
      }
    }
  }

  lemma {:induction false} FoldUnique(acc: Attrs, ms: seq<AttrMatch>)
    requires UniqueKeys(acc)
    ensures UniqueKeys(Fold(acc, ms))
    decreases |ms|
  {
    if ms != [] {
      var acc' := AddFirst(acc, ms[0]);
      if Lookup(acc, ms[0].key).None? {
        LookupFound(acc, ms[0].key);
        assert ms[0].key !in Keys(acc);
        forall i | 0 <= i < |acc|
          ensures acc[i].0 != ms[0].key
        {
          assert acc[i].0 == Keys(acc)[i];
        }
      }
      FoldUnique(acc', ms[1..]);
    }
  }

  /**
   * Each attribute name appears once, and its value is the first one written for
   * it, with surrounding double quotes removed; later duplicates are ignored.
   */
  lemma AttributesFirstWins(h: string, key: string)
    ensures UniqueKeys(Attributes(h))
    ensures Lookup(Attributes(h), key) == FirstValue(ScanAttrs(h, 0), key)
  {
    FoldUnique([], ScanAttrs(h, 0));
    FoldLookup([], ScanAttrs(h, 0), key);
  }

  /** The loop of `split_header` that fills the attribute hash. */
  method ScanAttributes(h: string) returns (attrs: Attrs)
    ensures attrs == Attributes(h)
  {
    attrs := [];
    var p := 0;
    while p < |h|
      invariant p <= |h|
      invariant Fold(attrs, ScanAttrs(h, p)) == Attributes(h)
      decreases |h| - p
    {
      match MatchAttrAt(h, p)
      case Some(m) =>
        if Lookup(attrs, m.key).None? {
          attrs := attrs + [(m.key, Unquote(m.raw))];
        }
        p := m.end;
      case None =>
        p := p + 1;
    }
  }

  // ---------------------------------------------------------------------------
  // The primary token `header[/^[^;]+/].strip`.

  /** The first line start at or after `q` that begins a run of non-`;` characters. */
  function PrimaryStart(h: string, q: nat): (r: Option<nat>)
    requires q <= |h|
    ensures r.Some? ==> q <= r.value < |h| && AtLineStart(h, r.value) && h[r.value] != ';'
    ensures r.None? ==> forall i :: q <= i < |h| && AtLineStart(h, i) ==> h[i] == ';'
    decreases |h| - q
  {
    if q == |h| then None
    else if AtLineStart(h, q) && h[q] != ';' then Some(q)
    else PrimaryStart(h, q + 1)
  }

  /** `None` where Ruby calls `strip` on nil and raises. */
  function Primary(h: string): Option<string> {
    match PrimaryStart(h, 0)
    case None => None
    case Some(q) => Some(Strip(h[q..q + IndexOf(h[q..], ';')]))
  }

  /** `Mime.split_header`; `None` stands for the NoMethodError raised when no primary token matches. */
  function SplitHeader(h: string): Option<(string, Attrs)> {
    match Primary(h)
    case None => None
    case Some(p) => Some((p, Attributes(h)))
  }

  /** The primary token is the text before the first `;`, stripped. */
  lemma PrimaryBeforeSemicolon(h: string)
    requires |h| > 0 && h[0] != ';'
    ensures SplitHeader(h) == Some((Strip(h[..IndexOf(h, ';')]), Attributes(h)))
  {
    assert h[0..] == h;
  }

  /** On a one-line value, split_header fails exactly when the value is empty or starts with `;`. */
  lemma SplitHeaderFails(h: string)
    requires '\n' !in h
    ensures SplitHeader(h).None? <==> (h == [] || h[0] == ';')
  {
    if h != [] && h[0] != ';' {
      PrimaryBeforeSemicolon(h);
    } else if h != [] {
      assert forall i :: 0 < i < |h| ==> !AtLineStart(h, i) by {
        forall i | 0 < i < |h| ensures !AtLineStart(h, i) {
          assert h[i - 1] in h;
        }
      }
    }
  }

  // ---------------------------------------------------------------------------
  // The serialiser's side: `([content_type] + attrs.map { |k, v| %{#{k}="#{v}"} }).join('; ')`.

  /** One written attribute, `; key="value"`. */
  function Segment(key: string, value: string): string {
    "; " + key + "=\"" + value + "\""
  }

  function AttrText(a: Attrs): string {
    if a == [] then [] else Segment(a[0].0, a[0].1) + AttrText(a[1..])
  }

  function JoinHeader(primary: string, a: Attrs): string {
    primary + AttrText(a)
  }

  /** A name the key pattern `[^\s=]+` reads whole. */
  predicate IsKey(key: string) {
    key != [] && forall j :: 0 <= j < |key| ==> IsKeyChar(key[j])
  }

  /** Attributes that can be written quoted and read back: keys are single tokens, values hold no `"`. */
  predicate Writable(a: Attrs) {
    forall i :: 0 <= i < |a| ==> IsKey(a[i].0) && '"' !in a[i].1
  }

  /** The values `JoinHeader` can write so that `SplitHeader` reads them back. */
  predicate Joinable(primary: string, a: Attrs) {
    && primary != [] && ';' !in primary && Strip(primary) == primary
    && UniqueKeys(a)
    && Writable(a)
  }

  function Quoted(a: Attrs): seq<(string, string)>
    ensures |Quoted(a)| == |a|
  {
    if a == [] then [] else [(a[0].0, "\"" + a[0].1 + "\"")] + Quoted(a[1..])
  }

  function Written(ms: seq<AttrMatch>): (w: seq<(string, string)>)
    ensures |w| == |ms|
  {
    if ms == [] then [] else [(ms[0].key, ms[0].raw)] + Written(ms[1..])
  }

  lemma NoMatchWithoutSemicolon(h: string, p: nat)
    requires p <= |h|
    requires p == |h| || h[p] != ';'
    ensures MatchAttrAt(h, p).None?
  {
  }

  lemma {:induction false} ScanSkipsPrimary(h: string, q: nat, n: nat)
    requires q <= n <= |h|
    requires forall i :: q <= i < n ==> h[i] != ';'
    ensures ScanAttrs(h, q) == ScanAttrs(h, n)
    decreases n - q
  {
    if q < n {
      NoMatchWithoutSemicolon(h, q);
      assert ScanAttrs(h, q) == ScanAttrs(h, q + 1);
      ScanSkipsPrimary(h, q + 1, n);
    }
  }

  lemma ScanWhileStops(h: string, i: nat, j: nat, p: char -> bool)
    requires i <= j <= |h|
    requires forall k :: i <= k < j ==> p(h[k])
    requires j == |h| || !p(h[j])
    ensures ScanWhile(h, i, p) == j
  {
  }

  /** A closed quoted value is taken up to its closing quote. */
  lemma QuotedValueEnd(h: string, c: nat, value: string)
    requires '"' !in value
    requires c + |value| + 2 <= |h| && h[c..c + |value| + 2] == "\"" + value + "\""
    ensures ValueEnd(h, c) == c + |value| + 2
  {
    var q := "\"" + value + "\"";
    var t := h[c + 1..];
    assert h[c] == q[0] == '"';
    forall j | 0 <= j < |value| ensures t[j] != '"' {
      assert t[j] == q[1 + j] == value[j];
    }
    assert t[|value|] == q[1 + |value|] == '"';
    assert IndexOf(t, '"') == |value|;
  }

  /** A key run, `=`, then a value that ends at `e` with no space after it: one match. */
  /** The key pattern matched at `a`, its `=` at `k`, the value from `k + 1` to `v`. */
  lemma MatchKeyAt(h: string, a: nat, k: nat, v: nat)
    requires a < k && k + 1 < v <= |h|
    requires ScanWhile(h, a, IsKeyChar) == k && h[k] == '=' && !IsSpace(h[k + 1])
    requires ValueEnd(h, k + 1) == v && (v == |h| || !IsSpace(h[v]))
    ensures MatchKey(h, a) == Some(AttrMatch(h[a..k], h[k + 1..v], v))
  {
    NoSpaceAt(h, k);
    NoSpaceAt(h, k + 1);
    NoSpaceAt(h, v);
    var e := SkipSpaces(h, ScanWhile(h, a, IsKeyChar));
    assert e == k && e != |h| && h[e] == '=';
    assert MatchKey(h, a) == MatchValue(h[a..k], h, k + 1);
  }

  /** The text `key="value"` at `a` split into its pieces. */
  lemma KeyValuePieces(h: string, a: nat, key: string, value: string)
    requires a + |key| + |value| + 3 <= |h|
    requires h[a..a + |key| + |value| + 3] == key + "=\"" + value + "\""
    ensures h[a..a + |key|] == key
    ensures h[a + |key|] == '=' && h[a + |key| + 1] == '"'
    ensures h[a + |key| + 1..a + |key| + |value| + 3] == "\"" + value + "\""
  {
    var w := key + "=\"" + value + "\"";
    var k := a + |key|;
    assert h[a..k] == w[..|key|];
    assert h[k] == w[|key|];
    assert h[k + 1] == w[|key| + 1];
    assert h[k + 1..k + |value| + 3] == w[|key| + 1..];
  }

  /** The key run stops at the `=` that follows it. */
  lemma KeyRun(h: string, a: nat, key: string)
    requires forall j :: 0 <= j < |key| ==> IsKeyChar(key[j])
    requires a + |key| < |h| && h[a..a + |key|] == key && h[a + |key|] == '='
    ensures ScanWhile(h, a, IsKeyChar) == a + |key|
  {
    var k := a + |key|;
    forall i | a <= i < k ensures IsKeyChar(h[i]) {
      assert h[i] == h[a..k][i - a];
    }
    ScanWhileStops(h, a, k, IsKeyChar);
  }

  /** `key="value"` at `a`, followed by `;` or the end, is one match ending after the closing quote. */
  lemma MatchQuotedKey(h: string, a: nat, key: string, value: string)
    requires IsKey(key) && '"' !in value
    requires a + |key| + |value| + 3 <= |h|
    requires h[a..a + |key|] == key && h[a + |key|] == '=' && h[a + |key| + 1] == '"'
    requires h[a + |key| + 1..a + |key| + |value| + 3] == "\"" + value + "\""
    requires a + |key| + |value| + 3 == |h| || h[a + |key| + |value| + 3] == ';'
    ensures MatchKey(h, a) == Some(AttrMatch(key, "\"" + value + "\"", a + |key| + |value| + 3))
  {
    var k := a + |key|;
    var v := k + |value| + 3;
    KeyRun(h, a, key);
    QuotedValueEnd(h, k + 1, value);
    MatchKeyAt(h, a, k, v);
  }

  /** Skipping spaces stops at once before a character that is not one. */
  lemma NoSpaceAt(s: string, i: nat)
    requires i <= |s| && (i == |s| || !IsSpace(s[i]))
    ensures SkipSpaces(s, i) == i
  {
  }

  /** The text `x; key="value"y` split into its pieces. */
  lemma SegmentPieces(x: string, key: string, value: string, y: string)
    requires y == [] || y[0] == ';'
    ensures var h := x + Segment(key, value) + y;
      var e := |x| + |key| + |value| + 5;
      && e <= |h| && h[|x|] == ';' && IsSpace(h[|x| + 1])
      && h[|x| + 2..e] == key + "=\"" + value + "\""
      && (e == |h| || h[e] == ';')
  {
    var w := key + "=\"" + value + "\"";
    var seg := Segment(key, value);
    assert seg == "; " + w;
    var h := x + seg + y;
    assert h[|x|] == seg[0];
    assert h[|x| + 1] == seg[1];
    assert h[|x| + 2..|x| + |seg|] == seg[2..] == w;
    if y != [] {
      assert h[|x| + |seg|] == y[0];
    }
  }

  /** One `; key="value"` segment at `p` is read as one match ending where the segment ends. */
  lemma MatchSegment(h: string, p: nat, key: string, value: string)
    requires IsKey(key) && '"' !in value
    requires p + |key| + |value| + 5 <= |h| && h[p] == ';' && IsSpace(h[p + 1])
    requires h[p + 2..p + |key| + |value| + 5] == key + "=\"" + value + "\""
    requires p + |key| + |value| + 5 == |h| || h[p + |key| + |value| + 5] == ';'
    ensures var m := MatchAttrAt(h, p);
      m.Some? && m.value.key == key && m.value.raw == "\"" + value + "\"" && m.value.end == p + |key| + |value| + 5
  {
    KeyValuePieces(h, p + 2, key, value);
    assert !IsSpace(h[p + 2]) by { assert h[p + 2..p + 2 + |key|][0] == key[0]; }
    assert SkipSpaces(h, p + 2) == p + 2;
    assert SkipSpaces(h, p + 1) == p + 2;
    MatchQuotedKey(h, p + 2, key, value);
  }

  /** The first written attribute is one match, ending where its segment ends. */
  lemma SegmentMatch(x: string, a: Attrs)
    requires a != [] && Writable(a)
    ensures var m := MatchAttrAt(x + AttrText(a), |x|);
      && m.Some? && m.value.key == a[0].0 && m.value.raw == "\"" + a[0].1 + "\""
      && m.value.end == |x| + |Segment(a[0].0, a[0].1)|
  {
    var seg := Segment(a[0].0, a[0].1);
    var y := AttrText(a[1..]);
    var h := x + AttrText(a);
    assert h == x + seg + y;
    assert y == [] || y[0] == ';';
    assert |seg| == |a[0].0| + |a[0].1| + 5;
    SegmentPieces(x, a[0].0, a[0].1, y);
    MatchSegment(h, |x|, a[0].0, a[0].1);
  }

  /** Scanning from the start of the first written attribute reads it, then goes on after it. */
  lemma ScanStep(x: string, a: Attrs)
    requires a != [] && Writable(a)
    ensures var seg := Segment(a[0].0, a[0].1);
      Written(ScanAttrs(x + AttrText(a), |x|))
      == [(a[0].0, "\"" + a[0].1 + "\"")] + Written(ScanAttrs((x + seg) + AttrText(a[1..]), |x + seg|))
  {
    var seg := Segment(a[0].0, a[0].1);
    var h := x + AttrText(a);
    assert h == (x + seg) + AttrText(a[1..]);
    SegmentMatch(x, a);
    var m := MatchAttrAt(h, |x|).value;
    assert m.end == |x + seg| && |x| < |h|;
    var rest := ScanAttrs(h, m.end);
    assert rest == ScanAttrs((x + seg) + AttrText(a[1..]), |x + seg|);
    assert ScanAttrs(h, |x|) == [m] + rest;
    assert ([m] + rest)[1..] == rest;
    assert Written(ScanAttrs(h, |x|)) == [(m.key, m.raw)] + Written(rest);
    assert (m.key, m.raw) == (a[0].0, "\"" + a[0].1 + "\"");
  }

  lemma {:induction false} ScanJoined(x: string, a: Attrs)
    requires Writable(a)
    ensures Written(ScanAttrs(x + AttrText(a), |x|)) == Quoted(a)
    decreases |a|
  {
    if a != [] {
      ScanStep(x, a);
      assert Writable(a[1..]) by {
        forall i | 0 <= i < |a| - 1 ensures IsKey(a[1..][i].0) && '"' !in a[1..][i].1 {
          assert a[1..][i] == a[i + 1];
        }
      }
      ScanJoined(x + Segment(a[0].0, a[0].1), a[1..]);
    } else {
      assert x + AttrText(a) == x;
    }
  }

  lemma {:induction false} FoldQuoted(acc: Attrs, ms: seq<AttrMatch>, a: Attrs)
    requires Written(ms) == Quoted(a)
    requires UniqueKeys(acc + a)
    ensures Fold(acc, ms) == acc + a
    decreases |ms|
  {
    if ms == [] {
      assert a == [];
      assert acc + a == acc;
    } else {
      QuotedHead(ms, a);
      AddFirstNew(acc, ms[0], a);
      assert acc + [a[0]] + a[1..] == acc + a;
      FoldQuoted(acc + [a[0]], ms[1..], a[1..]);
    }
  }

  /** The first match of a written list is its first attribute, quoted. */
  lemma QuotedHead(ms: seq<AttrMatch>, a: Attrs)
    requires ms != [] && Written(ms) == Quoted(a)
    ensures a != [] && ms[0].key == a[0].0 && Unquote(ms[0].raw) == a[0].1 && Written(ms[1..]) == Quoted(a[1..])
  {
    assert Written(ms)[0] == Quoted(a)[0];
    assert Written(ms)[1..] == Written(ms[1..]) && Quoted(a)[1..] == Quoted(a[1..]);
  }

  /** A match whose key is new to `acc` is appended to it. */
  lemma AddFirstNew(acc: Attrs, m: AttrMatch, a: Attrs)
    requires a != [] && UniqueKeys(acc + a) && m.key == a[0].0 && Unquote(m.raw) == a[0].1
    ensures AddFirst(acc, m) == acc + [a[0]]
  {
    LookupFound(acc, a[0].0);
    assert a[0].0 !in Keys(acc) by {
      forall i | 0 <= i < |acc| ensures Keys(acc)[i] != a[0].0 {
        assert (acc + a)[i] == acc[i] && (acc + a)[|acc|] == a[0];
      }
    }
  }

  lemma JoinedIndex(primary: string, a: Attrs)
    requires ';' !in primary
    ensures IndexOf(JoinHeader(primary, a), ';') == |primary|
  {
    var h := JoinHeader(primary, a);
    forall j | 0 <= j < |primary| ensures h[j] != ';' {
      assert h[j] == primary[j] && primary[j] in primary;
    }
    if a != [] {
      assert h == primary + Segment(a[0].0, a[0].1) + AttrText(a[1..]);
      assert h[|primary|] == ';';
    } else {
      assert h == primary;
    }
  }

  /** The primary token read back from a joined header is the one written. */
  lemma JoinedPrimary(primary: string, a: Attrs)
    requires primary != [] && ';' !in primary && Strip(primary) == primary
    ensures Primary(JoinHeader(primary, a)) == Some(primary)
  {
    var h := JoinHeader(primary, a);
    JoinedIndex(primary, a);
    assert h[0] == primary[0] && primary[0] in primary;
    PrimaryBeforeSemicolon(h);
    assert h[..|primary|] == primary;
  }

  /** The attributes read back from a joined header are the ones written. */
  lemma JoinedAttributes(primary: string, a: Attrs)
    requires ';' !in primary && UniqueKeys(a) && Writable(a)
    ensures Attributes(JoinHeader(primary, a)) == a
  {
    var h := JoinHeader(primary, a);
    forall j | 0 <= j < |primary| ensures h[j] != ';' {
      assert h[j] == primary[j] && primary[j] in primary;
    }
    ScanSkipsPrimary(h, 0, |primary|);
    ScanJoined(primary, a);
    assert [] + a == a;
    FoldQuoted([], ScanAttrs(h, 0), a);
  }

  /** Writing a primary token and attributes, then splitting the result, gives them back. */
  lemma SplitJoinRoundTrip(primary: string, a: Attrs)
    requires Joinable(primary, a)
    ensures SplitHeader(JoinHeader(primary, a)) == Some((primary, a))
  {
    JoinedPrimary(primary, a);
    JoinedAttributes(primary, a);
  }

  /**
   * What `split_header` gives back can be written by the serialiser: the primary
   * token holds no `;` and is already stripped, and each key appears once.
   */
  lemma SplitHeaderShape(h: string)
    requires SplitHeader(h).Some?
    ensures ';' !in SplitHeader(h).value.0
    ensures Strip(SplitHeader(h).value.0) == SplitHeader(h).value.0
    ensures UniqueKeys(SplitHeader(h).value.1)
  {
    var q := PrimaryStart(h, 0).value;
    var x := h[q..q + IndexOf(h[q..], ';')];
    assert x == h[q..][..IndexOf(h[q..], ';')];
    assert ';' !in x;
    assert SplitHeader(h).value.0 == Strip(x);
    StripWithin(x);
    StripIdempotent(x);
    AttributesFirstWins(h, "");
  }

  /** Setting an attribute to a value without `"` under a single-token key keeps the attributes writable. */
  lemma {:induction false} PutWritable(a: Attrs, key: string, value: string)
    requires Writable(a) && IsKey(key) && '"' !in value
    ensures Writable(Put(a, key, value))
    decreases |a|
  {
    if a != [] && a[0].0 != key {
      assert Writable(a[1..]) by {
        forall i | 0 <= i < |a| - 1 ensures IsKey(a[1..][i].0) && '"' !in a[1..][i].1 {
          assert a[1..][i] == a[i + 1];
        }
      }
      PutWritable(a[1..], key, value);
      var r := Put(a, key, value);
      assert r == [a[0]] + Put(a[1..], key, value);
      forall i | 0 < i < |r| ensures IsKey(r[i].0) && '"' !in r[i].1 {
        assert r[i] == Put(a[1..], key, value)[i - 1];
      }
    } else if a != [] {
      var r := Put(a, key, value);
      forall i | 0 < i < |r| ensures IsKey(r[i].0) && '"' !in r[i].1 {
        assert r[i] == a[i];
      }
    }
  }

  /** The two attribute names the serialiser sets are single tokens. */
  lemma SerialiserKeys()
    ensures IsKey("boundary") && IsKey("charset")
  {
    var b, c := "boundary", "charset";
    forall j | 0 <= j < |b| ensures IsKeyChar(b[j]) {
      assert b[j] in "boundary";
    }
    forall j | 0 <= j < |c| ensures IsKeyChar(c[j]) {
      assert c[j] in "charset";
    }
  }
}
