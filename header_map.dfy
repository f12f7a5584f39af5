/**
 * The header block of a message: `@headers`, a Ruby Hash from header name to the
 * list of that header's values, filled by the `scan … each` loop of `Mime#initialize`
 * and written out again, one `Name: value\r\n` line per value, by `Mime#to_s`.
 */
module HeaderMap {
  import opened Wrappers
  import opened Text
  import opened Assoc

  /** Header name to its values, in the order the names were first seen. */
  type Headers = Assoc<seq<string>>

  /** `@headers[name]` read through the default block: a missing name has no values. */
  function Get(h: Headers, name: string): seq<string> {
    Lookup(h, name).GetOr([])
  }

  /** `@headers[name] << value`: the default block creates the list, `<<` extends it. */
  function Append(h: Headers, name: string, value: string): Headers {
    Put(h, name, Get(h, name) + [value])
  }

  /** `@headers[name]` on a missing name stores an empty list under it. */
  function Touch(h: Headers, name: string): Headers {
    Put(h, name, Get(h, name))
  }

  lemma AppendSpec(h: Headers, name: string, value: string)
    ensures Get(Append(h, name, value), name) == Get(h, name) + [value]
    ensures forall n :: n != name ==> Get(Append(h, name, value), n) == Get(h, n)
    ensures Keys(Append(h, name, value)) == if name in Keys(h) then Keys(h) else Keys(h) + [name]
    ensures UniqueKeys(h) ==> UniqueKeys(Append(h, name, value))
  {
    PutSpec(h, name, Get(h, name) + [value]);
  }

  /** Reading a header through the default block adds its name, and changes no value. */
  lemma TouchSpec(h: Headers, name: string)
    ensures forall n :: Get(Touch(h, name), n) == Get(h, n)
    ensures name in Keys(Touch(h, name))
    ensures Keys(Touch(h, name)) == if name in Keys(h) then Keys(h) else Keys(h) + [name]
    ensures UniqueKeys(h) ==> UniqueKeys(Touch(h, name))
  {
    PutSpec(h, name, Get(h, name));
  }

  // ---------------------------------------------------------------------------
  // The header pattern `^\S+:\s*.*(?:\n\t.*)*` of the scan, then `(\S+):` for the
  // name and `\S+:\s*(.*)` for the value. None of them needs to backtrack except
  // over the name, where `\S+` gives back characters until a `:` follows it.

  predicate IsSolid(c: char) { !IsSpace(c) }

  /** The last `:` in `b[q + 1..i]`: where `\S+:` stops after backtracking over the run. */
  function ColonBack(b: string, q: nat, i: nat): (r: Option<nat>)
    requires q <= i <= |b|
    ensures r.Some? ==> q < r.value < i && b[r.value] == ':' && forall j :: r.value < j < i ==> b[j] != ':'
    ensures r.None? ==> forall j :: q < j < i ==> b[j] != ':'
    decreases i
  {
    if i <= q + 1 then None
    else if b[i - 1] == ':' then Some(i - 1)
    else ColonBack(b, q, i - 1)
  }

  /** `(?:\n\t.*)*`: folded continuation lines, each a line feed and a tab. */
  function Continuations(b: string, m: nat): (e: nat)
    requires m <= |b|
    ensures m <= e <= |b|
    ensures e == m || b[e - 1] != '\n'
    ensures !(e + 1 < |b| && b[e] == '\n' && b[e + 1] == '\t')
    ensures (m == |b| || b[m] == '\n') ==> (e == |b| || b[e] == '\n')
    decreases |b| - m
  {
    if m + 1 < |b| && b[m] == '\n' && b[m + 1] == '\t' then Continuations(b, LineEnd(b, m + 2)) else m
  }

  /** A line feed at `n`. */
  predicate FeedAt(b: string, n: int) {
    0 <= n < |b| && b[n] == '\n'
  }

  /** Every line feed the continuation lines take in is followed by a tab. */
  lemma {:induction false} ContinuationsSpec(b: string, m: nat)
    requires m <= |b|
    ensures var e := Continuations(b, m);
      forall n :: m <= n < e && FeedAt(b, n) ==> n + 1 < e && b[n + 1] == '\t'
    decreases |b| - m
  {
    if m + 1 < |b| && b[m] == '\n' && b[m + 1] == '\t' {
      var m' := LineEnd(b, m + 2);
      ContinuationsSpec(b, m');
    }
  }

  /** One header at `q`: its name, its folded value and where the match ends. */
  function HeaderAt(b: string, q: nat): (r: Option<(string, string, nat)>)
    requires q <= |b|
    ensures r.Some? ==> q < r.value.2 <= |b|
    ensures r.Some? ==> IsNormalized(r.value.1)
  {
    if !AtLineStart(b, q) then None
    else
      var k := ColonBack(b, q, ScanWhile(b, q, IsSolid));
      if k.None? then None
      else
        var j := SkipSpaces(b, k.value + 1);
        var m := Continuations(b, LineEnd(b, j));
        NormalizeIsNormalized(b[j..m]);
        Some((b[q..k.value], Normalize(b[j..m]), m))
  }

  /** `name` is the run of non-space characters from `q` up to its last `:`, which follows it. */
  predicate HeaderName(b: string, q: nat, name: string)
    requires q <= |b|
  {
    var run := ScanWhile(b, q, IsSolid);
    var k := q + |name|;
    && q < k < run && b[k] == ':' && name == b[q..k]
    && (forall j :: k < j < run ==> b[j] != ':')
    && (forall j :: 0 <= j < |name| ==> IsSolid(name[j]))
  }

  /**
   * The match ends at `e`, after `k`, at a line end that no continuation line
   * follows; every line feed after the first non-space character of the value is
   * followed by a tab.
   */
  predicate ValueEnd(b: string, k: nat, e: nat) {
    && k < e <= |b|
    && (e == |b| || b[e] == '\n')
    && !(e + 1 < |b| && b[e] == '\n' && b[e + 1] == '\t')
    && forall n :: SkipSpaces(b, k + 1) <= n < e && FeedAt(b, n) ==> n + 1 < e && b[n + 1] == '\t'
  }

  /** `value` is folded and has the non-space characters of `b[k + 1..e]`. */
  predicate ValueText(b: string, k: nat, value: string, e: nat) {
    k < e <= |b| && Solid(value) == Solid(b[k + 1..e]) && IsNormalized(value)
  }

  lemma HeaderAtMatch(b: string, q: nat)
    requires q <= |b|
    ensures HeaderAt(b, q).Some? <==> AtLineStart(b, q) && exists k :: q < k < ScanWhile(b, q, IsSolid) && b[k] == ':'
  {
    var run := ScanWhile(b, q, IsSolid);
    var c := ColonBack(b, q, run);
    if c.Some? {
      assert q < c.value < run && b[c.value] == ':';
    }
  }

  lemma HeaderAtName(b: string, q: nat)
    requires q <= |b|
    ensures HeaderAt(b, q).Some? ==> HeaderName(b, q, HeaderAt(b, q).value.0)
  {
    var r := HeaderAt(b, q);
    if r.Some? {
      var c := ColonBack(b, q, ScanWhile(b, q, IsSolid));
      var name := r.value.0;
      assert name == b[q..c.value];
      forall j | 0 <= j < |name| ensures IsSolid(name[j]) {
        assert name[j] == b[q + j];
      }
    }
  }

  /**
   * The value read after the `:` at `k`: it has the non-space characters of the
   * text up to the end of the match and is folded; the match ends at a line end
   * that no continuation line follows, and each line feed it takes in is followed
   * by a tab.
   */
  lemma ValueAt(b: string, k: nat, value: string, e: nat)
    requires k < |b| && e == Continuations(b, LineEnd(b, SkipSpaces(b, k + 1)))
    requires value == Normalize(b[SkipSpaces(b, k + 1)..e])
    ensures ValueEnd(b, k, e) && ValueText(b, k, value, e)
  {
    var j := SkipSpaces(b, k + 1);
    ValueEndAt(b, k, j, e);
    ValueTextAt(b, k, j, value, e);
  }

  lemma ValueEndAt(b: string, k: nat, j: nat, e: nat)
    requires k < |b| && j == SkipSpaces(b, k + 1) && e == Continuations(b, LineEnd(b, j))
    ensures ValueEnd(b, k, e)
  {
    var m := LineEnd(b, j);
    ContinuationsSpec(b, m);
    forall n | j <= n < e && FeedAt(b, n) ensures n + 1 < e && b[n + 1] == '\t' {
      assert m <= n;
    }
  }

  lemma ValueTextAt(b: string, k: nat, j: nat, value: string, e: nat)
    requires k < |b| && j == SkipSpaces(b, k + 1) && e == Continuations(b, LineEnd(b, j))
    requires value == Normalize(b[j..e])
    ensures ValueText(b, k, value, e)
  {
    assert k < j <= e <= |b| by {
      assert j <= LineEnd(b, j) <= e;
    }
    ValueSolid(b, k + 1, j, e);
    NormalizeIsNormalized(b[j..e]);
  }

  /**
   * What one header match means: the name is the run of non-space characters at a
   * line start up to its last `:`; the match ends at a line end that no continuation
   * line follows, having taken in every `\n\t` continuation; the value is folded and
   * holds exactly the non-space characters of the text after the `:`.
   * (`HeaderAtMatch` says when there is a match.)
   */
  lemma HeaderAtSpec(b: string, q: nat, name: string, value: string, e: nat)
    requires q <= |b| && HeaderAt(b, q) == Some((name, value, e))
    ensures HeaderName(b, q, name)
    ensures ValueEnd(b, q + |name|, e)
    ensures ValueText(b, q + |name|, value, e)
  {
    HeaderAtName(b, q);
    HeaderAtEnd(b, q, name, value, e);
    HeaderAtText(b, q, name, value, e);
  }

  /** Where a match ends. */
  lemma HeaderAtEnd(b: string, q: nat, name: string, value: string, e: nat)
    requires q <= |b| && HeaderAt(b, q) == Some((name, value, e))
    ensures ValueEnd(b, q + |name|, e)
  {
    var k := ColonBack(b, q, ScanWhile(b, q, IsSolid)).value;
    HeaderAtValue(b, q, k);
  }

  /** The value of a match. */
  lemma HeaderAtText(b: string, q: nat, name: string, value: string, e: nat)
    requires q <= |b| && HeaderAt(b, q) == Some((name, value, e))
    ensures ValueText(b, q + |name|, value, e)
  {
    var k := ColonBack(b, q, ScanWhile(b, q, IsSolid)).value;
    HeaderAtValue(b, q, k);
  }

  /** The end and the value of a match whose colon is at `k`, in terms of the match itself. */
  lemma HeaderAtValue(b: string, q: nat, k: nat)
    requires q <= |b| && AtLineStart(b, q) && ColonBack(b, q, ScanWhile(b, q, IsSolid)) == Some(k)
    ensures HeaderAt(b, q).Some? && |HeaderAt(b, q).value.0| == k - q
    ensures ValueEnd(b, k, HeaderAt(b, q).value.2)
    ensures ValueText(b, k, HeaderAt(b, q).value.1, HeaderAt(b, q).value.2)
  {
    var j := SkipSpaces(b, k + 1);
    var e := Continuations(b, LineEnd(b, j));
    HeaderAtAt(b, q, k);
    ValueEndAt(b, k, j, e);
    ValueTextAt(b, k, j, Normalize(b[j..e]), e);
  }

  /** White space before the value is left out of it and drops nothing solid. */
  lemma ValueSolid(b: string, i: nat, j: nat, e: nat)
    requires i <= j <= e <= |b| && forall n :: i <= n < j ==> IsSpace(b[n])
    ensures Solid(Normalize(b[j..e])) == Solid(b[i..e])
  {
    assert b[i..e] == b[i..j] + b[j..e];
    SolidAppend(b[i..j], b[j..e]);
    SolidBlank(b[i..j]);
    NormalizeKeepsSolid(b[j..e]);
  }

  /** Only white space: nothing solid. */
  lemma {:induction false} SolidBlank(s: string)
    requires forall i :: 0 <= i < |s| ==> IsSpace(s[i])
    ensures Solid(s) == []
    decreases |s|
  {
    if s != [] {
      SolidBlank(s[1..]);
    }
  }

  /** No white space at all. */
  predicate AllSolid(s: string) {
    forall i :: 0 <= i < |s| ==> IsSolid(s[i])
  }

  /**
   * A header folded over two lines is read as its name and the two lines joined
   * by a single space: the line break and the tab of the continuation line fold
   * into that space.
   */
  lemma FoldedHeader(name: string, first: string, second: string)
    requires name != [] && AllSolid(name) && first != [] && AllSolid(first) && second != [] && AllSolid(second)
    ensures var b := name + ": " + first + "\r\n\t" + second;
      HeaderAt(b, 0) == Some((name, first + " " + second, |b|))
  {
    var b := name + ": " + first + "\r\n\t" + second;
    FoldedScan(name, first, second);
    HeaderAtAt(b, 0, |name|);
    FoldedSlices(name, first, second);
    FoldedValue(first, second);
  }

  /** The match at the start of a line whose last `:` in the run of non-space characters is at `k`. */
  lemma HeaderAtAt(b: string, q: nat, k: nat)
    requires q <= |b| && AtLineStart(b, q) && ColonBack(b, q, ScanWhile(b, q, IsSolid)) == Some(k)
    ensures var j := SkipSpaces(b, k + 1);
      var e := Continuations(b, LineEnd(b, j));
      HeaderAt(b, q) == Some((b[q..k], Normalize(b[j..e]), e))
  {
    assert ColonBack(b, q, ScanWhile(b, q, IsSolid)).value == k;
  }

  /** The name and the value text of a folded header, as slices of it. */
  lemma FoldedSlices(name: string, first: string, second: string)
    ensures var b := name + ": " + first + "\r\n\t" + second;
      b[0..|name|] == name && b[|name| + 2..|b|] == first + "\r\n\t" + second
  {
    var b := name + ": " + first + "\r\n\t" + second;
    assert b == name + (": " + (first + "\r\n\t" + second));
  }

  /** Where the scan of a folded header stops: after the name, the spaces, the first line and the second. */
  lemma FoldedScan(name: string, first: string, second: string)
    requires name != [] && AllSolid(name) && first != [] && AllSolid(first) && second != [] && AllSolid(second)
    ensures var b := name + ": " + first + "\r\n\t" + second;
      var k := |name|;
      && ScanWhile(b, 0, IsSolid) == k + 1 && ColonBack(b, 0, k + 1) == Some(k)
      && SkipSpaces(b, k + 1) == k + 2 && Continuations(b, LineEnd(b, k + 2)) == |b|
  {
    var b := name + ": " + first + "\r\n\t" + second;
    var k := |name|;
    var m := k + 2 + |first| + 1;
    forall i | 0 <= i < k ensures IsSolid(b[i]) {
      assert b[i] == name[i];
    }
    assert b[k] == ':' && b[k + 1] == ' ' && !IsSpace(b[k + 2]);
    forall i | k + 2 <= i < m ensures b[i] != '\n' {
      if i < m - 1 {
        assert b[i] == first[i - k - 2];
      }
    }
    assert b[m] == '\n' && b[m + 1] == '\t';
    forall i | m + 2 <= i < |b| ensures b[i] != '\n' {
      assert b[i] == second[i - m - 2];
    }
    assert LineEnd(b, k + 2) == m;
    assert LineEnd(b, m + 2) == |b|;
    assert Continuations(b, |b|) == |b|;
  }

  /** The two lines of a folded value become one, with one space between them. */
  lemma FoldedValue(first: string, second: string)
    requires first != [] && AllSolid(first) && second != [] && AllSolid(second)
    ensures Normalize(first + "\r\n\t" + second) == first + " " + second
  {
    var w := "\r\n\t" + second;
    assert IsSolid(second[0]);
    assert TrimStart(second) == second;
    assert TrimStart(w[2..]) == second by {
      assert w[2..][0] == '\t' && w[2..][1..] == second;
    }
    assert TrimStart(w[1..]) == second by {
      assert w[1..][0] == '\n' && w[1..][1..] == w[2..];
    }
    assert TrimStart(w) == second by {
      assert w[0] == '\r';
    }
    CollapseSolid(second, []);
    assert second + [] == second;
    assert Collapse(w) == " " + second;
    CollapseSolid(first, w);
    var v := first + " " + second;
    assert first + w == first + "\r\n\t" + second;
    assert first + Collapse(w) == v;
    assert v[0] == first[0] && v[|v| - 1] == second[|second| - 1];
    assert TrimStart(v) == v && TrimEnd(v) == v;
  }

  /** The `Subject` header folded over two lines reads `hello world`. */
  lemma FoldedSubject()
    ensures HeaderAt("Subject: hello\r\n\tworld", 0) == Some(("Subject", "hello world", 22))
  {
    SubjectSolid();
    FoldedHeader("Subject", "hello", "world");
    SubjectText();
  }

  lemma SubjectSolid()
    ensures AllSolid("Subject") && AllSolid("hello") && AllSolid("world")
  {
  }

  lemma SubjectText()
    ensures "Subject" + ": " + "hello" + "\r\n\t" + "world" == "Subject: hello\r\n\tworld"
    ensures "hello" + " " + "world" == "hello world"
  {
  }

  /** Characters that are not white space pass through the collapsing unchanged. */
  lemma {:induction false} CollapseSolid(a: string, s: string)
    requires AllSolid(a)
    ensures Collapse(a + s) == a + Collapse(s)
    decreases |a|
  {
    if a != [] {
      assert (a + s)[0] == a[0] && (a + s)[1..] == a[1..] + s;
      CollapseSolid(a[1..], s);
      calc {
        Collapse(a + s);
        [a[0]] + Collapse(a[1..] + s);
        [a[0]] + (a[1..] + Collapse(s));
        { assert [a[0]] + a[1..] == a; }
        a + Collapse(s);
      }
    } else {
      assert a + s == s;
    }
  }

  /** Every header the scan finds from `p` on, as (name, value) pairs in order. */
  function HeaderFields(b: string, p: nat): seq<(string, string)>
    requires p <= |b|
    decreases |b| - p
  {
    if p == |b| then []
    else
      var f := HeaderAt(b, p);
      if f.Some? then [(f.value.0, f.value.1)] + HeaderFields(b, f.value.2) else HeaderFields(b, p + 1)
  }

  /** The loop body `@headers[name] << value`, over a list of fields. */
  function Extend(h: Headers, fs: seq<(string, string)>): Headers
    decreases |fs|
  {
    if fs == [] then h else Extend(Append(h, fs[0].0, fs[0].1), fs[1..])
  }

  /** The headers of a header block. */
  function Parsed(b: string): Headers {
    Extend([], HeaderFields(b, 0))
  }

  /** The values given for `name`, in order. */
  function ValuesOf(fs: seq<(string, string)>, name: string): seq<string> {
    if fs == [] then [] else (if fs[0].0 == name then [fs[0].1] else []) + ValuesOf(fs[1..], name)
  }

  /** The names of `fs` not yet in `ks`, in order of first appearance. */
  function NewNames(ks: seq<string>, fs: seq<(string, string)>): seq<string>
    decreases |fs|
  {
    if fs == [] then ks else NewNames(if fs[0].0 in ks then ks else ks + [fs[0].0], fs[1..])
  }

  lemma {:induction false} ExtendGet(h: Headers, fs: seq<(string, string)>, n: string)
    ensures Get(Extend(h, fs), n) == Get(h, n) + ValuesOf(fs, n)
    decreases |fs|
  {
    if fs != [] {
      AppendSpec(h, fs[0].0, fs[0].1);
      ExtendGet(Append(h, fs[0].0, fs[0].1), fs[1..], n);
    } else {
      assert Get(h, n) + [] == Get(h, n);
    }
  }

  lemma {:induction false} ExtendKeys(h: Headers, fs: seq<(string, string)>)
    ensures Keys(Extend(h, fs)) == NewNames(Keys(h), fs)
    ensures UniqueKeys(h) ==> UniqueKeys(Extend(h, fs))
    decreases |fs|
  {
    if fs != [] {
      AppendSpec(h, fs[0].0, fs[0].1);
      ExtendKeys(Append(h, fs[0].0, fs[0].1), fs[1..]);
    }
  }

  /**
   * Each header name lists every value given for it, in the order met, and the
   * names come in the order of their first appearance, each once.
   */
  lemma ParsedSpec(b: string, name: string)
    ensures Get(Parsed(b), name) == ValuesOf(HeaderFields(b, 0), name)
    ensures Keys(Parsed(b)) == NewNames([], HeaderFields(b, 0))
    ensures UniqueKeys(Parsed(b))
  {
    ExtendGet([], HeaderFields(b, 0), name);
    ExtendKeys([], HeaderFields(b, 0));
  }

  lemma {:induction false} FieldsNormalized(b: string, p: nat)
    requires p <= |b|
    ensures ValuesFolded(HeaderFields(b, p))
    decreases |b| - p
  {
    if p < |b| {
      if HeaderAt(b, p).Some? {
        FieldsNormalized(b, HeaderAt(b, p).value.2);
        FoldedHeaderAt(b, p);
      } else {
        FieldsNormalized(b, p + 1);
        FoldedSkip(b, p);
      }
    }
  }

  lemma FoldedHeaderAt(b: string, p: nat)
    requires p < |b| && HeaderAt(b, p).Some?
    requires ValuesFolded(HeaderFields(b, HeaderAt(b, p).value.2))
    ensures ValuesFolded(HeaderFields(b, p))
  {
    var f := HeaderAt(b, p).value;
    HeaderFieldsStep(b, p);
    ConsFolded((f.0, f.1), HeaderFields(b, f.2));
  }

  lemma FoldedSkip(b: string, p: nat)
    requires p < |b| && HeaderAt(b, p).None?
    requires ValuesFolded(HeaderFields(b, p + 1))
    ensures ValuesFolded(HeaderFields(b, p))
  {
    HeaderFieldsStep(b, p);
  }

  /** Every value in `fs` is folded. */
  predicate ValuesFolded(fs: seq<(string, string)>) {
    forall i :: 0 <= i < |fs| ==> IsNormalized(fs[i].1)
  }

  lemma ConsFolded(f: (string, string), rest: seq<(string, string)>)
    requires IsNormalized(f.1) && ValuesFolded(rest)
    ensures ValuesFolded([f] + rest)
  {
    forall i | 0 < i < |[f] + rest| ensures IsNormalized(([f] + rest)[i].1) {
      assert ([f] + rest)[i] == rest[i - 1];
    }
  }

  lemma HeaderFieldsStep(b: string, p: nat)
    requires p < |b|
    ensures var f := HeaderAt(b, p);
      HeaderFields(b, p) == if f.Some? then [(f.value.0, f.value.1)] + HeaderFields(b, f.value.2) else HeaderFields(b, p + 1)
  {
  }

  /**
   * Every stored value is folded: no whitespace at either end, and inside only
   * single plain spaces (continuation line breaks and tabs included).
   */
  lemma ParsedValuesNormalized(b: string, name: string)
    ensures forall i :: 0 <= i < |Get(Parsed(b), name)| ==> IsNormalized(Get(Parsed(b), name)[i])
  {
    ParsedSpec(b, name);
    FieldsNormalized(b, 0);
    ValuesOfNormalized(HeaderFields(b, 0), name);
  }

  lemma {:induction false} ValuesOfNormalized(fs: seq<(string, string)>, name: string)
    requires ValuesFolded(fs)
    ensures forall i :: 0 <= i < |ValuesOf(fs, name)| ==> IsNormalized(ValuesOf(fs, name)[i])
    decreases |fs|
  {
    if fs != [] {
      assert forall i :: 0 <= i < |fs[1..]| ==> fs[1..][i] == fs[i + 1];
      ValuesOfNormalized(fs[1..], name);
    }
  }

  /** The scan and the loop of `Mime#initialize` that fill `@headers`. */
  method ParseHeaders(b: string) returns (h: Headers)
    ensures h == Parsed(b)
  {
    h := [];
    var p := 0;
    while p < |b|
      invariant p <= |b|
      invariant Extend(h, HeaderFields(b, p)) == Parsed(b)
      decreases |b| - p
    {
      var f := HeaderAt(b, p);
      if f.Some? {
        var (name, value, end) := f.value;
        h := Append(h, name, value);
        p := end;
      } else {
        p := p + 1;
      }
    }
  }

  // ---------------------------------------------------------------------------
  // Writing the headers out: `str << "#{key}: #{val.encode("ASCII")}\r\n"` for each
  // value of each header, in order.

  /** The value that `encode("ASCII")` refuses, with the header it belongs to. */
  datatype EmitError = NonAsciiValue(name: string, value: string)

  predicate IsAscii(s: string) {
    forall i :: 0 <= i < |s| ==> s[i] as int < 128
  }

  function Line(name: string, value: string): string {
    name + ": " + value + "\r\n"
  }

  /** `first`, then `rest`, stopping at the first failure. */
  function Then(first: Result<string, EmitError>, rest: Result<string, EmitError>): Result<string, EmitError> {
    if first.Failure? then first
    else if rest.Failure? then rest
    else Success(first.value + rest.value)
  }

  function ValueLines(name: string, vs: seq<string>): Result<string, EmitError> {
    if vs == [] then Success("")
    else if !IsAscii(vs[0]) then Failure(NonAsciiValue(name, vs[0]))
    else Then(Success(Line(name, vs[0])), ValueLines(name, vs[1..]))
  }

  function HeaderLines(h: Headers): Result<string, EmitError> {
    if h == [] then Success("") else Then(ValueLines(h[0].0, h[0].1), HeaderLines(h[1..]))
  }

  /** Every (name, value) pair in the order the lines are written. */
  function Fields(h: Headers): seq<(string, string)> {
    if h == [] then [] else Pairs(h[0].0, h[0].1) + Fields(h[1..])
  }

  function Pairs(name: string, vs: seq<string>): seq<(string, string)> {
    if vs == [] then [] else [(name, vs[0])] + Pairs(name, vs[1..])
  }

  /** Every value is ASCII. */
  predicate AllAscii(fs: seq<(string, string)>) {
    forall i :: 0 <= i < |fs| ==> IsAscii(fs[i].1)
  }

  /** The lines of `fs`, one `Name: value\r\n` each. */
  function LinesOf(fs: seq<(string, string)>): string {
    if fs == [] then "" else Line(fs[0].0, fs[0].1) + LinesOf(fs[1..])
  }

  lemma {:induction false} LinesOfAppend(a: seq<(string, string)>, b: seq<(string, string)>)
    ensures LinesOf(a + b) == LinesOf(a) + LinesOf(b)
    decreases |a|
  {
    if a != [] {
      assert (a + b)[1..] == a[1..] + b;
      LinesOfAppend(a[1..], b);
    } else {
      assert a + b == b;
    }
  }

  lemma {:induction false} ValueLinesSpec(name: string, vs: seq<string>)
    ensures ValueLines(name, vs).Success? <==> forall i :: 0 <= i < |vs| ==> IsAscii(vs[i])
    ensures ValueLines(name, vs).Success? ==> ValueLines(name, vs).value == LinesOf(Pairs(name, vs))
    ensures ValueLines(name, vs).Failure? ==> exists i :: 0 <= i < |vs| && ValueLines(name, vs).error == NonAsciiValue(name, vs[i]) && !IsAscii(vs[i])
    decreases |vs|
  {
    if vs != [] {
      ValueLinesSpec(name, vs[1..]);
      assert forall i :: 0 < i < |vs| ==> vs[i] == vs[1..][i - 1];
      if ValueLines(name, vs).Failure? && IsAscii(vs[0]) {
        var i :| 0 <= i < |vs[1..]| && ValueLines(name, vs[1..]).error == NonAsciiValue(name, vs[1..][i]) && !IsAscii(vs[1..][i]);
        assert vs[1..][i] == vs[i + 1];
      }
    }
  }

  /**
   * Writing succeeds exactly when every value is ASCII; it then gives one
   * `Name: value\r\n` line per value, header by header in Hash order.
   */
  lemma {:induction false} HeaderLinesSpec(h: Headers)
    ensures HeaderLines(h).Success? <==> AllAscii(Fields(h))
    ensures HeaderLines(h).Success? ==> HeaderLines(h).value == LinesOf(Fields(h))
    decreases |h|
  {
    if h != [] {
      var ps := Pairs(h[0].0, h[0].1);
      var rest := Fields(h[1..]);
      ValueLinesSpec(h[0].0, h[0].1);
      HeaderLinesSpec(h[1..]);
      assert Fields(h) == ps + rest;
      PairsAscii(h[0].0, h[0].1);
      AllAsciiAppend(ps, rest);
      if HeaderLines(h).Success? {
        LinesOfAppend(ps, rest);
      }
    }
  }

  /** When writing fails, it names a value that is not ASCII, under its header's name. */
  lemma {:induction false} HeaderLinesError(h: Headers)
    ensures HeaderLines(h).Failure? ==> exists i :: 0 <= i < |Fields(h)| && HeaderLines(h).error == NonAsciiValue(Fields(h)[i].0, Fields(h)[i].1) && !IsAscii(Fields(h)[i].1)
    decreases |h|
  {
    if h != [] && HeaderLines(h).Failure? {
      var ps := Pairs(h[0].0, h[0].1);
      var rest := Fields(h[1..]);
      assert Fields(h) == ps + rest;
      PairsNames(h[0].0, h[0].1);
      ValueLinesSpec(h[0].0, h[0].1);
      if ValueLines(h[0].0, h[0].1).Failure? {
        var i :| 0 <= i < |h[0].1| && ValueLines(h[0].0, h[0].1).error == NonAsciiValue(h[0].0, h[0].1[i]) && !IsAscii(h[0].1[i]);
        assert (ps + rest)[i] == ps[i] == (h[0].0, h[0].1[i]);
      } else {
        HeaderLinesError(h[1..]);
        var i :| 0 <= i < |rest| && HeaderLines(h[1..]).error == NonAsciiValue(rest[i].0, rest[i].1) && !IsAscii(rest[i].1);
        assert (ps + rest)[|ps| + i] == rest[i];
      }
    }
  }

  lemma PairsAscii(name: string, vs: seq<string>)
    ensures AllAscii(Pairs(name, vs)) <==> forall i :: 0 <= i < |vs| ==> IsAscii(vs[i])
  {
    PairsNames(name, vs);
    assert forall i :: 0 <= i < |vs| ==> Pairs(name, vs)[i].1 == vs[i];
  }

  lemma AllAsciiAppend(a: seq<(string, string)>, b: seq<(string, string)>)
    ensures AllAscii(a + b) <==> AllAscii(a) && AllAscii(b)
  {
    assert forall i :: 0 <= i < |a| ==> (a + b)[i] == a[i];
    assert forall i :: 0 <= i < |b| ==> (a + b)[|a| + i] == b[i];
  }

  lemma {:induction false} PairsNames(name: string, vs: seq<string>)
    ensures |Pairs(name, vs)| == |vs|
    ensures forall i :: 0 <= i < |vs| ==> Pairs(name, vs)[i] == (name, vs[i])
    decreases |vs|
  {
    if vs != [] {
      PairsNames(name, vs[1..]);
    }
  }

  lemma ThenEmpty(r: Result<string, EmitError>)
    ensures Then(Success(""), r) == r
    ensures Then(Success(""), Then(Success(""), r)) == r
  {
    if r.Success? {
      assert "" + r.value == r.value;
    }
  }

  lemma ThenAssoc(s: string, l: string, a: Result<string, EmitError>, b: Result<string, EmitError>)
    ensures Then(Success(s), Then(Then(Success(l), a), b)) == Then(Success(s + l), Then(a, b))
  {
    if a.Success? && b.Success? {
      assert s + ((l + a.value) + b.value) == (s + l) + (a.value + b.value);
    }
  }

  /** The loop of `Mime#to_s` that writes the header lines. */
  method EmitHeaders(h: Headers) returns (r: Result<string, EmitError>)
    ensures r == HeaderLines(h)
  {
    var str := "";
    var i := 0;
    assert h[0..] == h;
    ThenEmpty(HeaderLines(h));
    while i < |h|
      invariant i <= |h|
      invariant HeaderLines(h) == Then(Success(str), HeaderLines(h[i..]))
    {
      var (key, vals) := h[i];
      assert h[i..][1..] == h[i + 1..];
      var j := 0;
      while j < |vals|
        invariant j <= |vals|
        invariant HeaderLines(h) == Then(Success(str), Then(ValueLines(key, vals[j..]), HeaderLines(h[i + 1..])))
      {
        if !IsAscii(vals[j]) {
          return Failure(NonAsciiValue(key, vals[j]));
        }
        assert vals[j..][1..] == vals[j + 1..];
        ThenAssoc(str, Line(key, vals[j]), ValueLines(key, vals[j + 1..]), HeaderLines(h[i + 1..]));
        str := str + Line(key, vals[j]);
        j := j + 1;
      }
      assert vals[j..] == [];
      ThenEmpty(HeaderLines(h[i + 1..]));
      i := i + 1;
    }
    assert h[i..] == [];
    assert str + "" == str;
    return Success(str);
  }
}
