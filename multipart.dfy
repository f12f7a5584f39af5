/**
 * The string work of `Mime#initialize` around the header block and a multipart body:
 * finding the blank line that ends the headers, splitting the body on the literal
 * delimiter `--boundary` (section 5.1.1 of RFC 2046), removing the `--` that closes
 * the last delimiter, trimming one line break from each side of every fragment, and
 * taking the preamble and the epilogue off the ends.
 */
module Multipart {
  import opened Wrappers
  import opened Text

  // ---------------------------------------------------------------------------
  // `str[/(.*?\r?\n)(?:\r?\n(.*))?\Z/m]`: the lazy header group ends at the first
  // line feed that is followed by another line break or by the end of the text.

  /** A line break, or the end of the text, starts at `e`. */
  predicate BlankAt(s: string, e: nat)
    requires e <= |s|
  {
    e == |s| || s[e] == '\n' || (s[e] == '\r' && e + 1 < |s| && s[e + 1] == '\n')
  }

  /** Where the header block may end: just after a line feed, before a line break or the end. */
  predicate HeaderEndAt(s: string, e: nat)
    requires e <= |s|
  {
    0 < e && s[e - 1] == '\n' && BlankAt(s, e)
  }

  /** The first place from `i` on where the header block may end. */
  function HeaderEnd(s: string, i: nat): (r: Option<nat>)
    requires 0 < i <= |s| + 1
    ensures r.Some? ==> i <= r.value <= |s| && HeaderEndAt(s, r.value)
    ensures forall e :: i <= e <= |s| && (r.None? || e < r.value) ==> !HeaderEndAt(s, e)
    decreases |s| + 1 - i
  {
    if i > |s| then None
    else if HeaderEndAt(s, i) then Some(i)
    else HeaderEnd(s, i + 1)
  }

  /** The length of the line break that separates the header block from the body. */
  function BreakLength(s: string, e: nat): (n: nat)
    requires e <= |s| && BlankAt(s, e)
    ensures e + n <= |s|
  {
    if e == |s| then 0 else if s[e] == '\n' then 1 else 2
  }

  /**
   * The header block and the body. Without a blank line after a line feed, the
   * regular expression does not match: there are no headers and the body is empty.
   */
  function SplitMessage(s: string): (string, string) {
    var e := HeaderEnd(s, 1);
    if e.None? then ("", "")
    else (s[..e.value], s[e.value + BreakLength(s, e.value)..])
  }

  /** Without a place where the header block may end, nothing is kept. */
  lemma SplitMessageNoMatch(s: string)
    requires forall e :: 0 <= e <= |s| ==> !HeaderEndAt(s, e)
    ensures SplitMessage(s) == ("", "")
  {
  }

  /**
   * Otherwise the header block, one line break and the body put back together give
   * the text; the block ends with a line feed and holds no earlier place where it
   * could have ended.
   */
  lemma SplitMessageSpec(s: string, e: nat)
    requires e <= |s| && HeaderEndAt(s, e)
    ensures var headers := SplitMessage(s).0;
      var body := SplitMessage(s).1;
      && |headers| + |body| <= |s|
      && LeadBreak(s[|headers|..|s| - |body|])
      && s == headers + s[|headers|..|s| - |body|] + body
      && headers != [] && headers[|headers| - 1] == '\n'
      && forall k :: 0 <= k < |headers| ==> !HeaderEndAt(s, k)
  {
    var r := HeaderEnd(s, 1);
    assert r.Some?;
    var h := r.value;
    var n := BreakLength(s, h);
    var brk := s[h..h + n];
    assert LeadBreak(brk) by {
      if n == 1 { assert brk == "\n"; }
      else if n == 2 { assert brk == "\r\n"; }
    }
    assert SplitMessage(s) == (s[..h], s[h + n..]);
    assert s == s[..h] + brk + s[h + n..];
  }

  // ---------------------------------------------------------------------------
  // `body.split(/--#{Regexp.quote boundary}/m)`: the quoted boundary is a literal.

  /** `d` occurs in `s` at `j`. */
  predicate OccursAt(s: string, d: string, j: nat) {
    j + |d| <= |s| && s[j..j + |d|] == d
  }

  /** The first occurrence of `d` in `s` at or after `i`. */
  function Find(s: string, d: string, i: nat): (r: Option<nat>)
    requires i <= |s|
    ensures r.Some? ==> i <= r.value && OccursAt(s, d, r.value)
    ensures forall j :: i <= j && (r.None? || j < r.value) ==> !OccursAt(s, d, j)
    decreases |s| - i
  {
    if OccursAt(s, d, i) then Some(i)
    else if i == |s| then None
    else Find(s, d, i + 1)
  }

  /** Every field between occurrences of `d`, trailing empty ones included. */
  function RawSplit(s: string, d: string): (fs: seq<string>)
    requires d != []
    ensures |fs| > 0 && forall i :: 0 <= i < |fs| ==> |fs[i]| <= |s|
    decreases |s|
  {
    var j := Find(s, d, 0);
    if j.None? then [s] else [s[..j.value]] + RawSplit(s[j.value + |d|..], d)
  }

  /** `String#split` keeps no empty fields at the end. */
  function DropTrailingEmpty(fs: seq<string>): (r: seq<string>)
    ensures |r| <= |fs| && r == fs[..|r|]
    ensures r == [] || r[|r| - 1] != []
    ensures forall i :: |r| <= i < |fs| ==> fs[i] == []
    decreases |fs|
  {
    if fs != [] && fs[|fs| - 1] == [] then DropTrailingEmpty(fs[..|fs| - 1]) else fs
  }

  /** The fragments of a multipart body for the given boundary. */
  function Fragments(body: string, boundary: string): (fs: seq<string>)
    ensures forall i :: 0 <= i < |fs| ==> |fs[i]| <= |body|
  {
    DropTrailingEmpty(RawSplit(body, "--" + boundary))
  }

  /** Joining the fields with the delimiter gives the text back. */
  lemma {:induction false} RawSplitJoin(s: string, d: string)
    requires d != []
    ensures Join(RawSplit(s, d), d) == s
    decreases |s|
  {
    var j := Find(s, d, 0);
    if j.Some? {
      var rest := s[j.value + |d|..];
      RawSplitJoin(rest, d);
      var fs := RawSplit(s, d);
      var tail := RawSplit(rest, d);
      assert fs == [s[..j.value]] + tail;
      assert fs[1..] == tail && |fs| > 1;
      assert Join(fs, d) == s[..j.value] + d + Join(tail, d);
      assert s[j.value..j.value + |d|] == d;
      assert s == s[..j.value] + s[j.value..j.value + |d|] + rest;
    }
  }

  /** No field holds the delimiter. */
  lemma {:induction false} RawSplitFields(s: string, d: string)
    requires d != []
    ensures forall i, k :: 0 <= i < |RawSplit(s, d)| && 0 <= k ==> !OccursAt(RawSplit(s, d)[i], d, k)
    decreases |s|
  {
    var fs := RawSplit(s, d);
    var j := Find(s, d, 0);
    if j.Some? {
      var rest := s[j.value + |d|..];
      RawSplitFields(rest, d);
      forall i, k | 0 <= i < |fs| && 0 <= k ensures !OccursAt(fs[i], d, k) {
        if i == 0 {
          OccursInPrefix(s, j.value, d, k);
        } else {
          assert fs[i] == RawSplit(rest, d)[i - 1];
        }
      }
    }
  }

  /** An occurrence in a prefix is one in the whole text, ending within the prefix. */
  lemma OccursInPrefix(s: string, p: nat, d: string, k: nat)
    requires p <= |s|
    ensures OccursAt(s[..p], d, k) ==> OccursAt(s, d, k) && k + |d| <= p
  {
    if OccursAt(s[..p], d, k) {
      assert s[..p][k..k + |d|] == s[k..k + |d|];
    }
  }

  /**
   * The fragments are the fields of the body, up to its last non-empty one, and
   * none of them holds the delimiter.
   */
  lemma FragmentsSpec(body: string, boundary: string)
    ensures var d := "--" + boundary;
      var fs := Fragments(body, boundary);
      && fs == RawSplit(body, d)[..|fs|]
      && Join(RawSplit(body, d), d) == body
      && (forall i :: |fs| <= i < |RawSplit(body, d)| ==> RawSplit(body, d)[i] == [])
      && (fs == [] || fs[|fs| - 1] != [])
      && forall i, k :: 0 <= i < |fs| && 0 <= k ==> !OccursAt(fs[i], d, k)
  {
    var d := "--" + boundary;
    RawSplitJoin(body, d);
    RawSplitFields(body, d);
    var fs := Fragments(body, boundary);
    forall i, k | 0 <= i < |fs| && 0 <= k ensures !OccursAt(fs[i], d, k) {
      assert fs[i] == RawSplit(body, d)[i];
    }
  }

  // ---------------------------------------------------------------------------
  // `parts[-1][0..1] = ''` when the last fragment has a line starting with `--`.

  /** The last fragment loses its first two characters when a line of it starts with `--`. */
  function CloseLast(fs: seq<string>): (r: seq<string>)
    ensures |r| == |fs| && r[..|r| - (if |r| > 0 then 1 else 0)] == fs[..|fs| - (if |fs| > 0 then 1 else 0)]
    ensures forall i :: 0 <= i < |r| ==> |r[i]| <= |fs[i]|
  {
    if fs != [] && LineStartsWith(fs[|fs| - 1], "--") then
      var last := fs[|fs| - 1];
      fs[..|fs| - 1] + [last[Min(2, |last|)..]]
    else fs
  }

  function Min(a: nat, b: nat): nat { if a < b then a else b }

  /** A closing `--` written right after the last delimiter is removed. */
  lemma CloseLastDelimiter(fs: seq<string>, rest: string)
    requires fs != [] && fs[|fs| - 1] == "--" + rest
    ensures CloseLast(fs) == fs[..|fs| - 1] + [rest]
  {
    assert AtLineStart(fs[|fs| - 1], 0) && fs[|fs| - 1][0..] == fs[|fs| - 1];
  }

  // ---------------------------------------------------------------------------
  // `part =~ /^(\r?\n)?(.*?)(\r?\n)?\Z/m; part.replace $2`

  /** What may follow the lazy middle group: an optional line break, then the end or a final line feed. */
  predicate TailBreak(t: string) {
    t == "" || t == "\n" || t == "\n\n" || t == "\r\n" || t == "\r\n\n"
  }

  predicate LeadBreak(t: string) {
    t == "" || t == "\n" || t == "\r\n"
  }

  /** The leading line break the greedy first group takes. */
  function Lead(f: string): (n: nat)
    ensures n <= |f| && LeadBreak(f[..n])
  {
    if |f| >= 2 && f[0] == '\r' && f[1] == '\n' then
      assert f[..2] == "\r\n"; 2
    else if |f| >= 1 && f[0] == '\n' then
      assert f[..1] == "\n"; 1
    else 0
  }

  /** The smallest `k` from `i` on whose rest is a tail break: where the lazy group stops. */
  function Cut(f: string, i: nat): (k: nat)
    requires i <= |f|
    ensures i <= k <= |f| && TailBreak(f[k..])
    ensures forall j :: i <= j < k ==> !TailBreak(f[j..])
    decreases |f| - i
  {
    if TailBreak(f[i..]) then i else Cut(f, i + 1)
  }

  /** `$2`: the fragment without its leading and trailing line breaks. */
  function TrimBreaks(f: string): string {
    f[Lead(f)..Cut(f, Lead(f))]
  }

  /**
   * A fragment loses at most one leading line break and at most one trailing one
   * (followed perhaps by a final line feed), and as much of the end as the lazy
   * group allows.
   */
  lemma TrimBreaksSpec(f: string)
    ensures exists pre, post :: LeadBreak(pre) && TailBreak(post) && f == pre + TrimBreaks(f) + post
    ensures var t := TrimBreaks(f); forall j :: 0 <= j < |t| ==> !TailBreak(t[j..] + f[Cut(f, Lead(f))..])
  {
    TrimBreaksPieces(f);
    TrimBreaksLazy(f);
  }

  lemma TrimBreaksPieces(f: string)
    ensures var l := Lead(f); var k := Cut(f, l);
      LeadBreak(f[..l]) && TailBreak(f[k..]) && f == f[..l] + TrimBreaks(f) + f[k..]
  {
    var l := Lead(f);
    var k := Cut(f, l);
    assert f == f[..l] + f[l..k] + f[k..];
  }

  lemma TrimBreaksLazy(f: string)
    ensures var t := TrimBreaks(f); forall j :: 0 <= j < |t| ==> !TailBreak(t[j..] + f[Cut(f, Lead(f))..])
  {
    var l := Lead(f);
    var k := Cut(f, l);
    var t := TrimBreaks(f);
    forall j | 0 <= j < |t| ensures !TailBreak(t[j..] + f[k..]) {
      SliceJoin(f, l + j, k);
      assert t[j..] == f[l + j..k];
    }
  }

  /** Two adjacent slices of `f` make the slice they span. */
  lemma SliceJoin(f: string, a: nat, b: nat)
    requires a <= b <= |f|
    ensures f[a..b] + f[b..] == f[a..]
  {
  }

  function TrimAll(fs: seq<string>): (r: seq<string>)
    ensures |r| == |fs| && forall i :: 0 <= i < |fs| ==> r[i] == TrimBreaks(fs[i]) && |r[i]| <= |fs[i]|
  {
    seq(|fs|, i requires 0 <= i < |fs| => TrimBreaks(fs[i]))
  }

  /** `parts[-1][0..1] = ''` on the array of fragments. */
  method CloseInPlace(a: array<string>)
    modifies a
    ensures a[..] == CloseLast(old(a[..]))
  {
    var n := a.Length;
    if n > 0 && LineStartsWith(a[n - 1], "--") {
      var last := a[n - 1];
      a[n - 1] := last[Min(2, |last|)..];
      assert a[..] == old(a[..])[..n - 1] + [last[Min(2, |last|)..]];
    }
  }

  /** `parts.each { |part| part.replace $2 }` on the array of fragments. */
  method TrimInPlace(a: array<string>)
    modifies a
    ensures a[..] == TrimAll(old(a[..]))
  {
    var i := 0;
    while i < a.Length
      invariant i <= a.Length
      invariant forall j :: 0 <= j < i ==> a[j] == TrimBreaks(old(a[j]))
      invariant forall j :: i <= j < a.Length ==> a[j] == old(a[j])
    {
      a[i] := TrimBreaks(a[i]);
      i := i + 1;
    }
  }

  /** The in-place rewriting of the fragments: the closing `--`, then every fragment trimmed. */
  method RewriteFragments(a: array<string>)
    modifies a
    ensures a[..] == TrimAll(CloseLast(old(a[..])))
  {
    CloseInPlace(a);
    TrimInPlace(a);
  }

  // ---------------------------------------------------------------------------
  // `@preamble = parts.shift`, `@epilogue = parts.pop`: `nil` from an empty array.

  datatype Layout = Layout(preamble: Option<string>, middle: seq<string>, epilogue: Option<string>)

  function Arrange(fs: seq<string>): (l: Layout)
    ensures |l.middle| == if |fs| >= 2 then |fs| - 2 else 0
    ensures forall i :: 0 <= i < |l.middle| ==> l.middle[i] == fs[i + 1]
  {
    if fs == [] then Layout(None, [], None)
    else if |fs| == 1 then Layout(Some(fs[0]), [], None)
    else Layout(Some(fs[0]), fs[1..|fs| - 1], Some(fs[|fs| - 1]))
  }

  /** Putting the preamble, the middle and the epilogue back in a row gives the fragments. */
  lemma ArrangeSpec(fs: seq<string>)
    ensures var l := Arrange(fs);
      (if l.preamble.Some? then [l.preamble.value] else []) + l.middle
      + (if l.epilogue.Some? then [l.epilogue.value] else []) == fs
    ensures Arrange(fs).preamble.None? <==> fs == []
    ensures Arrange(fs).epilogue.None? <==> |fs| < 2
  {
    if |fs| >= 2 {
      assert fs == [fs[0]] + fs[1..|fs| - 1] + [fs[|fs| - 1]];
    } else if |fs| == 1 {
      assert fs == [fs[0]];
    }
  }

  /** A non-empty multipart body: its fragments, closed, trimmed and arranged. */
  function SplitBody(body: string, boundary: string): (l: Layout)
    ensures forall i :: 0 <= i < |l.middle| ==> |l.middle[i]| <= |body|
  {
    Arrange(TrimAll(CloseLast(Fragments(body, boundary))))
  }
}
