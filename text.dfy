/**
 * The character-level pieces of Ruby's regular expressions and String methods
 * that the MIME code relies on, written as explicit scans over `seq<char>`.
 */
module Text {

  /** Ruby's `\s`: space, tab, line feed, vertical tab, form feed, carriage return. */
  predicate IsSpace(c: char) {
    c == ' ' || c == '\t' || c == '\n' || c == '\r' || c as int == 11 || c as int == 12
  }

  /** The end of the greedy run `p*` that starts at `i`. */
  function ScanWhile(s: string, i: nat, p: char -> bool): (j: nat)
    requires i <= |s|
    ensures i <= j <= |s|
    ensures forall k :: i <= k < j ==> p(s[k])
    ensures j == |s| || !p(s[j])
    decreases |s| - i
  {
    if i == |s| || !p(s[i]) then i else ScanWhile(s, i + 1, p)
  }

  /** `\s*` starting at `i`. */
  function SkipSpaces(s: string, i: nat): (j: nat)
    requires i <= |s|
    ensures i <= j <= |s|
    ensures forall k :: i <= k < j ==> IsSpace(s[k])
    ensures j == |s| || !IsSpace(s[j])
  {
    ScanWhile(s, i, c => IsSpace(c))
  }

  /** `.*` without the multiline flag: up to the next line feed. */
  function LineEnd(s: string, i: nat): (j: nat)
    requires i <= |s|
    ensures i <= j <= |s|
    ensures forall k :: i <= k < j ==> s[k] != '\n'
    ensures j == |s| || s[j] == '\n'
  {
    ScanWhile(s, i, c => c != '\n')
  }

  /** The index of the first `c` in `s`, or `|s|` when there is none. */
  function IndexOf(s: string, c: char): (j: nat)
    ensures j <= |s|
    ensures c !in s[..j]
    ensures j == |s| || s[j] == c
  {
    ScanWhile(s, 0, x => x != c)
  }

  /** Where Ruby's `^` matches: the start of the string or just after a line feed. */
  predicate AtLineStart(s: string, q: nat) {
    q == 0 || (q <= |s| && s[q - 1] == '\n')
  }

  /** `s =~ /^pre/` for a literal `pre`: some line of `s` begins with `pre`. */
  predicate LineStartsWith(s: string, pre: string) {
    exists q :: 0 <= q <= |s| && AtLineStart(s, q) && pre <= s[q..]
  }

  lemma SingleLineStartsWith(s: string, pre: string)
    requires '\n' !in s
    ensures LineStartsWith(s, pre) <==> pre <= s
  {
    assert forall k :: 0 <= k < |s| ==> s[k] != '\n';
    if LineStartsWith(s, pre) {
      var q :| 0 <= q <= |s| && AtLineStart(s, q) && pre <= s[q..];
      assert q == 0;
    } else {
      assert AtLineStart(s, 0) && s[0..] == s;
    }
  }

  function TrimStart(s: string): (r: string)
    ensures r == [] || !IsSpace(r[0])
    ensures |r| <= |s| && (s != [] && IsSpace(s[0]) ==> |r| < |s|)
    decreases |s|
  {
    if s != [] && IsSpace(s[0]) then TrimStart(s[1..]) else s
  }

  /** `TrimStart` drops a leading run of whitespace and keeps the rest as it is. */
  lemma {:induction false} TrimStartSuffix(s: string)
    ensures forall i, k :: 0 <= i < |s| && 0 <= k < |TrimStart(s)| && i == |s| - |TrimStart(s)| + k ==> TrimStart(s)[k] == s[i]
    ensures forall k :: 0 <= k < |s| - |TrimStart(s)| ==> IsSpace(s[k])
    decreases |s|
  {
    if s != [] && IsSpace(s[0]) {
      TrimStartSuffix(s[1..]);
      var t := s[1..];
      assert forall j :: 1 <= j < |s| ==> t[j - 1] == s[j];
    }
  }

  function TrimEnd(s: string): (r: string)
    ensures |r| <= |s|
    ensures r == [] || !IsSpace(r[|r| - 1])
  {
    if s != [] && IsSpace(s[|s| - 1]) then TrimEnd(s[..|s| - 1]) else s
  }

  /** `TrimEnd` drops a trailing run of whitespace and keeps the rest as it is. */
  lemma {:induction false} TrimEndPrefix(s: string)
    ensures TrimEnd(s) <= s
    ensures forall k :: |TrimEnd(s)| <= k < |s| ==> IsSpace(s[k])
    decreases |s|
  {
    if s != [] && IsSpace(s[|s| - 1]) {
      TrimEndPrefix(s[..|s| - 1]);
    }
  }

  /** Ruby's `String#strip` (trailing NUL characters aside). */
  function Strip(s: string): (r: string)
    ensures r == [] || (!IsSpace(r[0]) && !IsSpace(r[|r| - 1]))
  {
    var t := TrimStart(s);
    TrimEndPrefix(t);
    TrimEnd(t)
  }

  /** Stripping leaves a piece of the input, so it brings in no character. */
  lemma StripWithin(s: string)
    ensures forall c :: c in Strip(s) ==> c in s
  {
    var t := TrimStart(s);
    TrimStartSuffix(s);
    TrimEndPrefix(t);
    forall c | c in Strip(s) ensures c in s {
      var i :| 0 <= i < |Strip(s)| && Strip(s)[i] == c;
      assert t[i] == c;
      assert s[|s| - |t| + i] == c;
    }
  }

  /** Stripping twice is stripping once. */
  lemma StripIdempotent(s: string)
    ensures Strip(Strip(s)) == Strip(s)
  {
    var r := Strip(s);
    assert TrimStart(r) == r;
  }

  /** `gsub(/\s+/, ' ')`: every maximal whitespace run becomes one space. */
  function Collapse(s: string): (r: string)
    ensures |r| == 0 <==> |s| == 0
    ensures |s| > 0 ==> (IsSpace(r[0]) <==> IsSpace(s[0]))
    decreases |s|
  {
    if s == [] then []
    else if IsSpace(s[0]) then [' '] + Collapse(TrimStart(s))
    else [s[0]] + Collapse(s[1..])
  }

  /** What a folded header value becomes: `gsub(/\s+/m, ' ').strip`. */
  function Normalize(s: string): string {
    Strip(Collapse(s))
  }

  /** Whitespace only as plain spaces, never two in a row. */
  predicate SingleSpaces(s: string) {
    && (forall i :: 0 <= i < |s| && IsSpace(s[i]) ==> s[i] == ' ')
    && (forall i, j :: 0 <= i < |s| && 0 <= j < |s| && j == i + 1 && IsSpace(s[i]) ==> !IsSpace(s[j]))
  }

  /** No whitespace at either end, and inside only single plain spaces. */
  predicate IsNormalized(s: string) {
    SingleSpaces(s) && (s != [] ==> !IsSpace(s[0]) && !IsSpace(s[|s| - 1]))
  }

  lemma ConsSingleSpaces(c: char, r: string)
    requires SingleSpaces(r)
    requires IsSpace(c) ==> c == ' ' && (r == [] || !IsSpace(r[0]))
    ensures SingleSpaces([c] + r)
  {
    var s := [c] + r;
    assert forall i :: 0 < i < |s| ==> s[i] == r[i - 1];
  }

  /** Collapsing leaves only single plain spaces. */
  lemma {:induction false} CollapseSingleSpaces(s: string)
    ensures SingleSpaces(Collapse(s))
    decreases |s|
  {
    if s != [] {
      if IsSpace(s[0]) {
        CollapseSingleSpaces(TrimStart(s));
        ConsSingleSpaces(' ', Collapse(TrimStart(s)));
      } else {
        CollapseSingleSpaces(s[1..]);
        ConsSingleSpaces(s[0], Collapse(s[1..]));
      }
    }
  }

  /** The non-whitespace characters of `s`, in order. */
  function Solid(s: string): string {
    if s == [] then [] else (if IsSpace(s[0]) then [] else [s[0]]) + Solid(s[1..])
  }

  lemma {:induction false} SolidAppend(a: string, b: string)
    ensures Solid(a + b) == Solid(a) + Solid(b)
    decreases |a|
  {
    if a != [] {
      assert (a + b)[1..] == a[1..] + b;
      SolidAppend(a[1..], b);
    } else {
      assert a + b == b;
    }
  }

  lemma {:induction false} SolidTrimStart(s: string)
    ensures Solid(TrimStart(s)) == Solid(s)
    decreases |s|
  {
    if s != [] && IsSpace(s[0]) {
      SolidTrimStart(s[1..]);
    }
  }

  lemma {:induction false} SolidTrimEnd(s: string)
    ensures Solid(TrimEnd(s)) == Solid(s)
    decreases |s|
  {
    if s != [] && IsSpace(s[|s| - 1]) {
      var init := s[..|s| - 1];
      SolidTrimEnd(init);
      assert s == init + [s[|s| - 1]];
      SolidAppend(init, [s[|s| - 1]]);
    }
  }

  lemma SolidStrip(s: string)
    ensures Solid(Strip(s)) == Solid(s)
  {
    SolidTrimStart(s);
    SolidTrimEnd(TrimStart(s));
  }

  lemma {:induction false} SolidCollapse(s: string)
    ensures Solid(Collapse(s)) == Solid(s)
    decreases |s|
  {
    if s != [] {
      if IsSpace(s[0]) {
        SolidCollapse(TrimStart(s));
        SolidAppend([' '], Collapse(TrimStart(s)));
        SolidTrimStart(s);
      } else {
        SolidCollapse(s[1..]);
        SolidAppend([s[0]], Collapse(s[1..]));
      }
    }
  }

  /** Folding a header value keeps every non-whitespace character, in order. */
  lemma NormalizeKeepsSolid(s: string)
    ensures Solid(Normalize(s)) == Solid(s)
  {
    SolidCollapse(s);
    SolidStrip(Collapse(s));
  }

  /** A folded header value has no surrounding whitespace and no whitespace runs. */
  lemma NormalizeIsNormalized(s: string)
    ensures IsNormalized(Normalize(s))
  {
    var c := Collapse(s);
    var t := TrimStart(c);
    var j := |c| - |t|;
    var r := TrimEnd(t);
    CollapseSingleSpaces(s);
    TrimStartSuffix(c);
    TrimEndPrefix(t);
    assert Normalize(s) == r;
    forall i | 0 <= i < |r| && IsSpace(r[i]) ensures r[i] == ' ' {
      assert r[i] == c[j + i];
    }
    forall i, k | 0 <= i < |r| && 0 <= k < |r| && k == i + 1 && IsSpace(r[i]) ensures !IsSpace(r[k]) {
      assert r[i] == c[j + i];
      assert r[k] == c[j + k];
    }
  }

  lemma {:induction false} CollapseNormalized(s: string)
    requires SingleSpaces(s)
    ensures Collapse(s) == s
    decreases |s|
  {
    if s != [] {
      if IsSpace(s[0]) {
        assert |s| > 1 ==> !IsSpace(s[1]);
        assert TrimStart(s) == TrimStart(s[1..]) == s[1..];
        CollapseNormalized(s[1..]);
        assert s == [' '] + s[1..];
      } else {
        CollapseNormalized(s[1..]);
        assert s == [s[0]] + s[1..];
      }
    }
  }

  /** A value already in folded form is left as it is. */
  lemma NormalizeFixpoint(s: string)
    requires IsNormalized(s)
    ensures Normalize(s) == s
  {
    CollapseNormalized(s);
    if s != [] {
      assert !IsSpace(s[0]);
      assert !IsSpace(s[|s| - 1]);
      assert TrimStart(s) == s;
    }
  }

  /** Folding twice is folding once. */
  lemma NormalizeIdempotent(s: string)
    ensures Normalize(Normalize(s)) == Normalize(s)
  {
    NormalizeIsNormalized(s);
    NormalizeFixpoint(Normalize(s));
  }

  /** Ruby's `Array#join(sep)`. */
  function Join(xs: seq<string>, sep: string): (r: string)
    ensures |xs| == 1 ==> r == xs[0]
  {
    if |xs| == 0 then [] else if |xs| == 1 then xs[0] else xs[0] + sep + Join(xs[1..], sep)
  }
}
