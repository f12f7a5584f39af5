/**
 * Reading back what `Mime#to_s` writes: the fragments `Mime#initialize` finds in a
 * multipart body that `to_s` has joined, and the header block and body it finds in
 * each written part.
 */
module RoundTrip {
  import opened Wrappers
  import opened Text
  import opened Assoc
  import opened HeaderMap
  import opened HeaderParams
  import opened Multipart
  import opened Boundary
  import opened MimeTree

  // ---------------------------------------------------------------------------
  // Splitting a joined text at the delimiter.

  /** No character of `x` occurs in `d`. */
  predicate Apart(x: string, d: string) {
    forall i :: 0 <= i < |x| ==> x[i] !in d
  }

  /** `d` occurs nowhere in `s`. */
  predicate Free(s: string, d: string) {
    forall k :: 0 <= k <= |s| ==> !OccursAt(s, d, k)
  }

  /** An occurrence of `d` in `a + o + b`, where `d` shares no character with `a` or `b`, lies inside `o`. */
  lemma OccursInside(a: string, o: string, b: string, d: string, k: nat)
    requires d != [] && Apart(a, d) && Apart(b, d)
    ensures OccursAt(a + o + b, d, k) ==> |a| <= k && k + |d| <= |a| + |o| && OccursAt(o, d, k - |a|)
  {
    var s := a + o + b;
    if OccursAt(s, d, k) {
      assert s[k..k + |d|][0] == s[k] && s[k..k + |d|][|d| - 1] == s[k + |d| - 1];
      assert d[0] in d && d[|d| - 1] in d;
      assert o[k - |a|..k - |a| + |d|] == s[k..k + |d|];
    }
  }

  /** `d` occurs in no framed piece `a + o + b` when it occurs nowhere in `o`. */
  lemma FreeFramed(a: string, o: string, b: string, d: string)
    requires d != [] && Apart(a, d) && Apart(b, d) && Free(o, d)
    ensures Free(a + o + b, d)
  {
    forall k | 0 <= k <= |a + o + b| ensures !OccursAt(a + o + b, d, k) {
      OccursInside(a, o, b, d, k);
    }
  }

  /** The closing piece `--\r\n` + epilogue holds no delimiter `--boundary`. */
  lemma FreeClosing(epilogue: string, d: string)
    requires |d| >= 3 && Apart("\r\n", d) && Free(epilogue, d)
    ensures Free("--\r\n" + epilogue, d)
  {
    var s := "--\r\n" + epilogue;
    assert '\r' !in d && '\n' !in d by { assert "\r\n"[0] == '\r' && "\r\n"[1] == '\n'; }
    forall k | 0 <= k <= |s| ensures !OccursAt(s, d, k) {
      if k >= 4 {
        assert !OccursAt(epilogue, d, k - 4);
        if k + |d| <= |s| {
          assert s[k..k + |d|] == epilogue[k - 4..k - 4 + |d|];
        }
      } else {
        Uncovered(s, d, k, if k <= 2 then 2 else 3);
      }
    }
  }

  /** A character of `s` that `d` does not hold rules out every occurrence covering it. */
  lemma Uncovered(s: string, d: string, j: nat, p: nat)
    requires j <= p < j + |d| && p < |s| && s[p] !in d
    ensures !OccursAt(s, d, j)
  {
    if j + |d| <= |s| {
      assert s[j..j + |d|][p - j] == s[p];
      assert d[p - j] in d;
    }
  }

  /**
   * Fields that the split reads back from their join: none holds `d`, and every
   * field but the last ends with a character that `d` does not hold.
   */
  predicate Separable(ys: seq<string>, d: string) {
    && (forall i :: 0 <= i < |ys| ==> Free(ys[i], d))
    && (forall i :: 0 <= i < |ys| - 1 ==> ys[i] != [] && ys[i][|ys[i]| - 1] !in d)
  }

  /** The first delimiter in `x + d + rest` is the one after `x`. */
  lemma FindAfter(x: string, d: string, rest: string)
    requires d != [] && x != [] && x[|x| - 1] !in d && Free(x, d)
    ensures Find(x + d + rest, d, 0) == Some(|x|)
  {
    var s := x + d + rest;
    assert s[|x|..|x| + |d|] == d;
    forall j | 0 <= j < |x| ensures !OccursAt(s, d, j) {
      if j + |d| <= |x| {
        assert !OccursAt(x, d, j);
        assert s[j..j + |d|] == x[j..j + |d|];
      } else {
        Uncovered(s, d, j, |x| - 1);
      }
    }
    assert OccursAt(s, d, |x|);
    var r := Find(s, d, 0);
    assert r.Some? && OccursAt(s, d, r.value);
  }

  /** Splitting the join of separable fields gives the fields back. */
  lemma {:induction false} RawSplitOfJoin(ys: seq<string>, d: string)
    requires d != [] && ys != [] && Separable(ys, d)
    ensures RawSplit(Join(ys, d), d) == ys
    decreases |ys|, 1
  {
    if |ys| == 1 {
      SplitNone(ys[0], d);
      assert ys == [ys[0]];
    } else {
      RawSplitOfJoinStep(ys, d);
    }
  }

  lemma RawSplitOfJoinStep(ys: seq<string>, d: string)
    requires d != [] && |ys| > 1 && Separable(ys, d)
    ensures RawSplit(Join(ys, d), d) == ys
    decreases |ys|, 0
  {
    var x := ys[0];
    var tail := ys[1..];
    var rest := Join(tail, d);
    HeadTail(ys);
    assert Join(ys, d) == x + d + rest;
    assert RawSplit(rest, d) == tail && RawSplit(x + d + rest, d) == [x] + RawSplit(rest, d) by {
      SeparableTail(ys, d);
      RawSplitOfJoin(tail, d);
      SplitFirst(x, d, rest);
    }
  }

  lemma HeadTail<A>(s: seq<A>)
    requires s != []
    ensures s == [s[0]] + s[1..]
  {
  }

  lemma SeparableTail(ys: seq<string>, d: string)
    requires ys != [] && Separable(ys, d)
    ensures Separable(ys[1..], d)
    ensures |ys| > 1 ==> ys[0] != [] && Free(ys[0], d) && ys[0][|ys[0]| - 1] !in d
  {
    var tail := ys[1..];
    assert forall i :: 0 <= i < |tail| ==> tail[i] == ys[i + 1];
  }

  /** Without a delimiter the split gives the whole text. */
  lemma SplitNone(x: string, d: string)
    requires d != [] && Free(x, d)
    ensures RawSplit(x, d) == [x]
  {
  }

  /** The split takes the field before the first delimiter, then goes on after it. */
  lemma SplitFirst(x: string, d: string, rest: string)
    requires d != [] && x != [] && x[|x| - 1] !in d && Free(x, d)
    ensures RawSplit(x + d + rest, d) == [x] + RawSplit(rest, d)
  {
    var s := x + d + rest;
    FindAfter(x, d, rest);
    assert s[..|x|] == x;
    assert s[|x| + |d|..] == rest;
  }

  // ---------------------------------------------------------------------------
  // The body as `to_s` joins it, regrouped around the bare delimiter `--boundary`.

  /** Every element but the last with `e` appended. */
  function Tack(xs: seq<string>, e: string): (r: seq<string>)
    ensures |r| == |xs|
    decreases |xs|
  {
    if |xs| <= 1 then xs else [xs[0] + e] + Tack(xs[1..], e)
  }

  lemma {:induction false} TackAt(xs: seq<string>, e: string)
    ensures forall i :: 0 <= i < |xs| - 1 ==> Tack(xs, e)[i] == xs[i] + e
    ensures xs != [] ==> Tack(xs, e)[|xs| - 1] == xs[|xs| - 1]
    decreases |xs|
  {
    if |xs| > 1 {
      TackAt(xs[1..], e);
      assert forall i :: 1 <= i < |xs| ==> Tack(xs, e)[i] == Tack(xs[1..], e)[i - 1];
    }
  }

  /** Joining with `e + d` is joining with `d` after appending `e` to every element but the last. */
  lemma {:induction false} JoinRegroup(xs: seq<string>, e: string, d: string)
    ensures Join(xs, e + d) == Join(Tack(xs, e), d)
    decreases |xs|
  {
    if |xs| > 1 {
      JoinRegroup(xs[1..], e, d);
      var t := Tack(xs[1..], e);
      assert Tack(xs, e) == [xs[0] + e] + t;
      assert Tack(xs, e)[1..] == t;
      assert xs[0] + (e + d) + Join(xs[1..], e + d) == (xs[0] + e) + d + Join(t, d);
    }
  }

  lemma {:induction false} WrappedAt(outs: seq<string>, intended: bool)
    ensures forall i :: 0 <= i < |outs| ==>
      Wrapped(outs, intended)[i] == "\r\n" + outs[i] + (if intended then "" else "\r\n")
    decreases |outs|
  {
    if outs != [] {
      WrappedAt(outs[1..], intended);
      assert forall i :: 1 <= i < |outs| ==> Wrapped(outs, intended)[i] == Wrapped(outs[1..], intended)[i - 1];
    }
  }

  /** What a written part reads back as: the part itself as intended, with a line break more as written. */
  function Reread(out: string, intended: bool): string {
    if intended then out else out + "\r\n"
  }

  /** A written part as it stands between two delimiters. */
  function Framed(out: string, intended: bool): string {
    "\r\n" + Reread(out, intended) + "\r\n"
  }

  /** The fragments between the delimiters of a body `to_s` joins. */
  function Pieces(preamble: string, outs: seq<string>, epilogue: string, intended: bool): (r: seq<string>)
    ensures |r| == |outs| + 2
  {
    [preamble + "\r\n"] + seq(|outs|, i requires 0 <= i < |outs| => Framed(outs[i], intended)) + ["--\r\n" + epilogue]
  }

  /** The joined body is the pieces joined around the bare delimiter `--boundary`. */
  lemma BodyPieces(preamble: string, outs: seq<string>, epilogue: string, boundary: string, intended: bool)
    ensures MultipartBody(Some(preamble), outs, epilogue, boundary, intended)
      == Join(Pieces(preamble, outs, epilogue, intended), "--" + boundary)
  {
    var xs := [preamble] + Wrapped(outs, intended) + ["--\r\n" + epilogue];
    var ps := Pieces(preamble, outs, epilogue, intended);
    assert "\r\n--" + boundary == "\r\n" + ("--" + boundary);
    JoinRegroup(xs, "\r\n", "--" + boundary);
    TackAt(xs, "\r\n");
    WrappedAt(outs, intended);
    forall i | 0 <= i < |xs| ensures Tack(xs, "\r\n")[i] == ps[i] {
      if 0 < i < |xs| - 1 {
        assert xs[i] == Wrapped(outs, intended)[i - 1];
        assert ps[i] == Framed(outs[i - 1], intended);
      }
    }
    assert Tack(xs, "\r\n") == ps;
  }

  /**
   * When the delimiter `--boundary` holds no line break and occurs in none of the
   * preamble, the written parts and the epilogue, splitting the joined body at it
   * gives exactly the pieces written between the delimiters.
   */
  lemma ReadBackFragments(preamble: string, outs: seq<string>, epilogue: string, boundary: string, intended: bool)
    requires boundary != [] && '\r' !in boundary && '\n' !in boundary
    requires Free(preamble, "--" + boundary) && Free(epilogue, "--" + boundary)
    requires forall i :: 0 <= i < |outs| ==> Free(outs[i], "--" + boundary)
    ensures Fragments(MultipartBody(Some(preamble), outs, epilogue, boundary, intended), boundary)
      == Pieces(preamble, outs, epilogue, intended)
  {
    var d := "--" + boundary;
    var ps := Pieces(preamble, outs, epilogue, intended);
    var extra: string := if intended then "" else "\r\n";
    assert Apart("\r\n", d) && Apart(extra + "\r\n", d) by {
      assert '\r' !in d && '\n' !in d;
    }
    assert Apart("", d);
    assert Separable(ps, d) by {
      forall i | 0 <= i < |ps| ensures Free(ps[i], d) {
        if i == 0 {
          FreeFramed("", preamble, "\r\n", d);
          assert "" + preamble + "\r\n" == ps[0];
        } else if i < |ps| - 1 {
          FreeFramed("\r\n", outs[i - 1], extra + "\r\n", d);
          assert "\r\n" + outs[i - 1] + (extra + "\r\n") == ps[i];
        } else {
          FreeClosing(epilogue, d);
        }
      }
      forall i | 0 <= i < |ps| - 1 ensures ps[i] != [] && ps[i][|ps[i]| - 1] !in d {
        assert ps[i][|ps[i]| - 1] == '\n';
      }
    }
    BodyPieces(preamble, outs, epilogue, boundary, intended);
    RawSplitOfJoin(ps, d);
    assert ps[|ps| - 1] != [];
  }

  // ---------------------------------------------------------------------------
  // Trimming the pieces: `part =~ /^(\r?\n)?(.*?)(\r?\n)?\Z/m; part.replace $2`.

  /** Three characters or more whose last but one is a carriage return make no tail break. */
  lemma LongNoTail(t: string)
    requires |t| >= 3 && t[|t| - 2] == '\r'
    ensures !TailBreak(t)
  {
  }

  /** A text that does not end with a line feed is no tail break, unless it is empty. */
  lemma OpenNoTail(t: string)
    requires t != [] && t[|t| - 1] != '\n'
    ensures !TailBreak(t)
  {
  }

  /** Where the lazy group stops: the first `k` from `i` on with a tail break after it. */
  lemma CutAt(f: string, i: nat, k: nat)
    requires i <= k <= |f| && TailBreak(f[k..])
    requires forall j :: i <= j < k ==> !TailBreak(f[j..])
    ensures Cut(f, i) == k
  {
  }

  /** A part between two line breaks is read back whole, whatever it ends with. */
  lemma TrimFramed(x: string)
    ensures TrimBreaks("\r\n" + x + "\r\n") == x
  {
    var f := "\r\n" + x + "\r\n";
    assert Lead(f) == 2;
    assert f[|f| - 2..] == "\r\n";
    forall j | 2 <= j < |f| - 2 ensures !TailBreak(f[j..]) {
      LongNoTail(f[j..]);
    }
    CutAt(f, 2, |f| - 2);
    assert f[2..|f| - 2] == x;
  }

  /** A preamble that does not start with a line break is read back whole. */
  lemma TrimPreamble(preamble: string)
    requires Lead(preamble) == 0
    ensures TrimBreaks(preamble + "\r\n") == preamble
  {
    var f := preamble + "\r\n";
    var l := if preamble == [] then 2 else 0;
    assert Lead(f) == l;
    assert f[|preamble|..] == "\r\n";
    forall j | l <= j < |preamble| ensures !TailBreak(f[j..]) {
      LongNoTail(f[j..]);
    }
    if preamble == [] {
      assert f[2..] == [];
      CutAt(f, 2, 2);
    } else {
      CutAt(f, 0, |preamble|);
    }
  }

  /** An epilogue that does not end with a line feed is read back whole. */
  lemma TrimEpilogue(epilogue: string)
    requires epilogue == [] || epilogue[|epilogue| - 1] != '\n'
    ensures TrimBreaks("\r\n" + epilogue) == epilogue
  {
    var f := "\r\n" + epilogue;
    assert Lead(f) == 2;
    forall j | 2 <= j < |f| ensures !TailBreak(f[j..]) {
      OpenNoTail(f[j..]);
    }
    assert f[|f|..] == [];
    CutAt(f, 2, |f|);
  }

  /** The pieces once the closing `--` is gone and each is trimmed: what was written. */
  lemma TrimPieces(preamble: string, outs: seq<string>, epilogue: string, intended: bool)
    requires Lead(preamble) == 0 && (epilogue == [] || epilogue[|epilogue| - 1] != '\n')
    ensures var tr := TrimAll(CloseLast(Pieces(preamble, outs, epilogue, intended)));
      && |tr| == |outs| + 2 && tr[0] == preamble && tr[|tr| - 1] == epilogue
      && forall i :: 0 <= i < |outs| ==> tr[i + 1] == Reread(outs[i], intended)
  {
    var tr := TrimAll(CloseLast(Pieces(preamble, outs, epilogue, intended)));
    forall i | 0 <= i < |outs| + 2
      ensures tr[i] == if i == 0 then preamble else if i <= |outs| then Reread(outs[i - 1], intended) else epilogue
    {
      ClosedPiece(preamble, outs, epilogue, intended, i);
      if i == 0 {
        TrimPreamble(preamble);
      } else if i <= |outs| {
        TrimFramed(Reread(outs[i - 1], intended));
      } else {
        TrimEpilogue(epilogue);
      }
    }
  }

  /** The `i`-th piece once the closing `--` is gone from the last one. */
  lemma ClosedPiece(preamble: string, outs: seq<string>, epilogue: string, intended: bool, i: nat)
    requires i < |outs| + 2
    ensures CloseLast(Pieces(preamble, outs, epilogue, intended))[i]
         == if i == 0 then preamble + "\r\n" else if i <= |outs| then Framed(outs[i - 1], intended) else "\r\n" + epilogue
  {
    var ps := Pieces(preamble, outs, epilogue, intended);
    assert ps[|ps| - 1] == "--" + ("\r\n" + epilogue);
    CloseLastDelimiter(ps, "\r\n" + epilogue);
    if i < |ps| - 1 {
      assert CloseLast(ps)[i] == ps[i];
    }
  }

  /**
   * The multipart body `to_s` writes, split again as `Mime#initialize` splits it:
   * the preamble and the epilogue come back as they were, there is one fragment per
   * written part, and each is the part as written, followed by a line break
   * `"\r\n"` in the code as written and by nothing as intended. The conditions are
   * the ones under which the split can find the delimiters again: the boundary holds
   * no line break and occurs in no piece, the preamble does not start with a line
   * break and the epilogue does not end with a line feed.
   */
  lemma ReadBackLayout(preamble: string, outs: seq<string>, epilogue: string, boundary: string, intended: bool)
    requires boundary != [] && '\r' !in boundary && '\n' !in boundary
    requires Free(preamble, "--" + boundary) && Free(epilogue, "--" + boundary)
    requires forall i :: 0 <= i < |outs| ==> Free(outs[i], "--" + boundary)
    requires Lead(preamble) == 0 && (epilogue == [] || epilogue[|epilogue| - 1] != '\n')
    ensures var l := SplitBody(MultipartBody(Some(preamble), outs, epilogue, boundary, intended), boundary);
      && l.preamble == Some(preamble) && l.epilogue == Some(epilogue) && |l.middle| == |outs|
      && forall i :: 0 <= i < |outs| ==> l.middle[i] == Reread(outs[i], intended)
  {
    ReadBackFragments(preamble, outs, epilogue, boundary, intended);
    TrimPieces(preamble, outs, epilogue, intended);
  }

  // ---------------------------------------------------------------------------
  // Reading the header block of a written part back.

  /** A header line that cannot be mistaken for the blank line: no line feed, and a name that starts no line break. */
  predicate LineSafe(f: (string, string)) {
    '\r' !in f.0 && '\n' !in f.0 && '\n' !in f.1
  }

  /** No line feed in `s` is followed by another line break. */
  predicate Calm(s: string) {
    forall i :: 0 <= i < |s| - 1 && FeedAt(s, i) ==> s[i + 1] != '\n' && s[i + 1] != '\r'
  }

  /** `s` does not start with a line break. */
  predicate Opening(s: string) {
    s != [] ==> s[0] != '\n' && s[0] != '\r'
  }

  /** Lines of safe headers hold no blank line and do not start with one. */
  lemma {:induction false} LinesCalm(fs: seq<(string, string)>)
    requires forall i :: 0 <= i < |fs| ==> LineSafe(fs[i])
    ensures Calm(LinesOf(fs)) && Opening(LinesOf(fs))
    decreases |fs|
  {
    if fs != [] {
      LinesCalm(fs[1..]);
      var name, value := fs[0].0, fs[0].1;
      assert LineSafe(fs[0]);
      var l := Line(name, value);
      var r := LinesOf(fs[1..]);
      assert LinesOf(fs) == l + r;
      forall k | 0 <= k < |l| - 1 ensures l[k] != '\n' {
        if k < |name| {
          assert l[k] == name[k];
        } else if k < |name| + 2 {
        } else if k < |name| + 2 + |value| {
          assert l[k] == value[k - |name| - 2];
        }
      }
      assert l[0] != '\n' && l[0] != '\r' by {
        if name != [] {
          assert l[0] == name[0];
        }
      }
      var s := l + r;
      assert forall k :: 0 <= k < |l| ==> s[k] == l[k];
      forall i | 0 <= i < |s| - 1 && FeedAt(s, i) ensures s[i + 1] != '\n' && s[i + 1] != '\r' {
        if i + 1 == |l| {
          assert s[i + 1] == r[0];
        } else if i + 1 > |l| {
          assert s[i] == r[i - |l|] && s[i + 1] == r[i + 1 - |l|];
          assert FeedAt(r, i - |l|);
        }
      }
    }
  }

  /** The lines of at least one header end with a line break. */
  lemma LinesEnd(fs: seq<(string, string)>)
    requires fs != []
    ensures var l := LinesOf(fs); |l| >= 2 && l[|l| - 2..] == "\r\n"
  {
    var n := |fs| - 1;
    LinesOfAppend(fs[..n], [fs[n]]);
    assert fs[..n] + [fs[n]] == fs;
    assert LinesOf([fs[n]]) == Line(fs[n].0, fs[n].1) + LinesOf([]);
  }

  /**
   * A part written as its header lines, a blank line and its body is read back
   * as that header block and that body, when at least one header line is written
   * and none holds a line feed.
   */
  lemma ReadHeaderBlock(fs: seq<(string, string)>, body: string)
    requires fs != [] && forall i :: 0 <= i < |fs| ==> LineSafe(fs[i])
    ensures SplitMessage(LinesOf(fs) + "\r\n" + body) == (LinesOf(fs), body)
  {
    var l := LinesOf(fs);
    assert Calm(l) && |l| >= 2 && l[|l| - 2..] == "\r\n" by {
      LinesCalm(fs);
      LinesEnd(fs);
    }
    ReadBlock(l, body);
  }

  /** A calm block that ends with a line break, then a blank line and the body, splits there. */
  lemma ReadBlock(l: string, body: string)
    requires Calm(l) && |l| >= 2 && l[|l| - 2..] == "\r\n"
    ensures SplitMessage(l + "\r\n" + body) == (l, body)
  {
    var s := l + "\r\n" + body;
    CalmBlock(l, body);
    HeaderEndFirst(s, |l|);
    assert s[|l|] == '\r' && s[|l| + 1] == '\n';
    assert BreakLength(s, |l|) == 2;
    assert s[..|l|] == l && s[|l| + 2..] == body;
  }

  /** A calm block that ends with a line break, then a blank line: the header block may end there and nowhere before. */
  lemma CalmBlock(l: string, body: string)
    requires Calm(l) && |l| >= 2 && l[|l| - 2..] == "\r\n"
    ensures var s := l + "\r\n" + body;
      && HeaderEndAt(s, |l|)
      && forall e :: 1 <= e < |l| ==> !HeaderEndAt(s, e)
  {
    var s := l + "\r\n" + body;
    assert s[|l| - 1] == l[|l| - 1] == '\n';
    assert s[|l|] == '\r' && s[|l| + 1] == '\n';
    forall e | 1 <= e < |l| ensures !HeaderEndAt(s, e) {
      assert s[e - 1] == l[e - 1] && s[e] == l[e];
      assert FeedAt(l, e - 1) ==> l[e] != '\n' && l[e] != '\r';
    }
  }

  /** The first place where the header block may end is where the lazy group stops. */
  lemma HeaderEndFirst(s: string, e: nat)
    requires 1 <= e <= |s| && HeaderEndAt(s, e)
    requires forall j :: 1 <= j < e ==> !HeaderEndAt(s, j)
    ensures HeaderEnd(s, 1) == Some(e)
  {
  }

  // ---------------------------------------------------------------------------
  // Writing a multipart node and reading it back.

  /** The text of `n`: its header lines, a blank line, its body. */
  function PartText(n: Node): Result<string, EmitError> {
    var lines := HeaderLines(n.headers);
    if lines.Success? then Success(lines.value + "\r\n" + n.body) else Failure(lines.error)
  }

  /** `out` is the text of `n`. */
  predicate Written(n: Node, out: string) {
    PartText(n) == Success(out)
  }

  lemma BoundaryNoBreak(counter: nat, identity: nat, time: nat)
    ensures var b := MakeBoundary(counter, identity, time);
      b != [] && '\r' !in b && '\n' !in b
  {
    var b := MakeBoundary(counter, identity, time);
    BoundaryPlain(counter, identity, time);
    assert b[0] == Prefix[0];
    forall i | 0 <= i < |b| ensures b[i] != '\r' && b[i] != '\n' {
      assert Plain(b[i]);
    }
  }

  /**
   * The parts read back from a joined body: one fragment per written part, each
   * splitting into the part's header lines and its body, followed by a line break
   * as written and by nothing as intended.
   */
  lemma PartsReadBack(preamble: string, outs: seq<string>, nodes: seq<Node>, epilogue: string, boundary: string, intended: bool)
    requires boundary != [] && '\r' !in boundary && '\n' !in boundary
    requires Free(preamble, "--" + boundary) && Free(epilogue, "--" + boundary)
    requires forall i :: 0 <= i < |outs| ==> Free(outs[i], "--" + boundary)
    requires Lead(preamble) == 0 && (epilogue == [] || epilogue[|epilogue| - 1] != '\n')
    requires |nodes| == |outs| && forall k {:trigger nodes[k]} :: 0 <= k < |outs| ==> Written(nodes[k], outs[k])
    requires forall k :: 0 <= k < |nodes| ==> Safe(nodes[k])
    ensures var l := SplitBody(MultipartBody(Some(preamble), outs, epilogue, boundary, intended), boundary);
      && l.preamble == Some(preamble) && l.epilogue == Some(epilogue) && |l.middle| == |nodes|
      && forall k :: 0 <= k < |nodes| ==>
           SplitMessage(l.middle[k]) == (LinesOf(Fields(nodes[k].headers)), Reread(nodes[k].body, intended))
  {
    var l := SplitBody(MultipartBody(Some(preamble), outs, epilogue, boundary, intended), boundary);
    ReadBackLayout(preamble, outs, epilogue, boundary, intended);
    forall k | 0 <= k < |nodes|
      ensures SplitMessage(l.middle[k]) == (LinesOf(Fields(nodes[k].headers)), Reread(nodes[k].body, intended))
    {
      ReadPart(nodes[k], outs[k], intended);
    }
  }

  /** One written part, with a line break more or not, splits into its header lines and its body. */
  lemma ReadPart(n: Node, out: string, intended: bool)
    requires Written(n, out) && Safe(n)
    ensures SplitMessage(Reread(out, intended)) == (LinesOf(Fields(n.headers)), Reread(n.body, intended))
  {
    var fs := Fields(n.headers);
    var body := Reread(n.body, intended);
    assert out == LinesOf(fs) + "\r\n" + n.body by {
      HeaderLinesSpec(n.headers);
    }
    assert Reread(out, intended) == LinesOf(fs) + "\r\n" + body;
    ReadHeaderBlock(fs, body);
  }

  /** A part whose header block can be read back: at least one header line, none with a line feed. */
  predicate Safe(n: Node) {
    var fs := Fields(n.headers);
    fs != [] && forall i :: 0 <= i < |fs| ==> LineSafe(fs[i])
  }

  /**
   * A multipart node written by `to_s` and split again by `Mime#initialize` with
   * the boundary its `Content-Type` now carries: the preamble and the epilogue come
   * back, there is one fragment per part, and each fragment splits into the part's
   * header lines and its body, followed by a line break as written and by nothing
   * as intended. The conditions are those under which reading back can succeed: the
   * delimiter occurs in no written part, each part writes a header line and none
   * with a line feed, the preamble does not start with a line break and the
   * epilogue does not end with a line feed.
   */
  lemma MultipartReadBack(t: Node, c: nat, env: Env, intended: bool, path: seq<nat>, p: string, a: Attrs,
                          preamble: string, epilogue: string)
    requires IsMultipart(t.contentType) && t.parts.Split?
    requires Get(t.headers, ContentType) != [] && SplitHeader(Get(t.headers, ContentType)[0]) == Some((p, a))
    requires p != [] && Writable(a)
    requires Serialize(t, c, env, intended, path).out.Success?
    requires t.preamble == Some(preamble) && t.epilogue == Some(epilogue)
    requires Lead(preamble) == 0 && (epilogue == [] || epilogue[|epilogue| - 1] != '\n')
    requires var b := MakeBoundary(c + 1, env.identity(path), env.time);
      var ps := SerializeParts(t, 0, c + 1, env, intended, path);
      && Free(preamble, "--" + b) && Free(epilogue, "--" + b)
      && ps.outs.Success?
      && (forall k :: 0 <= k < |ps.outs.value| ==> Free(ps.outs.value[k], "--" + b))
      && (forall k :: 0 <= k < |ps.nodes| ==> Safe(ps.nodes[k]))
    ensures var r := Serialize(t, c, env, intended, path);
      var b := MakeBoundary(c + 1, env.identity(path), env.time);
      var l := SplitBody(r.node.body, b);
      var vs := Get(r.node.headers, ContentType);
      && vs != [] && SplitHeader(vs[0]).Some? && Lookup(SplitHeader(vs[0]).value.1, "boundary") == Some(b)
      && r.node.parts.Split? && |r.node.parts.nodes| == |t.parts.nodes|
      && l.preamble == Some(preamble) && l.epilogue == Some(epilogue) && |l.middle| == |t.parts.nodes|
      && forall k :: 0 <= k < |l.middle| ==>
           SplitMessage(l.middle[k]) == (LinesOf(Fields(r.node.parts.nodes[k].headers)), Reread(r.node.parts.nodes[k].body, intended))
  {
    var b := MakeBoundary(c + 1, env.identity(path), env.time);
    var ps := SerializeParts(t, 0, c + 1, env, intended, path);
    MultipartBoundary(t, c, env, intended, path, p, a);
    MultipartParts(t, c, env, intended, path);
    BoundaryNoBreak(c + 1, env.identity(path), env.time);
    PartsReadBack(preamble, ps.outs.value, ps.nodes, epilogue, b, intended);
  }

  /** A multipart node that is written has its parts in their new state. */
  lemma MultipartParts(t: Node, c: nat, env: Env, intended: bool, path: seq<nat>)
    requires IsMultipart(t.contentType) && t.parts.Split?
    ensures Serialize(t, c, env, intended, path).node.parts == Split(SerializeParts(t, 0, c + 1, env, intended, path).nodes)
  {
    assert Serialize(t, c, env, intended, path) == SerializeMultipart(t, c, env, intended, path);
  }

  /**
   * As written, every part read back has gained a line break: `to_s` writes
   * `"\r\n" + part + "\r\n"` before the next delimiter's own `"\r\n"`, and the
   * parser takes off only one line break on each side.
   */
  lemma PartBodyGainsBreak(t: Node, c: nat, env: Env, path: seq<nat>, p: string, a: Attrs,
                           preamble: string, epilogue: string)
    requires IsMultipart(t.contentType) && t.parts.Split?
    requires Get(t.headers, ContentType) != [] && SplitHeader(Get(t.headers, ContentType)[0]) == Some((p, a))
    requires p != [] && Writable(a)
    requires Serialize(t, c, env, false, path).out.Success?
    requires t.preamble == Some(preamble) && t.epilogue == Some(epilogue)
    requires Lead(preamble) == 0 && (epilogue == [] || epilogue[|epilogue| - 1] != '\n')
    requires var b := MakeBoundary(c + 1, env.identity(path), env.time);
      var ps := SerializeParts(t, 0, c + 1, env, false, path);
      && Free(preamble, "--" + b) && Free(epilogue, "--" + b)
      && ps.outs.Success?
      && (forall k :: 0 <= k < |ps.outs.value| ==> Free(ps.outs.value[k], "--" + b))
      && (forall k :: 0 <= k < |ps.nodes| ==> Safe(ps.nodes[k]))
    ensures var r := Serialize(t, c, env, false, path);
      var l := SplitBody(r.node.body, MakeBoundary(c + 1, env.identity(path), env.time));
      && r.node.parts.Split? && |l.middle| == |r.node.parts.nodes|
      && forall k :: 0 <= k < |l.middle| ==>
           SplitMessage(l.middle[k]).1 == r.node.parts.nodes[k].body + "\r\n"
  {
    MultipartReadBack(t, c, env, false, path, p, a, preamble, epilogue);
  }

  /**
   * As intended, a multipart node written and read back has the same preamble,
   * epilogue and number of parts, and each part the header block and the body it
   * was written with.
   */
  lemma PartsRoundTrip(t: Node, c: nat, env: Env, path: seq<nat>, p: string, a: Attrs,
                       preamble: string, epilogue: string)
    requires IsMultipart(t.contentType) && t.parts.Split?
    requires Get(t.headers, ContentType) != [] && SplitHeader(Get(t.headers, ContentType)[0]) == Some((p, a))
    requires p != [] && Writable(a)
    requires Serialize(t, c, env, true, path).out.Success?
    requires t.preamble == Some(preamble) && t.epilogue == Some(epilogue)
    requires Lead(preamble) == 0 && (epilogue == [] || epilogue[|epilogue| - 1] != '\n')
    requires var b := MakeBoundary(c + 1, env.identity(path), env.time);
      var ps := SerializeParts(t, 0, c + 1, env, true, path);
      && Free(preamble, "--" + b) && Free(epilogue, "--" + b)
      && ps.outs.Success?
      && (forall k :: 0 <= k < |ps.outs.value| ==> Free(ps.outs.value[k], "--" + b))
      && (forall k :: 0 <= k < |ps.nodes| ==> Safe(ps.nodes[k]))
    ensures var r := Serialize(t, c, env, true, path);
      var l := SplitBody(r.node.body, MakeBoundary(c + 1, env.identity(path), env.time));
      && l.preamble == t.preamble && l.epilogue == t.epilogue
      && r.node.parts.Split? && |l.middle| == |r.node.parts.nodes| == |t.parts.nodes|
      && forall k :: 0 <= k < |l.middle| ==>
           SplitMessage(l.middle[k]) == (LinesOf(Fields(r.node.parts.nodes[k].headers)), r.node.parts.nodes[k].body)
  {
    MultipartReadBack(t, c, env, true, path, p, a, preamble, epilogue);
  }
}
