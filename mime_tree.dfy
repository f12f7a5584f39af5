/**
 * A MIME entity as a value, and what `Mime#initialize` and `Mime#to_s` do to one,
 * written as functions. The `Mime` class of the object model is proved to follow
 * these functions.
 */
module MimeTree {
  import opened Wrappers
  import opened Text
  import opened Assoc
  import opened HeaderParams
  import opened HeaderMap
  import opened Multipart
  import opened Boundary

  /**
   * The state of one `Mime` object. `None` stands for a nil instance variable:
   * `parts`, `preamble` and `epilogue` stay nil unless the body was split.
   */
  datatype Node = Node(
    headers: Headers,
    body: string,
    contentType: Option<string>,
    parts: Parts,
    preamble: Option<string>,
    epilogue: Option<string>)

  /** `@parts`: nil, or the parsed children in order. */
  datatype Parts = Unsplit | Split(nodes: seq<Node>)

  const ContentType: string := "Content-Type"

  /** `multipart?`: a content type with a line that begins with `multipart`, in that case. */
  predicate IsMultipart(ct: Option<string>) {
    ct.Some? && LineStartsWith(ct.value, "multipart")
  }

  /** A content type of one line is multipart exactly when it begins with `multipart`. */
  lemma MultipartPrefix(ct: string)
    requires '\n' !in ct
    ensures IsMultipart(Some(ct)) <==> "multipart" <= ct
  {
    SingleLineStartsWith(ct, "multipart");
  }

  /** The match is case-sensitive: a capitalised type is not multipart. */
  lemma MultipartCaseSensitive()
    ensures !IsMultipart(Some("Multipart/mixed"))
    ensures IsMultipart(Some("multipart/mixed"))
  {
    MultipartPrefix("Multipart/mixed");
    MultipartPrefix("multipart/mixed");
    assert "Multipart/mixed"[0] != "multipart"[0];
    assert "multipart/mixed"[..9] == "multipart";
  }

  // ---------------------------------------------------------------------------
  // Parsing: `Mime.new(str)`.

  /** The exceptions `Mime.new` can raise. */
  datatype ParseError =
    | MalformedContentType  // `split_header` calls `strip` on nil
    | MissingBoundary       // "no boundary for multipart message"

  /** The content type and its attributes, from the first `Content-Type` value if any. */
  function ContentTypeOf(h: Headers): Result<(Option<string>, Attrs), ParseError> {
    var vs := Get(h, ContentType);
    if vs == [] then Success((None, []))
    else
      var sh := SplitHeader(vs[0]);
      if sh.None? then Failure(MalformedContentType) else Success((Some(sh.value.0), sh.value.1))
  }

  /** `Mime.new(s, ignoreBody)`. */
  function Parse(s: string, ignoreBody: bool): Result<Node, ParseError>
    decreases |s|, 1
  {
    var (block, body) := SplitMessage(s);
    var h := Touch(Parsed(block), ContentType);
    var ct := ContentTypeOf(h);
    if ct.Failure? then Failure(ct.error)
    else
      var (contentType, attrs) := ct.value;
      if ignoreBody || !IsMultipart(contentType) then
        Success(Node(h, body, contentType, Unsplit, None, None))
      else if body == [] then
        Success(Node(h, body, contentType, Split([]), Some(""), Some("")))
      else
        var boundary := Lookup(attrs, "boundary");
        if boundary.None? then Failure(MissingBoundary)
        else
          var layout := SplitBody(body, boundary.value);
          BodyShorter(s);
          var children := ParseAll(layout.middle, |s|);
          if children.Failure? then Failure(children.error)
          else Success(Node(h, body, contentType, Split(children.value), layout.preamble, layout.epilogue))
  }

  /** `parts.map { |part| Mime.new part }`: the first exception stops the map. */
  function ParseAll(fs: seq<string>, bound: nat): (r: Result<seq<Node>, ParseError>)
    requires forall i :: 0 <= i < |fs| ==> |fs[i]| < bound
    ensures r.Success? ==> |r.value| == |fs|
    decreases bound, 0, |fs|
  {
    if fs == [] then Success([])
    else
      var first := Parse(fs[0], false);
      if first.Failure? then Failure(first.error)
      else
        var rest := ParseAll(fs[1..], bound);
        if rest.Failure? then rest else Success([first.value] + rest.value)
  }

  /**
   * When the body is ignored or the type is not multipart, `Mime.new` keeps the
   * body whole: no parts, nil preamble and epilogue. The `[0]` lookup has left a
   * `Content-Type` key behind.
   */
  lemma ParseUnsplit(s: string, ignoreBody: bool)
    requires var ct := ContentTypeOf(Touch(Parsed(SplitMessage(s).0), ContentType));
      ct.Success? && (ignoreBody || !IsMultipart(ct.value.0))
    ensures Parse(s, ignoreBody).Success?
    ensures Parse(s, ignoreBody).value.parts == Unsplit
    ensures Parse(s, ignoreBody).value.body == SplitMessage(s).1
    ensures Parse(s, ignoreBody).value.preamble.None? && Parse(s, ignoreBody).value.epilogue.None?
    ensures ContentType in Keys(Parse(s, ignoreBody).value.headers)
  {
    TouchHasKey(Parsed(SplitMessage(s).0), ContentType);
  }

  /** `h[name]` with a default leaves `name` among the keys. */
  lemma TouchHasKey(h: Headers, name: string)
    ensures name in Keys(Touch(h, name))
  {
    TouchSpec(h, name);
  }

  /** The body is shorter than the message it comes from. */
  lemma BodyShorter(s: string)
    ensures |SplitMessage(s).1| < |s| || SplitMessage(s).1 == []
  {
    var e := HeaderEnd(s, 1);
    if e.Some? {
      assert |SplitMessage(s).1| <= |s| - e.value;
    }
  }

  /** A multipart message with an empty body has no parts, and empty preamble and epilogue. */
  lemma ParseEmptyMultipart(s: string)
    requires SplitMessage(s).1 == []
    requires var ct := ContentTypeOf(Touch(Parsed(SplitMessage(s).0), ContentType));
      ct.Success? && IsMultipart(ct.value.0)
    ensures Parse(s, false).Success?
    ensures Parse(s, false).value.parts == Split([])
    ensures Parse(s, false).value.preamble == Some("") && Parse(s, false).value.epilogue == Some("")
  {
  }

  /** A non-empty multipart body without a `boundary` attribute raises, and no node is made. */
  lemma ParseMissingBoundary(s: string)
    requires SplitMessage(s).1 != []
    requires var ct := ContentTypeOf(Touch(Parsed(SplitMessage(s).0), ContentType));
      ct.Success? && IsMultipart(ct.value.0) && Lookup(ct.value.1, "boundary").None?
    ensures Parse(s, false) == Failure(MissingBoundary)
  {
  }

  /**
   * A non-empty multipart body with a boundary: the first fragment is the preamble,
   * the last the epilogue, and each fragment in between is parsed, in order, into
   * one child; there are two children fewer than fragments.
   */
  lemma ParseMultipart(s: string, boundary: string)
    requires SplitMessage(s).1 != []
    requires var ct := ContentTypeOf(Touch(Parsed(SplitMessage(s).0), ContentType));
      ct.Success? && IsMultipart(ct.value.0) && Lookup(ct.value.1, "boundary") == Some(boundary)
    requires Parse(s, false).Success?
    ensures var body := SplitMessage(s).1;
      var fs := TrimAll(CloseLast(Fragments(body, boundary)));
      var t := Parse(s, false).value;
      && t.body == body
      && t.parts.Split?
      && |t.parts.nodes| == (if |fs| >= 2 then |fs| - 2 else 0)
      && t.preamble == (if |fs| >= 1 then Some(fs[0]) else None)
      && t.epilogue == (if |fs| >= 2 then Some(fs[|fs| - 1]) else None)
      && forall i :: 0 <= i < |t.parts.nodes| ==> Parse(fs[i + 1], false) == Success(t.parts.nodes[i])
  {
    var body := SplitMessage(s).1;
    var ts := ParseMultipartLayout(s, boundary);
    var fs := TrimAll(CloseLast(Fragments(body, boundary)));
    assert SplitBody(body, boundary) == Arrange(fs);
  }

  /** The same node in terms of the layout of the body: its children are the middle fragments parsed. */
  lemma ParseMultipartLayout(s: string, boundary: string) returns (ts: seq<Node>)
    requires SplitMessage(s).1 != []
    requires var ct := ContentTypeOf(Touch(Parsed(SplitMessage(s).0), ContentType));
      ct.Success? && IsMultipart(ct.value.0) && Lookup(ct.value.1, "boundary") == Some(boundary)
    requires Parse(s, false).Success?
    ensures var layout := SplitBody(SplitMessage(s).1, boundary);
      var t := Parse(s, false).value;
      && t.body == SplitMessage(s).1
      && t.parts == Split(ts)
      && t.preamble == layout.preamble && t.epilogue == layout.epilogue
      && |ts| == |layout.middle|
      && forall i :: 0 <= i < |ts| ==> Parse(layout.middle[i], false) == Success(ts[i])
  {
    var layout := SplitBody(SplitMessage(s).1, boundary);
    BodyShorter(s);
    var children := ParseAll(layout.middle, |s|);
    assert children.Success?;
    ts := children.value;
    ParseAllSpec(layout.middle, |s|);
  }

  lemma {:induction false} ParseAllSpec(fs: seq<string>, bound: nat)
    requires forall i :: 0 <= i < |fs| ==> |fs[i]| < bound
    requires ParseAll(fs, bound).Success?
    ensures forall i :: 0 <= i < |fs| ==> Parse(fs[i], false) == Success(ParseAll(fs, bound).value[i])
    decreases |fs|
  {
    if fs != [] {
      ParseAllSpec(fs[1..], bound);
      forall i | 0 < i < |fs| ensures Parse(fs[i], false) == Success(ParseAll(fs, bound).value[i]) {
        assert fs[i] == fs[1..][i - 1];
      }
    }
  }

  /** The first part that fails to parse decides the error of the whole map. */
  lemma {:induction false} ParseAllFirstFailure(fs: seq<string>, bound: nat, i: nat)
    requires forall k :: 0 <= k < |fs| ==> |fs[k]| < bound
    requires i < |fs| && Parse(fs[i], false).Failure?
    requires forall k :: 0 <= k < i ==> Parse(fs[k], false).Success?
    ensures ParseAll(fs, bound) == Failure(Parse(fs[i], false).error)
    decreases i
  {
    if i > 0 {
      TailParsesBefore(fs, i);
      ParseAllFirstFailure(fs[1..], bound, i - 1);
      ParseAllSkip(fs, bound);
    }
  }

  /** Dropping the first part shifts "every part before `i` parses" down by one. */
  lemma TailParsesBefore(fs: seq<string>, i: nat)
    requires 0 < i < |fs|
    requires forall k :: 0 <= k < i ==> Parse(fs[k], false).Success?
    ensures forall k :: 0 <= k < i - 1 ==> Parse(fs[1..][k], false).Success?
    ensures fs[1..][i - 1] == fs[i]
  {
    forall k | 0 <= k < i - 1 ensures Parse(fs[1..][k], false).Success? {
      assert fs[1..][k] == fs[k + 1];
    }
  }

  /** After a part that parses, a failure further on is the failure of the whole map. */
  lemma ParseAllSkip(fs: seq<string>, bound: nat)
    requires forall k :: 0 <= k < |fs| ==> |fs[k]| < bound
    requires fs != [] && Parse(fs[0], false).Success? && ParseAll(fs[1..], bound).Failure?
    ensures ParseAll(fs, bound) == ParseAll(fs[1..], bound)
  {
  }

  /** When every part parses, so does the map. */
  lemma {:induction false} ParseAllSuccess(fs: seq<string>, bound: nat)
    requires forall k :: 0 <= k < |fs| ==> |fs[k]| < bound
    requires forall k :: 0 <= k < |fs| ==> Parse(fs[k], false).Success?
    ensures ParseAll(fs, bound).Success?
    decreases |fs|
  {
    if fs != [] {
      forall k | 0 <= k < |fs| - 1 ensures Parse(fs[1..][k], false).Success? {
        assert fs[1..][k] == fs[k + 1];
      }
      ParseAllSuccess(fs[1..], bound);
    }
  }

  /** The parts already parsed, in front of what the rest of the map gives. */
  function Prefixed(ts: seq<Node>, r: Result<seq<Node>, ParseError>): Result<seq<Node>, ParseError> {
    if r.Failure? then r else Success(ts + r.value)
  }

  /** One step of the map over the fragments from the `i`-th on. */
  lemma ParseAllStep(fs: seq<string>, bound: nat, i: nat)
    requires forall k :: 0 <= k < |fs| ==> |fs[k]| < bound
    requires i < |fs|
    ensures var first := Parse(fs[i], false);
      ParseAll(fs[i..], bound) == if first.Failure? then Failure(first.error) else Prefixed([first.value], ParseAll(fs[i + 1..], bound))
  {
    assert fs[i..][0] == fs[i];
    assert fs[i..][1..] == fs[i + 1..];
  }

  lemma PrefixedEmpty(r: Result<seq<Node>, ParseError>)
    ensures Prefixed([], r) == r
  {
    if r.Success? {
      assert [] + r.value == r.value;
    }
  }

  lemma PrefixedAppend(a: seq<Node>, b: seq<Node>, r: Result<seq<Node>, ParseError>)
    ensures Prefixed(a, Prefixed(b, r)) == Prefixed(a + b, r)
  {
    if r.Success? {
      assert a + (b + r.value) == (a + b) + r.value;
    }
  }

  // ---------------------------------------------------------------------------
  // Serialising: `to_s`.

  /** The exceptions `to_s` can raise. */
  datatype SerError =
    | NoParts                 // `parts.map` on nil
    | NoEpilogue              // `"--\r\n" + epilogue` with a nil epilogue
    | NoContentType           // `split_header` on a nil `Content-Type`
    | BadContentType          // `split_header` calls `strip` on nil
    | NonAsciiHeader(e: EmitError)  // `encode("ASCII")`

  /**
   * What `to_s` reads from outside the tree: the encoding name of the bodies, the
   * object identity of the node at each position of the tree, and the clock.
   */
  datatype Env = Env(encodingName: string, identity: seq<nat> -> nat, time: nat)

  /**
   * One call: the text or the exception, the node's new state (changed even when
   * an exception is raised part way), the counter after this call's own increment
   * (as intended, after its parts' increments too; as written, the caller keeps its
   * own copy and ignores it), and the counters of the boundaries made, in order.
   */
  datatype Ser = Ser(out: Result<string, SerError>, node: Node, next: nat, used: seq<nat>)

  /** The same for the parts: their texts, their new states, the counter and the counters used. */
  datatype PartsSer = PartsSer(outs: Result<seq<string>, SerError>, nodes: seq<Node>, next: nat, used: seq<nat>)

  /** Every counter in `u` lies in `(lo, hi]`. */
  predicate Within(u: seq<nat>, lo: nat, hi: nat) {
    forall k :: 0 <= k < |u| ==> lo < u[k] <= hi
  }

  /** `j` comes before `k` in `u`. */
  predicate Before(u: seq<nat>, j: int, k: int) {
    0 <= j < k < |u|
  }

  /** The counters in `u` strictly increase, so no two are equal. */
  ghost predicate Increasing(u: seq<nat>) {
    forall j, k {:trigger Before(u, j, k)} :: Before(u, j, k) ==> u[j] < u[k]
  }

  /** Two runs of counters, the second above the first, make one increasing run. */
  lemma IncreasingJoin(a: seq<nat>, b: seq<nat>, lo: nat, mid: nat, hi: nat)
    requires lo <= mid <= hi
    requires Within(a, lo, mid) && Increasing(a) && Within(b, mid, hi) && Increasing(b)
    ensures Within(a + b, lo, hi) && Increasing(a + b)
  {
    var u := a + b;
    forall k | 0 <= k < |u| ensures lo < u[k] <= hi {
      if k < |a| {
        assert u[k] == a[k];
      } else {
        assert u[k] == b[k - |a|];
      }
    }
    forall j, k | Before(u, j, k) ensures u[j] < u[k] {
      if k < |a| {
        assert Before(a, j, k);
      } else if |a| <= j {
        assert Before(b, j - |a|, k - |a|);
      }
    }
  }

  /** `content_type.split("/").first == "text"`. */
  predicate IsText(ct: string) {
    ct[..IndexOf(ct, '/')] == "text"
  }

  /** `([content_type] + attrs.map { |key, val| %{#{key}="#{val}"} }).join('; ')` with one attribute set. */
  function Rewrite(raw: string, key: string, value: string): Option<string> {
    var sh := SplitHeader(raw);
    if sh.None? then None else Some(JoinHeader(sh.value.0, Put(sh.value.1, key, value)))
  }

  /**
   * `"\r\n" + part.to_s(opts) + "\r\n"` for each written part; as intended, without
   * the second line break.
   */
  function Wrapped(outs: seq<string>, intended: bool): seq<string>
    ensures |Wrapped(outs, intended)| == |outs|
  {
    if outs == [] then []
    else ["\r\n" + outs[0] + (if intended then "" else "\r\n")] + Wrapped(outs[1..], intended)
  }

  /** `[preamble, parts…, "--\r\n" + epilogue].flatten.join("\r\n--" + boundary)`. */
  function MultipartBody(preamble: Option<string>, outs: seq<string>, epilogue: string, boundary: string, intended: bool): string {
    Join([preamble.GetOr("")] + Wrapped(outs, intended) + ["--\r\n" + epilogue], "\r\n--" + boundary)
  }

  /** The header lines, a blank line, then the body. */
  function Emit(t: Node): (r: Result<string, SerError>)
    ensures r.Success? ==> HeaderLines(t.headers).Success? && r.value == HeaderLines(t.headers).value + "\r\n" + t.body
  {
    var lines := HeaderLines(t.headers);
    if lines.Failure? then Failure(NonAsciiHeader(lines.error)) else Success(lines.value + "\r\n" + t.body)
  }

  /** The shape every step of `to_s` keeps: content type, preamble and epilogue stay as they were. */
  predicate Keeps(t: Node, t': Node) {
    t'.contentType == t.contentType && t'.preamble == t.preamble && t'.epilogue == t.epilogue
  }

  /**
   * `to_s(opts)` on node `t` at position `path`, with `c` the counter in `opts`.
   * `intended` is `false` for the code as written: each call works on its own copy
   * of the counter made by `merge`, so what a part advances is lost to the parts
   * after it, and each part is written between two line breaks. `true` is the
   * behaviour the code evidently means: the counter is shared through the whole
   * call, and each part is written after one line break only, the one before the
   * next delimiter being the delimiter's own, so that reading the body back gives
   * the part text unchanged.
   */
  function Serialize(t: Node, c: nat, env: Env, intended: bool, path: seq<nat>): (r: Ser)
    ensures r.next >= c
    ensures intended ==> Within(r.used, c, r.next) && Increasing(r.used)
    ensures IsMultipart(t.contentType) ==> r.used != [] && r.used[0] == c + 1
    ensures !IsMultipart(t.contentType) ==> r.used == [] && r.next == c && r.node.body == t.body && r.node.parts == t.parts
    ensures Keeps(t, r.node)
    ensures r.out.Success? ==>
              HeaderLines(r.node.headers).Success? && r.out.value == HeaderLines(r.node.headers).value + "\r\n" + r.node.body
    decreases t, 2
  {
    if IsMultipart(t.contentType) then SerializeMultipart(t, c, env, intended, path)
    else
      var (out, node) := SerializeLeaf(t, env.encodingName);
      Ser(out, node, c, [])
  }

  /** The branch of `to_s` for a node that is not multipart: only a `text/…` type is rewritten. */
  function SerializeLeaf(t: Node, encodingName: string): (r: (Result<string, SerError>, Node))
    ensures r.1.body == t.body && r.1.parts == t.parts && Keeps(t, r.1)
    ensures r.0.Success? ==> HeaderLines(r.1.headers).Success? && r.0.value == HeaderLines(r.1.headers).value + "\r\n" + r.1.body
  {
    var h := Touch(t.headers, ContentType);
    var t1 := t.(headers := h);
    var vs := Get(h, ContentType);
    if vs == [] then (Emit(t1), t1)
    else
      var sh := SplitHeader(vs[0]);
      if sh.None? then (Failure(BadContentType), t1)
      else if !IsText(sh.value.0) then (Emit(t1), t1)
      else
        var t2 := t1.(headers := Put(h, ContentType, [JoinHeader(sh.value.0, Put(sh.value.1, "charset", encodingName))]));
        (Emit(t2), t2)
  }

  /** The branch of `to_s` for a multipart node. */
  function SerializeMultipart(t: Node, c: nat, env: Env, intended: bool, path: seq<nat>): (r: Ser)
    requires IsMultipart(t.contentType)
    ensures r.next >= c
    ensures intended ==> Within(r.used, c, r.next) && Increasing(r.used)
    ensures r.used != [] && r.used[0] == c + 1
    ensures Keeps(t, r.node)
    ensures r.out.Success? ==>
              HeaderLines(r.node.headers).Success? && r.out.value == HeaderLines(r.node.headers).value + "\r\n" + r.node.body
    decreases t, 1
  {
    var c1 := c + 1;
    if t.parts.Unsplit? then Ser(Failure(NoParts), t, c1, [c1])
    else
      var ps := SerializeParts(t, 0, c1, env, intended, path);
      var t1 := t.(parts := Split(ps.nodes));
      // As written, the parts' increments are lost to the caller's copy (`merge`).
      var next := if intended then ps.next else c1;
      var used := [c1] + ps.used;
      assert intended ==> Within(used, c, next) && Increasing(used) by {
        if intended {
          IncreasingJoin([c1], ps.used, c, c1, next);
        }
      }
      if ps.outs.Failure? then Ser(Failure(ps.outs.error), t1, next, used)
      else
        var (out, node) := Assemble(t1, ps.outs.value, MakeBoundary(c1, env.identity(path), env.time), intended);
        Ser(out, node, next, used)
  }

  /**
   * The rest of the multipart branch once the parts are written: join the body
   * around `boundary`, then set `boundary` in the `Content-Type` header.
   */
  function Assemble(t: Node, outs: seq<string>, boundary: string, intended: bool): (r: (Result<string, SerError>, Node))
    ensures Keeps(t, r.1) && r.1.parts == t.parts
    ensures r.0.Success? ==> HeaderLines(r.1.headers).Success? && r.0.value == HeaderLines(r.1.headers).value + "\r\n" + r.1.body
  {
    if t.epilogue.None? then (Failure(NoEpilogue), t)
    else
      var h := Touch(t.headers, ContentType);
      var t1 := t.(body := MultipartBody(t.preamble, outs, t.epilogue.value, boundary, intended), headers := h);
      var vs := Get(h, ContentType);
      if vs == [] then (Failure(NoContentType), t1)
      else
        var ct := Rewrite(vs[0], "boundary", boundary);
        if ct.None? then (Failure(BadContentType), t1)
        else
          var t2 := t1.(headers := Put(h, ContentType, [ct.value]));
          (Emit(t2), t2)
  }

  /** `part.to_s(opts)` for each part from the `i`-th on; `Wrapped` adds the line breaks around them. */
  function SerializeParts(t: Node, i: nat, c: nat, env: Env, intended: bool, path: seq<nat>): (r: PartsSer)
    requires t.parts.Split? && i <= |t.parts.nodes|
    ensures |r.nodes| == |t.parts.nodes| - i
    ensures r.outs.Success? ==> |r.outs.value| == |t.parts.nodes| - i
    ensures r.next >= c
    ensures intended ==> Within(r.used, c, r.next) && Increasing(r.used)
    ensures r.outs.Success? ==> forall k :: 0 <= k < |r.outs.value| ==>
              HeaderLines(r.nodes[k].headers).Success? && r.outs.value[k] == HeaderLines(r.nodes[k].headers).value + "\r\n" + r.nodes[k].body
    decreases t, 0, |t.parts.nodes| - i
  {
    var ts := t.parts.nodes;
    if i == |ts| then PartsSer(Success([]), [], c, [])
    else
      assert ts[i] in ts;
      var first := Serialize(ts[i], c, env, intended, path + [i]);
      if first.out.Failure? then
        PartsSer(Failure(first.out.error), [first.node] + ts[i + 1..], first.next, first.used)
      else
        var rest := SerializeParts(t, i + 1, if intended then first.next else c, env, intended, path);
        var outs := if rest.outs.Failure? then Failure(rest.outs.error) else Success([first.out.value] + rest.outs.value);
        assert intended ==> Within(first.used + rest.used, c, rest.next) && Increasing(first.used + rest.used) by {
          if intended {
            IncreasingJoin(first.used, rest.used, c, first.next, rest.next);
          }
        }
        PartsSer(outs, [first.node] + rest.nodes, if intended then rest.next else c, first.used + rest.used)
  }

  /** The results of the parts before some position, put in front of those from it on. */
  function Prepend(outs: seq<string>, nodes: seq<Node>, used: seq<nat>, r: PartsSer): (p: PartsSer)
    ensures p.next == r.next && p.nodes == nodes + r.nodes && p.used == used + r.used
    ensures p.outs.Success? <==> r.outs.Success?
  {
    PartsSer(if r.outs.Failure? then Failure(r.outs.error) else Success(outs + r.outs.value), nodes + r.nodes, r.next, used + r.used)
  }

  lemma PrependEmpty(r: PartsSer)
    ensures Prepend([], [], [], r) == r
  {
    assert [] + r.nodes == r.nodes && [] + r.used == r.used;
    if r.outs.Success? {
      assert [] + r.outs.value == r.outs.value;
    }
  }

  lemma PrependPrepend(outs: seq<string>, nodes: seq<Node>, used: seq<nat>,
                       outs': seq<string>, nodes': seq<Node>, used': seq<nat>, r: PartsSer)
    ensures Prepend(outs, nodes, used, Prepend(outs', nodes', used', r)) == Prepend(outs + outs', nodes + nodes', used + used', r)
  {
    assert nodes + (nodes' + r.nodes) == nodes + nodes' + r.nodes;
    assert used + (used' + r.used) == used + used' + r.used;
    if r.outs.Success? {
      assert outs + (outs' + r.outs.value) == outs + outs' + r.outs.value;
    }
  }

  /** With the counter shared, writing the parts from `i` on is writing the `i`-th, then the rest after it. */
  lemma SerializePartsStep(t: Node, i: nat, c: nat, env: Env, path: seq<nat>)
    requires t.parts.Split? && i < |t.parts.nodes|
    ensures var first := Serialize(t.parts.nodes[i], c, env, true, path + [i]);
      SerializeParts(t, i, c, env, true, path)
        == if first.out.Failure? then PartsSer(Failure(first.out.error), [first.node] + t.parts.nodes[i + 1..], first.next, first.used)
           else Prepend([first.out.value], [first.node], first.used, SerializeParts(t, i + 1, first.next, env, true, path))
  {
  }

  /**
   * One more part written, with the counter shared: an exception ends the parts
   * with that part's state in place and the rest untouched; otherwise its text
   * joins the ones before it.
   */
  lemma SerializePartsGlue(t: Node, c: nat, env: Env, path: seq<nat>, i: nat, next: nat,
                           acc: seq<string>, done: seq<Node>, used: seq<nat>)
    requires t.parts.Split? && i < |t.parts.nodes|
    requires SerializeParts(t, 0, c, env, true, path) == Prepend(acc, done, used, SerializeParts(t, i, next, env, true, path))
    ensures var first := Serialize(t.parts.nodes[i], next, env, true, path + [i]);
      var whole := SerializeParts(t, 0, c, env, true, path);
      if first.out.Failure? then
        whole == PartsSer(Failure(first.out.error), done + [first.node] + t.parts.nodes[i + 1..], first.next, used + first.used)
      else
        whole == Prepend(acc + [first.out.value], done + [first.node], used + first.used, SerializeParts(t, i + 1, first.next, env, true, path))
  {
    var first := Serialize(t.parts.nodes[i], next, env, true, path + [i]);
    SerializePartsStep(t, i, next, env, path);
    if first.out.Failure? {
      assert done + ([first.node] + t.parts.nodes[i + 1..]) == done + [first.node] + t.parts.nodes[i + 1..];
    } else {
      PrependPrepend(acc, done, used, [first.out.value], [first.node], first.used, SerializeParts(t, i + 1, first.next, env, true, path));
    }
  }

  /** All the parts written: the texts, states and counters gathered on the way. */
  lemma SerializePartsDone(t: Node, c: nat, env: Env, path: seq<nat>, next: nat,
                           acc: seq<string>, done: seq<Node>, used: seq<nat>)
    requires t.parts.Split?
    requires SerializeParts(t, 0, c, env, true, path)
      == Prepend(acc, done, used, SerializeParts(t, |t.parts.nodes|, next, env, true, path))
    ensures SerializeParts(t, 0, c, env, true, path) == PartsSer(Success(acc), done, next, used)
  {
    assert acc + [] == acc && done + [] == done && used + [] == used;
  }

  // ---------------------------------------------------------------------------
  // The `Content-Type` rewrites.

  /** A boundary can be written as a quoted attribute value. */
  lemma BoundaryUnquoted(counter: nat, identity: nat, time: nat)
    ensures '"' !in MakeBoundary(counter, identity, time)
  {
    var b := MakeBoundary(counter, identity, time);
    BoundaryPlain(counter, identity, time);
    forall i | 0 <= i < |b| ensures b[i] != '"' {
      assert Plain(b[i]);
    }
  }

  /**
   * Once the parts are written, the body is joined with the delimiter made from
   * `boundary`, and the rewritten `Content-Type` keeps the primary token and the
   * other attributes and carries `boundary="…"` with that same boundary.
   */
  lemma AssembleBoundary(t: Node, outs: seq<string>, boundary: string, intended: bool, p: string, a: Attrs)
    requires Get(t.headers, ContentType) != [] && SplitHeader(Get(t.headers, ContentType)[0]) == Some((p, a))
    requires p != [] && Writable(a) && '"' !in boundary
    requires t.epilogue.Some?
    ensures var t' := Assemble(t, outs, boundary, intended).1;
      var a' := Put(a, "boundary", boundary);
      && t'.body == MultipartBody(t.preamble, outs, t.epilogue.value, boundary, intended)
      && Get(t'.headers, ContentType) == [JoinHeader(p, a')]
      && SplitHeader(Get(t'.headers, ContentType)[0]) == Some((p, a'))
      && Lookup(a', "boundary") == Some(boundary)
      && forall k :: k != "boundary" ==> Lookup(a', k) == Lookup(a, k)
  {
    var h := Touch(t.headers, ContentType);
    TouchSpec(t.headers, ContentType);
    var vs := Get(h, ContentType);
    assert vs == Get(t.headers, ContentType);
    var a' := Put(a, "boundary", boundary);
    SerialiserKeys();
    PutWritable(a, "boundary", boundary);
    SplitHeaderShape(vs[0]);
    PutSpec(a, "boundary", boundary);
    assert Joinable(p, a');
    SplitJoinRoundTrip(p, a');
    assert Rewrite(vs[0], "boundary", boundary) == Some(JoinHeader(p, a'));
    var h' := Put(h, ContentType, [JoinHeader(p, a')]);
    PutSpec(h, ContentType, [JoinHeader(p, a')]);
    assert Get(h', ContentType) == [JoinHeader(p, a')];
    assert Assemble(t, outs, boundary, intended).1.headers == h';
  }

  /**
   * `to_s` on a multipart node that succeeds: the body is the written parts joined
   * around the boundary made from the incremented counter, and the `Content-Type`
   * carries that same boundary.
   */
  lemma MultipartBoundary(t: Node, c: nat, env: Env, intended: bool, path: seq<nat>, p: string, a: Attrs)
    requires IsMultipart(t.contentType)
    requires Get(t.headers, ContentType) != [] && SplitHeader(Get(t.headers, ContentType)[0]) == Some((p, a))
    requires p != [] && Writable(a)
    requires Serialize(t, c, env, intended, path).out.Success?
    ensures t.parts.Split? && t.epilogue.Some?
    ensures var r := Serialize(t, c, env, intended, path);
      var b := MakeBoundary(c + 1, env.identity(path), env.time);
      var ps := SerializeParts(t, 0, c + 1, env, intended, path);
      && CounterOf(b) == Some(c + 1)
      && ps.outs.Success?
      && r.node.body == MultipartBody(t.preamble, ps.outs.value, t.epilogue.value, b, intended)
      && Get(r.node.headers, ContentType) == [JoinHeader(p, Put(a, "boundary", b))]
      && SplitHeader(Get(r.node.headers, ContentType)[0]) == Some((p, Put(a, "boundary", b)))
      && Lookup(Put(a, "boundary", b), "boundary") == Some(b)
  {
    var b := MakeBoundary(c + 1, env.identity(path), env.time);
    var r := Serialize(t, c, env, intended, path);
    assert r == SerializeMultipart(t, c, env, intended, path);
    assert t.parts.Split?;
    var ps := SerializeParts(t, 0, c + 1, env, intended, path);
    assert ps.outs.Success?;
    var t1 := t.(parts := Split(ps.nodes));
    var asm := Assemble(t1, ps.outs.value, b, intended);
    assert r.out == asm.0 && r.node == asm.1;
    assert t1.epilogue.Some? && t1.headers == t.headers && t1.preamble == t.preamble;
    BoundaryUnquoted(c + 1, env.identity(path), env.time);
    AssembleBoundary(t1, ps.outs.value, b, intended, p, a);
    CounterOfMakeBoundary(c + 1, env.identity(path), env.time);
  }

  /**
   * `to_s` on a node that is not multipart and whose content type is `text/…`: the
   * `Content-Type` header carries `charset` set to the encoding name, with the primary
   * token and the other attributes kept; the body and the parts are untouched.
   */
  lemma TextCharset(t: Node, encodingName: string, p: string, a: Attrs)
    requires Get(t.headers, ContentType) != [] && SplitHeader(Get(t.headers, ContentType)[0]) == Some((p, a))
    requires IsText(p) && Writable(a) && '"' !in encodingName
    ensures var t' := SerializeLeaf(t, encodingName).1;
      var a' := Put(a, "charset", encodingName);
      && t'.body == t.body
      && Get(t'.headers, ContentType) == [JoinHeader(p, a')]
      && SplitHeader(Get(t'.headers, ContentType)[0]) == Some((p, a'))
      && Lookup(a', "charset") == Some(encodingName)
      && forall k :: k != "charset" ==> Lookup(a', k) == Lookup(a, k)
  {
    var h := Touch(t.headers, ContentType);
    TouchSpec(t.headers, ContentType);
    var a' := Put(a, "charset", encodingName);
    SerialiserKeys();
    PutWritable(a, "charset", encodingName);
    SplitHeaderShape(Get(t.headers, ContentType)[0]);
    PutSpec(a, "charset", encodingName);
    assert p != [] by {
      assert p[..IndexOf(p, '/')] == "text";
    }
    SplitJoinRoundTrip(p, a');
    PutSpec(h, ContentType, [JoinHeader(p, a')]);
  }

  /**
   * A node that is neither multipart nor text keeps its headers as they were, apart
   * from the `Content-Type` entry the lookup adds when it is missing.
   */
  lemma OtherUnchanged(t: Node, encodingName: string)
    requires var vs := Get(t.headers, ContentType);
      vs == [] || (SplitHeader(vs[0]).Some? && !IsText(SplitHeader(vs[0]).value.0))
    ensures SerializeLeaf(t, encodingName).1 == t.(headers := Touch(t.headers, ContentType))
  {
    TouchSpec(t.headers, ContentType);
  }

  // ---------------------------------------------------------------------------
  // The boundary counter.

  /**
   * As written, the `merge` at the start of `to_s` gives each call its own
   * copy of the counter, so what a part adds is lost to the parts after it: two
   * sibling multipart parts both make their boundary from counter `c + 2`.
   */
  lemma SiblingsShareCounter(t: Node, c: nat, env: Env, path: seq<nat>)
    requires IsMultipart(t.contentType) && t.parts.Split? && |t.parts.nodes| >= 2
    requires IsMultipart(t.parts.nodes[0].contentType) && IsMultipart(t.parts.nodes[1].contentType)
    requires Serialize(t.parts.nodes[0], c + 1, env, false, path + [0]).out.Success?
    ensures var u := Serialize(t, c, env, false, path).used;
      |u| >= 3 && u[0] == c + 1 && u[1] == c + 2 && exists k :: 1 < k < |u| && u[k] == c + 2
  {
    var first := Serialize(t.parts.nodes[0], c + 1, env, false, path + [0]);
    var rest := SerializeParts(t, 1, c + 1, env, false, path);
    MultipartUsed(t, c, env, false, path);
    PartsUsedStep(t, 0, c + 1, env, path);
    PartsUsedHead(t, 1, c + 1, env, path);
    RepeatedCounter(Serialize(t, c, env, false, path).used, first.used, rest.used, c);
  }

  /** The counters `[c + 1] + f + r`, where both `f` and `r` start with `c + 2`, repeat `c + 2`. */
  lemma RepeatedCounter(u: seq<nat>, f: seq<nat>, r: seq<nat>, c: nat)
    requires u == [c + 1] + f + r
    requires f != [] && f[0] == c + 2 && r != [] && r[0] == c + 2
    ensures |u| >= 3 && u[0] == c + 1 && u[1] == c + 2 && exists k :: 1 < k < |u| && u[k] == c + 2
  {
    assert u[1 + |f|] == r[0];
  }

  /** The counters a multipart node uses: its own, then those of its parts. */
  lemma MultipartUsed(t: Node, c: nat, env: Env, intended: bool, path: seq<nat>)
    requires IsMultipart(t.contentType) && t.parts.Split?
    ensures Serialize(t, c, env, intended, path).used == [c + 1] + SerializeParts(t, 0, c + 1, env, intended, path).used
  {
    assert Serialize(t, c, env, intended, path) == SerializeMultipart(t, c, env, intended, path);
  }

  /** As written, a part that is written hands the same counter to the parts after it. */
  lemma PartsUsedStep(t: Node, i: nat, c: nat, env: Env, path: seq<nat>)
    requires t.parts.Split? && i < |t.parts.nodes|
    requires Serialize(t.parts.nodes[i], c, env, false, path + [i]).out.Success?
    ensures SerializeParts(t, i, c, env, false, path).used
      == Serialize(t.parts.nodes[i], c, env, false, path + [i]).used + SerializeParts(t, i + 1, c, env, false, path).used
  {
  }

  /** The counters of the parts from the `i`-th on start with the `i`-th part's own. */
  lemma PartsUsedHead(t: Node, i: nat, c: nat, env: Env, path: seq<nat>)
    requires t.parts.Split? && i < |t.parts.nodes| && IsMultipart(t.parts.nodes[i].contentType)
    ensures var u := SerializeParts(t, i, c, env, false, path).used;
      u != [] && u[0] == c + 1
  {
    var first := Serialize(t.parts.nodes[i], c, env, false, path + [i]);
    assert first.used != [] && first.used[0] == c + 1;
    if first.out.Success? {
      PartsUsedStep(t, i, c, env, path);
    }
  }

  /**
   * With the counter shared through the whole call, every multipart node gets its own
   * counter, so no two boundaries of one message are equal, whatever the object
   * identities and the clock.
   */
  lemma SharedCounterDistinctBoundaries(t: Node, c: nat, env: Env, path: seq<nat>, j: nat, k: nat, id1: nat, id2: nat)
    requires j < k < |Serialize(t, c, env, true, path).used|
    ensures var u := Serialize(t, c, env, true, path).used;
      MakeBoundary(u[j], id1, env.time) != MakeBoundary(u[k], id2, env.time)
  {
    var u := Serialize(t, c, env, true, path).used;
    assert Before(u, j, k);
    DistinctCountersDistinctBoundaries(u[j], u[k], id1, id2, env.time, env.time);
  }
}
