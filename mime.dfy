/**
 * `Mapi::Mime` as an object: a node whose fields `to_s` overwrites, holding the
 * objects of its parts. Each node stands for the `MimeTree.Node` value `Tree()`,
 * and its methods are proved to do what the functions of `MimeTree` say.
 */
module MimeObject {
  import opened Wrappers
  import opened Text
  import opened Assoc
  import opened HeaderParams
  import opened HeaderMap
  import opened Multipart
  import opened Boundary
  import opened MimeTree

  class Mime {
    var headers: Headers
    var body: string
    var contentType: Option<string>
    var parts: Option<seq<Mime>>
    var preamble: Option<string>
    var epilogue: Option<string>

    /** This node and the nodes below it. */
    ghost var Repr: set<object>

    /** Every part is a valid node of its own, below this one, sharing no node with another part. */
    ghost predicate Valid()
      reads this, Repr
      ensures Valid() ==> this in Repr
      decreases Repr, 0
    {
      && this in Repr
      && (parts.Some? ==> PartsValid(parts.value, Repr - {this}))
    }

    /** The value this node and its parts stand for. */
    ghost function Tree(): Node
      reads this, Repr
      requires Valid()
      decreases Repr, 0
    {
      Node(headers, body, contentType,
        if parts.None? then Unsplit else Split(Trees(parts.value, 0, Repr - {this})),
        preamble, epilogue)
    }

    /** A node without parts, as `Mime.new` leaves it when the body is not split. */
    constructor Leaf(headers: Headers, body: string, contentType: Option<string>)
      ensures Valid() && fresh(Repr)
      ensures Tree() == Node(headers, body, contentType, Unsplit, None, None)
    {
      this.headers := headers;
      this.body := body;
      this.contentType := contentType;
      this.parts := None;
      this.preamble := None;
      this.epilogue := None;
      Repr := {this};
    }

    /** A node split into `kids`, which own the objects `R`, as `Mime.new` leaves a multipart message. */
    constructor Multipart(headers: Headers, body: string, contentType: Option<string>, kids: seq<Mime>, ghost R: set<object>,
                      preamble: Option<string>, epilogue: Option<string>)
      requires PartsValid(kids, R)
      ensures Valid() && Repr == {this} + R && fresh(Repr - R)
      ensures Tree() == Node(headers, body, contentType, MimeTree.Split(Trees(kids, 0, R)), preamble, epilogue)
    {
      this.headers := headers;
      this.body := body;
      this.contentType := contentType;
      this.parts := Some(kids);
      this.preamble := preamble;
      this.epilogue := epilogue;
      Repr := {this} + R;
      new;
      assert Repr - {this} == R;
    }

    /**
     * `Mime.new(s, ignoreBody)`: the node made, or the exception raised, is the one
     * `MimeTree.Parse` gives; the new node and its parts are all fresh objects.
     */
    static method Parse(s: string, ignoreBody: bool) returns (r: Result<Mime, ParseError>)
      ensures r.Failure? <==> MimeTree.Parse(s, ignoreBody).Failure?
      ensures r.Failure? ==> r.error == MimeTree.Parse(s, ignoreBody).error
      ensures r.Success? ==> fresh(r.value.Repr) && r.value.Valid() && r.value.Tree() == MimeTree.Parse(s, ignoreBody).value
      decreases |s|, 2
    {
      ghost var spec := MimeTree.Parse(s, ignoreBody);
      var h, body, ct := ReadHead(s);
      if ct.Failure? {
        assert spec == Failure(ct.error);
        return Failure(ct.error);
      }
      var (contentType, attrs) := ct.value;
      if ignoreBody || !IsMultipart(contentType) {
        assert spec == Success(Node(h, body, contentType, Unsplit, None, None));
        var m := new Mime.Leaf(h, body, contentType);
        return Success(m);
      }
      if body == [] {
        assert spec == Success(Node(h, body, contentType, MimeTree.Split([]), Some(""), Some("")));
        var m := new Mime.Multipart(h, body, contentType, [], {}, Some(""), Some(""));
        assert m.Repr - {} == m.Repr;
        return Success(m);
      }
      var boundary := Lookup(attrs, "boundary");
      if boundary.None? {
        assert spec == Failure(MissingBoundary);
        return Failure(MissingBoundary);
      }
      var layout := SplitParts(body, boundary.value);
      BodyShorter(s);
      ghost var children := ParseAll(layout.middle, |s|);
      assert spec == if children.Failure? then Failure(children.error)
        else Success(Node(h, body, contentType, MimeTree.Split(children.value), layout.preamble, layout.epilogue));
      r := ParseSplit(h, body, contentType, layout, |s|);
    }

    /** The parts of `layout` parsed and gathered under a new node, as `ParseAll` says. */
    static method ParseSplit(h: Headers, body: string, contentType: Option<string>, layout: Layout, bound: nat)
      returns (r: Result<Mime, ParseError>)
      requires forall k :: 0 <= k < |layout.middle| ==> |layout.middle[k]| < bound
      ensures r.Failure? <==> ParseAll(layout.middle, bound).Failure?
      ensures r.Failure? ==> r.error == ParseAll(layout.middle, bound).error
      ensures r.Success? ==>
                fresh(r.value.Repr) && r.value.Valid()
                && r.value.Tree() == Node(h, body, contentType, MimeTree.Split(ParseAll(layout.middle, bound).value), layout.preamble, layout.epilogue)
      decreases bound, 1
    {
      var kids, R := ParseParts(layout.middle, bound);
      if kids.Failure? {
        return Failure(kids.error);
      }
      var m := new Mime.Multipart(h, body, contentType, kids.value, R, layout.preamble, layout.epilogue);
      assert m.Repr == (m.Repr - R) + R;
      return Success(m);
    }

    /**
     * The header block matched off the front of `s`, the headers scanned from it (with
     * `Content-Type` vivified by the lookup), the body, and the split `Content-Type`.
     */
    static method ReadHead(s: string) returns (h: Headers, body: string, ct: Result<(Option<string>, Attrs), ParseError>)
      ensures h == Touch(Parsed(SplitMessage(s).0), ContentType) && body == SplitMessage(s).1
      ensures ct == ContentTypeOf(h)
    {
      var (block, rest) := SplitMessage(s);
      body := rest;
      h := ParseHeaders(block);
      h := Touch(h, ContentType);
      ct := ReadContentType(h);
    }

    /** The first `Content-Type` value split by `split_header`, as `ContentTypeOf` says. */
    static method ReadContentType(h: Headers) returns (r: Result<(Option<string>, Attrs), ParseError>)
      ensures r == ContentTypeOf(h)
    {
      var vs := Get(h, ContentType);
      if vs == [] {
        return Success((None, []));
      }
      var sh := SplitHeaderValue(vs[0]);
      if sh.None? {
        return Failure(MalformedContentType);
      }
      return Success((Some(sh.value.0), sh.value.1));
    }

    /** `Mime.split_header`: the primary token, then the attributes gathered one match at a time. */
    static method SplitHeaderValue(raw: string) returns (r: Option<(string, Attrs)>)
      ensures r == SplitHeader(raw)
    {
      var primary := Primary(raw);
      if primary.None? {
        return None;
      }
      var attrs := ScanAttributes(raw);
      return Some((primary.value, attrs));
    }

    /**
     * `body.split(...)`, the in-place rewrite of the fragments, then `shift` and
     * `pop`: the layout `SplitBody` describes.
     */
    static method SplitParts(body: string, boundary: string) returns (layout: Layout)
      ensures layout == SplitBody(body, boundary)
    {
      var fs := RewrittenFragments(body, boundary);
      layout := ShiftPop(fs);
    }

    /** `body.split(...)` into an array whose fragments are then rewritten in place. */
    static method RewrittenFragments(body: string, boundary: string) returns (fs: seq<string>)
      ensures fs == TrimAll(CloseLast(Fragments(body, boundary)))
    {
      var raw := Fragments(body, boundary);
      var a := new string[|raw|](i requires 0 <= i < |raw| => raw[i]);
      assert a[..] == raw;
      RewriteFragments(a);
      fs := a[..];
    }

    /** `@preamble = parts.shift` and `@epilogue = parts.pop`, leaving the parts in between. */
    static method ShiftPop(fs: seq<string>) returns (layout: Layout)
      ensures layout == Arrange(fs)
    {
      var middle := fs;
      var preamble, epilogue: Option<string> := None, None;
      if |middle| > 0 {
        preamble, middle := Some(middle[0]), middle[1..];
      }
      if |middle| > 0 {
        epilogue, middle := Some(middle[|middle| - 1]), middle[..|middle| - 1];
        assert middle == fs[1..|fs| - 1];
      }
      layout := Layout(preamble, middle, epilogue);
    }

    /** `parts.map { |part| Mime.new part }`, as `ParseAll` says; the parts are fresh and apart. */
    static method ParseParts(fs: seq<string>, bound: nat) returns (r: Result<seq<Mime>, ParseError>, ghost R: set<object>)
      requires forall k :: 0 <= k < |fs| ==> |fs[k]| < bound
      ensures r.Failure? ==> ParseAll(fs, bound) == Failure(r.error)
      ensures r.Success? ==> fresh(R) && PartsValid(r.value, R) && ParseAll(fs, bound) == Success(Trees(r.value, 0, R))
      decreases bound, 0
    {
      var kids: seq<Mime> := [];
      ghost var trees: seq<Node> := [];
      R := {};
      var i := 0;
      assert fs[0..] == fs;
      PrefixedEmpty(ParseAll(fs, bound));
      while i < |fs|
        invariant i <= |fs| && |kids| == i
        invariant fresh(R) && PartsValid(kids, R) && Trees(kids, 0, R) == trees
        invariant ParseAll(fs, bound) == Prefixed(trees, ParseAll(fs[i..], bound))
      {
        var child := Parse(fs[i], false);
        ParseAllStep(fs, bound, i);
        if child.Failure? {
          return Failure(child.error), R;
        }
        PrefixedAppend(trees, [child.value.Tree()], ParseAll(fs[i + 1..], bound));
        assert child.value.Repr !! R;
        PartsAppend(kids, R, child.value);
        kids, trees := kids + [child.value], trees + [child.value.Tree()];
        R := R + child.value.Repr;
        i := i + 1;
      }
      assert fs[i..] == [];
      assert trees + [] == trees;
      return Success(kids), R;
    }

    /**
     * `to_s(opts)` as intended (one counter shared by every part of the call, each
     * part written after a single line break): the text
     * or the exception, the counter to go on with and the counters of the boundaries
     * made are the ones `Serialize` gives, and the node and its parts are left in the
     * state that function describes, exception or not.
     */
    method ToS(env: Env, c: nat, path: seq<nat>) returns (out: Result<string, SerError>, next: nat, ghost used: seq<nat>)
      requires Valid()
      modifies Repr
      ensures Valid() && Repr == old(Repr)
      ensures var r := Serialize(old(Tree()), c, env, true, path);
        out == r.out && next == r.next && used == r.used && Tree() == r.node
      decreases Repr, 3
    {
      if !IsMultipart(contentType) {
        out := ToSLeaf(env.encodingName);
        next, used := c, [];
      } else {
        out, next, used := ToSMultipart(env, c, path);
      }
    }

    /** The branch of `to_s` for a node that is not multipart: a `text/…` type gets the `charset`. */
    method ToSLeaf(encodingName: string) returns (out: Result<string, SerError>)
      requires Valid()
      modifies this
      ensures Valid() && Repr == old(Repr)
      ensures (out, Tree()) == SerializeLeaf(old(Tree()), encodingName)
    {
      ghost var t := Tree();
      var h := Touch(headers, ContentType);
      var vs := Get(h, ContentType);
      if vs != [] {
        var sh := SplitHeaderValue(vs[0]);
        if sh.None? {
          SetHeaders(h);
          return Failure(BadContentType);
        }
        var (primary, attrs) := sh.value;
        if IsText(primary) {
          h := Put(h, ContentType, [JoinHeader(primary, Put(attrs, "charset", encodingName))]);
        }
      }
      SetHeaders(h);
      out := Compose(h, body);
    }

    /** Replaces the headers and nothing else. */
    method SetHeaders(h: Headers)
      requires Valid()
      modifies this
      ensures Valid() && Repr == old(Repr)
      ensures Tree() == old(Tree()).(headers := h)
    {
      headers := h;
    }

    /** Replaces the body and nothing else. */
    method SetBody(b: string)
      requires Valid()
      modifies this
      ensures Valid() && Repr == old(Repr)
      ensures Tree() == old(Tree()).(body := b)
    {
      body := b;
    }

    /** The `str <<` loop over the headers, the blank line, then the body: what `Emit` gives. */
    static method Compose(h: Headers, b: string) returns (out: Result<string, SerError>)
      ensures forall t: Node :: t.headers == h && t.body == b ==> out == Emit(t)
    {
      var lines := EmitHeaders(h);
      out := if lines.Failure? then Failure(NonAsciiHeader(lines.error)) else Success(lines.value + "\r\n" + b);
    }

    /** The branch of `to_s` for a multipart node: count, write the parts, then assemble. */
    method ToSMultipart(env: Env, c: nat, path: seq<nat>) returns (out: Result<string, SerError>, next: nat, ghost used: seq<nat>)
      requires Valid() && IsMultipart(contentType)
      modifies Repr
      ensures Valid() && Repr == old(Repr)
      ensures var r := SerializeMultipart(old(Tree()), c, env, true, path);
        out == r.out && next == r.next && used == r.used && Tree() == r.node
      decreases Repr, 2
    {
      next := c + 1;
      used := [next];
      var boundary := MakeBoundary(next, env.identity(path), env.time);
      if parts.None? {
        return Failure(NoParts), next, used;
      }
      ghost var t := Tree();
      ghost var R := Repr - {this};
      TreesStand(parts.value, R);
      var outs, n, u := ToSParts(parts.value, R, t, env, next, path);
      TreeSplit(R, SerializeParts(t, 0, next, env, true, path).nodes);
      next, used := n, used + u;
      if outs.Failure? {
        return Failure(outs.error), next, used;
      }
      out := AssembleIn(outs.value, boundary);
    }

    /**
     * `part.to_s(opts)` on each part of `t` (the map of the multipart branch, whose
     * line breaks `AssembleIn` adds), stopping at the first exception: what `SerializeParts` gives, and the parts
     * left standing for the new part values.
     */
    static method ToSParts(kids: seq<Mime>, ghost R: set<object>, ghost t: Node, env: Env, c: nat, path: seq<nat>)
      returns (outs: Result<seq<string>, SerError>, next: nat, ghost used: seq<nat>)
      requires t.parts.Split? && Stands(kids, R, t.parts.nodes)
      modifies R
      ensures var r := SerializeParts(t, 0, c, env, true, path);
        outs == r.outs && next == r.next && used == r.used && Stands(kids, R, r.nodes)
      decreases R, 5
    {
      ghost var ts := t.parts.nodes;
      ghost var done: seq<Node> := [];
      var acc: seq<string> := [];
      used := [];
      next := c;
      var i := 0;
      assert ts[0..] == ts;
      PrependEmpty(SerializeParts(t, 0, c, env, true, path));
      while i < |kids|
        invariant i <= |kids| == |ts| && |done| == i
        invariant Stands(kids, R, done + ts[i..])
        invariant SerializeParts(t, 0, c, env, true, path) == Prepend(acc, done, used, SerializeParts(t, i, next, env, true, path))
      {
        ghost var first := Serialize(ts[i], next, env, true, path + [i]);
        SerializePartsGlue(t, c, env, path, i, next, acc, done, used);
        Splice(done, ts, first.node);
        var o, n, u := ToSPart(kids, i, R, done + ts[i..], env, next, path);
        if o.Failure? {
          return Failure(o.error), n, used + u;
        }
        acc, done, used, next := acc + [o.value], done + [first.node], used + u, n;
        i := i + 1;
      }
      outs := Success(acc);
      SerializePartsDone(t, c, env, path, next, acc, done, used);
    }

    /** `part.to_s(opts)` on the `i`-th part: only that part's objects change. */
    static method ToSPart(kids: seq<Mime>, i: nat, ghost R: set<object>, ghost ts: seq<Node>, env: Env, c: nat, path: seq<nat>)
      returns (out: Result<string, SerError>, next: nat, ghost used: seq<nat>)
      requires Stands(kids, R, ts) && i < |kids|
      modifies kids[i].Repr
      ensures var r := Serialize(ts[i], c, env, true, path + [i]);
        out == r.out && next == r.next && used == r.used && Stands(kids, R, ts[i := r.node])
      decreases R, 4
    {
      StandsAt(kids, R, ts, i);
      out, next, used := kids[i].ToS(env, c, path + [i]);
    }

    /** A node whose parts stand for `ts` stands for the same node with the parts `ts`. */
    lemma TreeSplit(R: set<object>, ts: seq<Node>)
      requires Valid() && parts.Some? && Repr == R + {this} && this !in R && Stands(parts.value, R, ts)
      ensures Tree() == Node(headers, body, contentType, Split(ts), preamble, epilogue)
    {
      assert Repr - {this} == R;
      StandsTrees(parts.value, R, ts);
    }

    /**
     * The rest of the multipart branch: the body joined around `boundary`, then the
     * `Content-Type` rewritten to carry it and the text written out.
     */
    method AssembleIn(outs: seq<string>, boundary: string) returns (out: Result<string, SerError>)
      requires Valid()
      modifies this
      ensures Valid() && Repr == old(Repr)
      ensures (out, Tree()) == Assemble(old(Tree()), outs, boundary, true)
    {
      if epilogue.None? {
        return Failure(NoEpilogue);
      }
      var b := MultipartBody(preamble, outs, epilogue.value, boundary, true);
      SetBody(b);
      var h := Touch(headers, ContentType);
      var vs := Get(h, ContentType);
      if vs == [] {
        SetHeaders(h);
        return Failure(NoContentType);
      }
      var sh := SplitHeaderValue(vs[0]);
      if sh.None? {
        SetHeaders(h);
        return Failure(BadContentType);
      }
      var (primary, attrs) := sh.value;
      h := Put(h, ContentType, [JoinHeader(primary, Put(attrs, "boundary", boundary))]);
      SetHeaders(h);
      out := Compose(h, b);
    }
  }

  /** Parts that are valid nodes inside `R`, pairwise apart. */
  ghost predicate PartsValid(ps: seq<Mime>, R: set<object>)
    reads R
    decreases R, 1
  {
    && (forall k :: 0 <= k < |ps| ==> ps[k] in R && ps[k].Repr <= R && ps[k].Valid())
    && (forall j, k :: 0 <= j < k < |ps| ==> ps[j].Repr !! ps[k].Repr)
  }

  /** The values of the parts from the `i`-th on. */
  ghost function Trees(ps: seq<Mime>, i: nat, R: set<object>): (ts: seq<Node>)
    reads R
    requires i <= |ps| && PartsValid(ps, R)
    ensures |ts| == |ps| - i
    decreases R, 1, |ps| - i
  {
    if i == |ps| then [] else [ps[i].Tree()] + Trees(ps, i + 1, R)
  }

  /** The `k`-th value is the value of the `k`-th part. */
  lemma {:induction false} TreesAt(ps: seq<Mime>, i: nat, R: set<object>, k: nat)
    requires i <= k < |ps| && PartsValid(ps, R)
    ensures Trees(ps, i, R)[k - i] == ps[k].Tree()
    decreases k - i
  {
    if i < k {
      TreesAt(ps, i + 1, R, k);
    }
  }

  /** A valid node apart from the parts so far can join them. */
  lemma PartsAppend(ps: seq<Mime>, R: set<object>, m: Mime)
    requires PartsValid(ps, R) && m.Valid() && m.Repr !! R
    ensures PartsValid(ps + [m], R + m.Repr)
    ensures Trees(ps + [m], 0, R + m.Repr) == Trees(ps, 0, R) + [m.Tree()]
  {
    var qs := ps + [m];
    forall j, k | 0 <= j < k < |qs| ensures qs[j].Repr !! qs[k].Repr {
      if k == |ps| {
        assert qs[j].Repr <= R;
      }
    }
    var ts, us := Trees(qs, 0, R + m.Repr), Trees(ps, 0, R) + [m.Tree()];
    forall k | 0 <= k < |qs| ensures ts[k] == us[k] {
      TreesAt(qs, 0, R + m.Repr, k);
      if k < |ps| {
        TreesAt(ps, 0, R, k);
      }
    }
  }

  /** Replacing the first value not yet written. */
  lemma Splice<T>(done: seq<T>, ts: seq<T>, x: T)
    requires |done| < |ts|
    ensures (done + ts[|done|..])[|done|] == ts[|done|]
    ensures (done + ts[|done|..])[|done| := x] == done + [x] + ts[|done| + 1..]
    ensures done + [x] + ts[|done| + 1..] == (done + [x]) + ts[|done + [x]|..]
  {
  }

  /** The parts are valid inside `R` and stand for the values `ts`, one by one. */
  ghost predicate Stands(ps: seq<Mime>, R: set<object>, ts: seq<Node>)
    reads R
  {
    PartsValid(ps, R) && |ts| == |ps| && forall k :: 0 <= k < |ps| ==> ps[k].Tree() == ts[k]
  }

  lemma TreesStand(ps: seq<Mime>, R: set<object>)
    requires PartsValid(ps, R)
    ensures Stands(ps, R, Trees(ps, 0, R))
  {
    forall k | 0 <= k < |ps| ensures ps[k].Tree() == Trees(ps, 0, R)[k] {
      TreesAt(ps, 0, R, k);
    }
  }

  lemma StandsTrees(ps: seq<Mime>, R: set<object>, ts: seq<Node>)
    requires Stands(ps, R, ts)
    ensures Trees(ps, 0, R) == ts
  {
    forall k | 0 <= k < |ps| ensures Trees(ps, 0, R)[k] == ts[k] {
      TreesAt(ps, 0, R, k);
    }
  }

  lemma StandsAt(ps: seq<Mime>, R: set<object>, ts: seq<Node>, i: nat)
    requires Stands(ps, R, ts) && i < |ps|
    ensures ps[i] in R && ps[i].Repr <= R && ps[i].Valid() && ps[i].Tree() == ts[i]
    ensures forall k :: 0 <= k < |ps| && k != i ==> ps[k].Repr !! ps[i].Repr
  {
    forall k | 0 <= k < |ps| && k != i ensures ps[k].Repr !! ps[i].Repr {
      if k < i {
        assert ps[k].Repr !! ps[i].Repr;
      } else {
        assert ps[i].Repr !! ps[k].Repr;
      }
    }
  }

}
