# A verified model of `Mapi::Mime`

`Mapi::Mime` (`lib/mapi/mime.rb`) is a small MIME parser and serialiser. The parser
`Mime.new(str)` does the following:

- It splits a message into a header block and a body.
- It scans the header lines, including folded continuation lines, into a Hash from
  header name to the list of that header's values.
- When the `Content-Type` is `multipart…`, it splits the body on `--boundary` into a
  preamble, the parts and an epilogue. Each part is parsed again as a message of its own.

The serialiser `to_s` does the following:

- It numbers every multipart node with a counter and makes a fresh boundary for it
  with `Mime.make_boundary`.
- It joins the written parts around that boundary, and writes the boundary back into
  the `Content-Type` header. A `text/…` leaf instead gets a `charset` attribute.
- It writes every header as one `Name: value\r\n` line, then a blank line, then the body.

`Mime.split_header` reads `primary; key="value"; …` header values. `Mime.to_encoded_word`
wraps non-printable header text in an RFC 2047 encoded-word.

The model has two layers:

- **Values.** `MimeTree.Node` is one `Mime` object's state. `MimeTree.Parse` and
  `MimeTree.Serialize` are what the constructor and `to_s` do to it, written as functions.
- **Objects.** `MimeObject.Mime` is a class whose fields `to_s` overwrites in place. Its
  methods (`Parse`, `ToS` and their helpers) are proved to leave exactly the state and
  return exactly the text that the functions describe.

The string work is in helper modules, one per concern:

| module | file | what it models |
|---|---|---|
| `Text` | `text.dfy` | the regexes' building blocks, and `strip` / `gsub(/\s+/, ' ')` |
| `Assoc` | `assoc.dfy` | a Ruby Hash in insertion order |
| `HeaderMap` | `header_map.dfy` | the header scan and the header lines written |
| `HeaderParams` | `header_params.dfy` | `split_header`, and the attribute rewriting inside `to_s` |
| `Multipart` | `multipart.dfy` | the header/body split, and the body split with its in-place fragment rewriting |
| `Boundary` | `boundary.dfy` | `make_boundary` and its `%03d` / `%08x` formatting |
| `Base64`, `EncodedWord` | `base64.dfy`, `encoded_word.dfy` | `to_encoded_word`, with the `strict_encode64` of section 4 of RFC 4648 |
| `RoundTrip` | `round_trip.dfy` | reading back a multipart body that `to_s` has written |

In these places the code does something a reader might not expect; the model follows
the code:

- `multipart?` is `/^multipart/`, which is case-sensitive and anchored at any line start
  (`MimeTree.MultipartCaseSensitive`). It is not a case-insensitive test of the top-level type.
- A multipart boundary is made from the counter *after* `+= 1`, so the first boundary
  of a call with counter `c` carries `c + 1`.
- The counter is not threaded through the call as written: `{…}.merge opts` copies it.
  See "## Findings".
- A part written by `to_s` does not read back as it was written: it gains a line break.
  See "## Findings".
- `Mime.new` leaves `@epilogue` nil when the body splits into a single fragment. A later
  `to_s` then raises on `"--\r\n" + nil`. `MimeTree.SerError` has a case for this.

## Model

| member | source | states |
|---|---|---|
| MimeTree.ParseUnsplit | lib/mapi/mime.rb:46-87 | `Mime.new(s, ignoreBody)` with the body ignored or a non-multipart type: a node is made with the body kept whole, no parts, nil preamble and epilogue, and a `Content-Type` key left behind by the `[0]` lookup |
| MimeObject.Mime.Parse | lib/mapi/mime.rb:46-87 | the constructor as a method: it fails exactly when `MimeTree.Parse` fails, with the same error; otherwise the new valid, fresh node stands for `MimeTree.Parse`'s value |
| MimeObject.Mime.ReadHead | lib/mapi/mime.rb:47-59 | the header block and body matched off the message, the headers scanned (with `Content-Type` vivified by the `[0]` lookup), and the split content type |
| MimeObject.Mime.ReadContentType | lib/mapi/mime.rb:56-59 | the first `Content-Type` value split by `split_header`; no value gives no content type and no attributes |
| MimeObject.Mime.ParseSplit | lib/mapi/mime.rb:77-85 | the parts between preamble and epilogue parsed and gathered under a new node: fails exactly when `ParseAll` fails, with the same error, otherwise the node's value has those children, preamble and epilogue |
| MimeObject.Mime.SplitParts | lib/mapi/mime.rb:73-83 | `split`, the in-place fragment rewrite, then `shift` / `pop`, give the layout `Multipart.SplitBody` describes |
| MimeObject.Mime.RewrittenFragments | lib/mapi/mime.rb:73-81 | the array of fragments after the rewrite is the fragments closed and trimmed |
| MimeObject.Mime.ShiftPop | lib/mapi/mime.rb:82-83 | `shift` and `pop` leave the layout `Multipart.Arrange` gives |
| MimeObject.Mime.ParseParts | lib/mapi/mime.rb:84 | `parts.map { Mime.new }`: the first exception stops the map and is the map's error; otherwise the new, pairwise-disjoint parts stand for `ParseAll`'s values |
| MimeTree.ParseAll | lib/mapi/mime.rb:84 | the children, one per fragment, or the first fragment's exception |
| MimeTree.ParseAllSpec | lib/mapi/mime.rb:84 | when the map succeeds, the `i`-th child is exactly `Mime.new` of the `i`-th fragment |
| MimeTree.ParseAllFirstFailure | lib/mapi/mime.rb:84 | when fragments before `i` parse and fragment `i` does not, the map fails with fragment `i`'s error |
| MimeTree.ParseAllSuccess | lib/mapi/mime.rb:84 | when every fragment parses, so does the map |
| MimeTree.BodyShorter | lib/mapi/mime.rb:47 | the body is strictly shorter than the message (or empty), so the recursion over parts ends |
| MimeTree.ParseEmptyMultipart | lib/mapi/mime.rb:63-67 | a multipart message with an empty body parses to no parts and empty preamble and epilogue |
| MimeTree.ParseMissingBoundary | lib/mapi/mime.rb:68-70 | a non-empty multipart body without a `boundary` attribute raises `MissingBoundary` |
| MimeTree.ParseMultipart | lib/mapi/mime.rb:68-85 | a parsed multipart node: preamble is the first fragment, epilogue the last, two fewer children than fragments, and child `i` is fragment `i + 1` parsed |
| MimeTree.MultipartPrefix | lib/mapi/mime.rb:90-92 | on a one-line content type, multipart exactly when it begins with `multipart` |
| MimeTree.MultipartCaseSensitive | lib/mapi/mime.rb:91 | `Multipart/mixed` is not multipart, `multipart/mixed` is |
| MimeTree.Serialize | lib/mapi/mime.rb:120-159 | `to_s`: the counter never goes down; the text is the header lines, a blank line and the new body; content type, preamble and epilogue are kept; a multipart node uses counter `c + 1` first, a leaf uses none and keeps body and parts; with the corrected behaviour (`intended`) the counters used are increasing and within the call's range |
| MimeTree.SerializeLeaf | lib/mapi/mime.rb:132-141 | the non-multipart branch keeps body and parts, and the text is the new headers' lines, a blank line and the body |
| MimeTree.SerializeMultipart | lib/mapi/mime.rb:125-131 | the multipart branch: it uses counter `c + 1` first and keeps the node's shape |
| MimeTree.SerializeParts | lib/mapi/mime.rb:127 | one written text and one new state per part, each text being that part's header lines, a blank line and its body; the counter never goes down, and shared counters increase within range |
| MimeTree.Assemble | lib/mapi/mime.rb:127-131 | after the parts: the parts are kept, and the text is the new headers' lines, a blank line and the new body |
| MimeTree.Emit | lib/mapi/mime.rb:147-158 | when writing succeeds, the text is the header lines, `\r\n`, then the body |
| MimeTree.AssembleBoundary | lib/mapi/mime.rb:127-131 | the body is preamble, parts and epilogue joined around the boundary; `Content-Type` becomes the primary token with `boundary` set and every other attribute kept, and it splits back to exactly that |
| MimeTree.MultipartBoundary | lib/mapi/mime.rb:125-131 | a successful multipart `to_s`: the boundary made from counter `c + 1` (readable back from it) joins the written parts, and the `Content-Type` carries that same boundary |
| MimeTree.TextCharset | lib/mapi/mime.rb:133-140 | a `text/…` leaf gets `charset` set to the encoding name, keeping the primary token, the other attributes and the body |
| MimeTree.OtherUnchanged | lib/mapi/mime.rb:133-141 | a leaf that is not `text/…` keeps its headers, apart from the `Content-Type` entry the lookup adds |
| MimeTree.BoundaryUnquoted | lib/mapi/mime.rb:130-131 | a boundary holds no `"`, so it can be written as a quoted attribute |
| MimeTree.SiblingsShareCounter | lib/mapi/mime.rb:121-127 | as written, two multipart sibling parts both make their boundary from counter `c + 2` |
| MimeTree.SharedCounterDistinctBoundaries | lib/mapi/mime.rb:196-201 | with the counter shared through the call, any two boundaries of one message differ, whatever the identities |
| MimeObject.Mime.ToS | lib/mapi/mime.rb:120-159 | `to_s` on the object tree: the text or exception, the next counter and the counters used are those of `Serialize`, and the tree is left in the state `Serialize` gives, exception or not |
| MimeObject.Mime.ToSLeaf | lib/mapi/mime.rb:132-141 | the leaf branch leaves the node in `SerializeLeaf`'s state and returns its text |
| MimeObject.Mime.ToSMultipart | lib/mapi/mime.rb:125-131 | the multipart branch, on the object tree, is `SerializeMultipart` |
| MimeObject.Mime.ToSParts | lib/mapi/mime.rb:127 | the loop over the parts is `SerializeParts`, and the part objects stand for the new part values |
| MimeObject.Mime.ToSPart | lib/mapi/mime.rb:127 | `part.to_s(opts)` on the `i`-th part changes only that part's objects |
| MimeObject.Mime.AssembleIn | lib/mapi/mime.rb:127-131 | joining the body and rewriting `Content-Type` in place is `Assemble` |
| MimeObject.Mime.SetHeaders | lib/mapi/mime.rb:131 | assigning `@headers` replaces the headers and nothing else |
| MimeObject.Mime.SetBody | lib/mapi/mime.rb:127 | assigning `@body` replaces the body and nothing else |
| MimeObject.Mime.Compose | lib/mapi/mime.rb:147-158 | the `str <<` loop, the blank line and the body give `Emit`'s text |
| HeaderMap.ParseHeaders | lib/mapi/mime.rb:49-53 | the scan loop fills the Hash that `Parsed` describes |
| HeaderMap.ParsedSpec | lib/mapi/mime.rb:49-53 | each name lists every value given for it, in order; names come in order of first appearance, each once |
| HeaderMap.ParsedValuesNormalized | lib/mapi/mime.rb:52 | every stored value is folded: no whitespace at either end, only single plain spaces inside |
| HeaderMap.FieldsNormalized | lib/mapi/mime.rb:51-52 | every value the scan finds is folded |
| HeaderMap.HeaderAt | lib/mapi/mime.rb:51-52 | one header match ends after where it starts, and its value is folded |
| HeaderMap.HeaderAtMatch | lib/mapi/mime.rb:51 | there is a match at a position exactly when it is a line start and a `:` follows within the run of non-space characters there |
| HeaderMap.HeaderAtSpec | lib/mapi/mime.rb:51-52 | a match: the name is the non-space run up to its last `:`; the match ends at a line end with no `\n\t` after it, having taken in every continuation line; the value is folded and has exactly the non-space characters of the text after the `:` |
| HeaderMap.ContinuationsSpec | lib/mapi/mime.rb:51 | every line feed the continuation lines take in is followed by a tab |
| HeaderMap.FoldedHeader | lib/mapi/mime.rb:51-52 | `Name: first\r\n\tsecond` is one match, read as the name and `first second` |
| HeaderMap.FoldedSubject | lib/mapi/mime.rb:51-52 | `Subject: hello\r\n\tworld` reads as `Subject` with the value `hello world` |
| HeaderMap.ColonBack | lib/mapi/mime.rb:52 | `(\S+):` backtracks to the last `:` of the non-space run, and no `:` follows it in the run |
| HeaderMap.Continuations | lib/mapi/mime.rb:51 | `(?:\n\t.*)*` ends inside the text, never just after a line feed, at a place no `\n\t` follows, and at a line end when it starts at one |
| HeaderMap.AppendSpec | lib/mapi/mime.rb:52 | `@headers[name] << value` appends to that name's list only, adding the name last when new |
| HeaderMap.TouchSpec | lib/mapi/mime.rb:57 | reading a missing header through the default block adds its name with no values and changes no value |
| HeaderMap.EmitHeaders | lib/mapi/mime.rb:145-156 | the header-writing loop gives `HeaderLines` |
| HeaderMap.HeaderLinesSpec | lib/mapi/mime.rb:145-156 | writing succeeds exactly when every value is ASCII, and then gives one `Name: value\r\n` line per value, in Hash order |
| HeaderMap.HeaderLinesError | lib/mapi/mime.rb:145 | a failure names a non-ASCII value under its header's name |
| HeaderMap.ValueLinesSpec | lib/mapi/mime.rb:153-154 | one header's lines: success exactly when all its values are ASCII; the lines; the failing value |
| HeaderParams.ScanAttributes | lib/mapi/mime.rb:186-191 | the attribute loop builds `Attributes` |
| HeaderParams.AttributesFirstWins | lib/mapi/mime.rb:187-190 | each key appears once, with the unquoted value of its first match; later duplicates are ignored |
| HeaderParams.FoldLookup | lib/mapi/mime.rb:188-189 | a key already present keeps its value; otherwise it gets its first match's value |
| HeaderParams.PrimaryBeforeSemicolon | lib/mapi/mime.rb:193 | the primary token is the text before the first `;`, stripped |
| HeaderParams.SplitHeaderFails | lib/mapi/mime.rb:193 | on one line, `split_header` raises exactly when the value is empty or starts with `;` |
| HeaderParams.PrimaryStart | lib/mapi/mime.rb:193 | `^[^;]+` matches at the first line start not holding `;`, and fails when every line starts with `;` |
| HeaderParams.SplitHeaderShape | lib/mapi/mime.rb:179-194 | the primary token holds no `;` and is stripped, and the keys are unique |
| HeaderParams.SplitJoinRoundTrip | lib/mapi/mime.rb:129-131 | splitting the `Content-Type` written by `to_s` gives back the primary token and attributes it was written from |
| HeaderParams.JoinedPrimary | lib/mapi/mime.rb:193 | the primary token read back from a written header is the one written |
| HeaderParams.JoinedAttributes | lib/mapi/mime.rb:187-191 | the attributes read back from a written header are the ones written |
| HeaderParams.MatchQuotedKey | lib/mapi/mime.rb:187 | `key="value"` followed by `;` or the end is one match ending after the closing quote |
| HeaderParams.PutWritable | lib/mapi/mime.rb:130 | setting `boundary` or `charset` to a value without `"` keeps the attributes writable |
| Boundary.DistinctCountersDistinctBoundaries | lib/mapi/mime.rb:199-201 | boundaries made from different counters differ, whatever the identity and the time |
| Boundary.CounterOfMakeBoundary | lib/mapi/mime.rb:200 | the counter can be read back from the boundary made with it |
| Boundary.ReadFormat | lib/mapi/mime.rb:200 | `'%03d' % n` (zero-padded to any width) reads back as `n` |
| Boundary.BoundaryPlain | lib/mapi/mime.rb:200 | a boundary is ASCII and holds no `"`, `;` or whitespace |
| Boundary.FormatHasNoSeparator | lib/mapi/mime.rb:200 | a formatted number holds no `_` |
| EncodedWord.ToEncodedWord | lib/mapi/mime.rb:166-175 | nil stays nil, and text without a control or non-ASCII byte is returned unchanged |
| EncodedWord.EncodedWordDecodes | lib/mapi/mime.rb:170-171 | text needing encoding becomes `=?charset?B?…?=`, whose payload decodes back to the text |
| EncodedWord.EncodedWordPrintable | lib/mapi/mime.rb:170-171 | with a printable charset name, the result is printable ASCII |
| EncodedWord.EncodedWordIdempotent | lib/mapi/mime.rb:166-175 | encoding twice is encoding once |
| Base64.RoundTrip | lib/mapi/mime.rb:171 | decoding undoes `strict_encode64` |
| Base64.Encode | lib/mapi/mime.rb:171 | the output is four characters for every three bytes or fewer |
| Base64.EncodePrintable | lib/mapi/mime.rb:171 | the output is printable ASCII |
| Multipart.SplitMessageSpec | lib/mapi/mime.rb:47 | header block, one line break and body make up the message; the block ends with a line feed at the first place a blank line follows |
| Multipart.SplitMessageNoMatch | lib/mapi/mime.rb:47-50 | without such a place there are no headers and the body is empty |
| Multipart.FragmentsSpec | lib/mapi/mime.rb:73 | the fragments are the fields between delimiters, up to the last non-empty one; the fields joined give the body back; no fragment holds the delimiter |
| Multipart.RawSplitJoin | lib/mapi/mime.rb:73 | joining the fields with the delimiter gives the text |
| Multipart.CloseLastDelimiter | lib/mapi/mime.rb:74-76 | a last fragment starting `--` loses it, and nothing else changes |
| Multipart.CloseInPlace | lib/mapi/mime.rb:74-76 | `parts[-1][0..1] = ''` on the array is `CloseLast` |
| Multipart.TrimBreaksSpec | lib/mapi/mime.rb:78-79 | a fragment is a leading break, `$2` and a trailing break, and the lazy `$2` is the shortest that allows it |
| Multipart.TrimInPlace | lib/mapi/mime.rb:77-81 | `part.replace $2` on every fragment of the array is `TrimAll` |
| Multipart.RewriteFragments | lib/mapi/mime.rb:74-81 | the whole in-place rewrite is `TrimAll(CloseLast(…))` |
| Multipart.ArrangeSpec | lib/mapi/mime.rb:82-83 | preamble, middle and epilogue in a row are the fragments; preamble nil exactly when there is none, epilogue nil when fewer than two |
| Text.NormalizeIsNormalized | lib/mapi/mime.rb:52 | `gsub(/\s+/m, ' ').strip` leaves no whitespace at either end and only single plain spaces |
| Text.NormalizeKeepsSolid | lib/mapi/mime.rb:52 | folding keeps every non-whitespace character, in order |
| Text.NormalizeIdempotent | lib/mapi/mime.rb:52 | folding twice is folding once |
| Text.StripIdempotent | lib/mapi/mime.rb:193 | stripping twice is stripping once |
| Text.StripWithin | lib/mapi/mime.rb:193 | stripping brings in no character |
| Assoc.PutSpec | lib/mapi/mime.rb:130 | `hash[key] = value`: that key reads the value; other keys read as before; an existing key keeps its place, a new one goes last; keys stay unique |
| Assoc.LookupFound | lib/mapi/mime.rb:70 | a lookup succeeds exactly for a present key, with a value stored under it |
| RoundTrip.ReadBackFragments | lib/mapi/mime.rb:73 | a body joined by `to_s`, split at `--boundary`, gives exactly the pieces written between the delimiters, when the boundary holds no line break and occurs in no piece |
| RoundTrip.ReadBackLayout | lib/mapi/mime.rb:73-83 | the split then gives back the preamble, the epilogue and one fragment per written part: the part text followed by `\r\n` as written, the part text alone as intended |
| RoundTrip.ReadHeaderBlock | lib/mapi/mime.rb:47 | a part written as header lines, a blank line and a body splits back into that header block and that body |
| RoundTrip.MultipartReadBack | lib/mapi/mime.rb:120-131 | a multipart node written by `to_s` and split again with the boundary its `Content-Type` now carries: preamble and epilogue come back, one fragment per part, each splitting into the written part's header lines and its body (with a `\r\n` more as written) |
| RoundTrip.PartBodyGainsBreak | lib/mapi/mime.rb:127 | as written, every part read back has the body it was written with followed by `\r\n` |
| RoundTrip.PartsRoundTrip | lib/mapi/mime.rb:73-83 | under the conditions in `## Left out`, with the corrected writing, the preamble, the epilogue, the number of parts, and each part's header block and body survive being written and read back |

## Left out

- `to_tree` and `inspect`: debugging output only.
- The `warn` calls at lines 74, 80 and 188: they print and change nothing.
- Object identity and the clock are parameters. `MimeTree.Env.identity` gives the identity of the node at each position of the tree. The source reads `Time.now` anew in every `make_boundary` call (line 200); the model simplifies this to one clock reading, `MimeTree.Env.time`, for the whole call. The `%08x` formatting is modelled on unbounded non-negative integers.
- MimeTree.Serialize: the counter is a `nat`, so a negative `:boundary_counter` option, which `'%03d' %` writes with a minus sign (`-01`), is not modelled; `Boundary.MakeBoundary` takes a `nat` counter for the same reason.
- Text.Strip: NUL characters at the end of the string, which Ruby's `strip` also removes, are kept.
- String encodings: `@body.encoding.name` is a parameter. `encode("ASCII")` is modelled as failing on any character at or above 128. `body.bytes.pack("C*")` is the identity on the model's characters.
- A header value stored as a `String` (the `case vals when String` branch of `to_s`): the parser only stores arrays, and values set from outside are not part of this model.
- A `str` argument to `Mime.new` that is not a `String`: the model takes a string.
- Construction of a node other than by parsing: it is done by code outside `lib/mapi/mime.rb`, which is not part of this model.
- MimeObject.Mime.ToS: follows the corrected behaviour of both rows under "## Findings": the counter is shared through the whole call, and each part is written after one line break only. The code as written is modelled by `MimeTree.Serialize` with `intended` false. `MimeObject.Mime.ToSMultipart`, `MimeObject.Mime.ToSParts`, `MimeObject.Mime.ToSPart` and `MimeObject.Mime.AssembleIn` follow the same corrected behaviour.
- RoundTrip.PartsRoundTrip: reads a written multipart body back through the split of lines 73-83 and the header/body split of line 47. It does not go on to scan each part's header block into a Hash, nor to re-read the outer node's own header block. It holds only under these conditions, all stated in its `requires`: the new delimiter `--` + boundary occurs neither in the preamble, nor in the epilogue, nor in any written part; each part writes at least one header line; no header name holds a carriage return or a line feed and no header value holds a line feed (`RoundTrip.LineSafe`, used by `RoundTrip.Safe`); the preamble does not start with a line break (`Lead(preamble) == 0`); and the epilogue is empty or does not end with a line feed. The last two are needed because the split of lib/mapi/mime.rb:78 takes an optional line break off the start of the first fragment (`^(\r?\n)?`) and off the end of the last (`(\r?\n)?\Z`): a last fragment `"\r\nx\n\n\n"` reads as the epilogue `"x\n"`, which `to_s` writes back after a line break, and reading that again gives `"x"`.
- Ruby `String`s are modelled as sequences of characters. `to_encoded_word` is modelled on bytes, since it tests and encodes `str.bytes`.

## Findings

| source | as written | input that shows it | evidently intended | confidence | as-written member | corrected member |
|---|---|---|---|---|---|---|
| lib/mapi/mime.rb:121-127 | `opts = {:boundary_counter => 0}.merge opts` makes a copy per call, so the `+= 1` of a part is lost to the parts after it | a multipart message whose first two parts are both multipart: with counter 0, both parts make their boundary from counter 2 | one counter for the whole call, so that `i` is unique for all boundaries of a message (the comment at line 196) | medium, not executed | MimeTree.SiblingsShareCounter | MimeTree.SharedCounterDistinctBoundaries |
| lib/mapi/mime.rb:127 | each part is written as `"\r\n" + part.to_s + "\r\n"` and then joined with `"\r\n--" + boundary`, so two line breaks stand between a part and the next delimiter; the parser (lines 78-79) takes off only one | `Content-Type: multipart/mixed; boundary=XY\r\n\r\npre\r\n--XY\r\nContent-Type: text/plain\r\n\r\nhello\r\n--XY--\r\nepi`: after parsing and writing, splitting the written text again gives the part body `hello\r\n` | a part written by `to_s` reads back with the body it was written with | medium, not executed | RoundTrip.PartBodyGainsBreak | RoundTrip.PartsRoundTrip |
