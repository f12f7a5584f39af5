/**
 * `Mime.to_encoded_word`: header text with a control or non-ASCII byte becomes an
 * encoded-word `=?charset?B?payload?=` (section 2 of RFC 2047, "B" encoding of
 * section 4.1); printable ASCII text, and nil, pass through.
 *
 * A Ruby string is modelled here by its bytes; its encoding name is a parameter.
 */
module EncodedWord {
  import opened Wrappers
  import opened Base64

  /** The bytes the source tests with `byte <= 31 || 127 <= byte`. */
  predicate NeedsEncoding(bs: seq<Byte>) {
    exists i :: 0 <= i < |bs| && (bs[i] <= 31 || 127 <= bs[i])
  }

  function Opening(encodingName: seq<Byte>): seq<Byte> {
    Ascii("=?") + encodingName + Ascii("?B?")
  }

  function ToEncodedWord(str: Option<seq<Byte>>, encodingName: seq<Byte>): (r: Option<seq<Byte>>)
    ensures str.None? <==> r.None?
    ensures str.Some? && !NeedsEncoding(str.value) ==> r == str
  {
    if str.Some? && NeedsEncoding(str.value) then
      Some(Opening(encodingName) + Encode(str.value) + Ascii("?="))
    else str
  }

  /** The text between the opening `=?charset?B?` and the closing `?=`. */
  function Payload(word: seq<Byte>, encodingName: seq<Byte>): seq<Byte>
    requires |Opening(encodingName)| + 2 <= |word|
  {
    word[|Opening(encodingName)|..|word| - 2]
  }

  /** An encoded word carries the charset name and a payload that decodes back to the input. */
  lemma EncodedWordDecodes(str: seq<Byte>, encodingName: seq<Byte>)
    requires NeedsEncoding(str)
    ensures var r := ToEncodedWord(Some(str), encodingName);
      && r.Some?
      && Opening(encodingName) <= r.value
      && |Opening(encodingName)| + 2 <= |r.value|
      && r.value[|r.value| - 2..] == Ascii("?=")
      && Decode(Payload(r.value, encodingName)) == Some(str)
  {
    var w := ToEncodedWord(Some(str), encodingName).value;
    var o := Opening(encodingName);
    assert w == o + Encode(str) + Ascii("?=");
    assert w[..|o|] == o;
    assert Payload(w, encodingName) == Encode(str);
    RoundTrip(str);
  }

  /** With a printable charset name the result is always printable ASCII. */
  lemma EncodedWordPrintable(str: seq<Byte>, encodingName: seq<Byte>)
    requires Printable(encodingName)
    ensures Printable(ToEncodedWord(Some(str), encodingName).value)
  {
    if NeedsEncoding(str) {
      EncodePrintable(str);
    } else {
      assert forall i :: 0 <= i < |str| ==> !(str[i] <= 31 || 127 <= str[i]);
    }
  }

  /** Encoding an already encoded (or plain) header value changes nothing. */
  lemma EncodedWordIdempotent(str: Option<seq<Byte>>, encodingName: seq<Byte>)
    requires Printable(encodingName)
    ensures ToEncodedWord(ToEncodedWord(str, encodingName), encodingName) == ToEncodedWord(str, encodingName)
  {
    if str.Some? {
      EncodedWordPrintable(str.value, encodingName);
      var r := ToEncodedWord(str, encodingName).value;
      assert !NeedsEncoding(r);
    }
  }
}
