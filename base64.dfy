/**
 * The "base64" encoding of section 4 of RFC 4648 (standard alphabet, `=` padding,
 * no line breaks), which is what Ruby's `Base64.strict_encode64` produces, with a
 * decoder as its inverse.
 */
module Base64 {
  import opened Wrappers

  type Byte = b: int | 0 <= b < 256

  /** The byte for a character literal; every character used here is ASCII. */
  function Ascii(s: string): (r: seq<Byte>)
    requires forall i :: 0 <= i < |s| ==> s[i] as int < 128
    ensures |r| == |s|
    ensures forall i :: 0 <= i < |s| ==> r[i] == s[i] as int
  {
    seq(|s|, i requires 0 <= i < |s| => s[i] as int)
  }

  const Pad: Byte := 61  // '='

  /** The alphabet of Table 1 of RFC 4648: A-Z, a-z, 0-9, '+', '/'. */
  function Sym(v: nat): (b: Byte)
    requires v < 64
    ensures 32 <= b <= 126 && b != Pad
  {
    if v < 26 then 65 + v
    else if v < 52 then 97 + (v - 26)
    else if v < 62 then 48 + (v - 52)
    else if v == 62 then 43
    else 47
  }

  /** The 6-bit value of an alphabet character. */
  function Val(b: Byte): (r: Option<nat>)
    ensures r.Some? ==> r.value < 64 && Sym(r.value) == b
  {
    if 65 <= b <= 90 then Some(b - 65)
    else if 97 <= b <= 122 then Some(b - 97 + 26)
    else if 48 <= b <= 57 then Some(b - 48 + 52)
    else if b == 43 then Some(62)
    else if b == 47 then Some(63)
    else None
  }

  lemma ValSym(v: nat)
    requires v < 64
    ensures Val(Sym(v)) == Some(v)
  {
  }

  /** One group of three input bytes (or fewer, padded) becomes four characters. */
  function EncodeGroup(bs: seq<Byte>): (r: seq<Byte>)
    requires 1 <= |bs| <= 3
    ensures |r| == 4
  {
    var b0 := bs[0];
    var b1 := if |bs| > 1 then bs[1] else 0;
    var b2 := if |bs| > 2 then bs[2] else 0;
    [Sym(b0 / 4), Sym((b0 % 4) * 16 + b1 / 16)]
    + (if |bs| > 1 then [Sym((b1 % 16) * 4 + b2 / 64)] else [Pad])
    + (if |bs| > 2 then [Sym(b2 % 64)] else [Pad])
  }

  function Encode(bs: seq<Byte>): (r: seq<Byte>)
    ensures |r| == 4 * ((|bs| + 2) / 3)
    decreases |bs|
  {
    if |bs| == 0 then []
    else if |bs| <= 3 then EncodeGroup(bs)
    else
      assert (|bs[3..]| + 2) / 3 + 1 == (|bs| + 2) / 3;
      EncodeGroup(bs[..3]) + Encode(bs[3..])
  }

  /** Four characters back to one, two or three bytes; padding only in the last group. */
  function DecodeGroup(cs: seq<Byte>, last: bool): Option<seq<Byte>>
    requires |cs| == 4
  {
    if Val(cs[0]).None? || Val(cs[1]).None? then None
    else
      var v0, v1 := Val(cs[0]).value, Val(cs[1]).value;
      if Val(cs[2]).Some? && Val(cs[3]).Some? then
        var v2, v3 := Val(cs[2]).value, Val(cs[3]).value;
        Some([v0 * 4 + v1 / 16, (v1 % 16) * 16 + v2 / 4, (v2 % 4) * 64 + v3])
      else if last && Val(cs[2]).Some? && cs[3] == Pad then
        var v2 := Val(cs[2]).value;
        Some([v0 * 4 + v1 / 16, (v1 % 16) * 16 + v2 / 4])
      else if last && cs[2] == Pad && cs[3] == Pad then
        Some([v0 * 4 + v1 / 16])
      else None
  }

  function Decode(cs: seq<Byte>): Option<seq<Byte>>
    decreases |cs|
  {
    if |cs| == 0 then Some([])
    else if |cs| < 4 then None
    else
      match (DecodeGroup(cs[..4], |cs| == 4), Decode(cs[4..]))
      case (Some(g), Some(rest)) => Some(g + rest)
      case _ => None
  }

  /** The 6-bit pieces of three bytes put back together give the bytes. */
  lemma Regroup(b0: Byte, b1: Byte, b2: Byte)
    ensures (b0 / 4) * 4 + ((b0 % 4) * 16 + b1 / 16) / 16 == b0
    ensures (((b0 % 4) * 16 + b1 / 16) % 16) * 16 + ((b1 % 16) * 4 + b2 / 64) / 4 == b1
    ensures (((b1 % 16) * 4 + b2 / 64) % 4) * 64 + b2 % 64 == b2
  {
  }

  /** Four alphabet characters decode to three bytes, in any group. */
  lemma DecodeFour(v0: nat, v1: nat, v2: nat, v3: nat, last: bool)
    requires v0 < 64 && v1 < 64 && v2 < 64 && v3 < 64
    ensures DecodeGroup([Sym(v0), Sym(v1), Sym(v2), Sym(v3)], last)
      == Some([v0 * 4 + v1 / 16, (v1 % 16) * 16 + v2 / 4, (v2 % 4) * 64 + v3])
  {
    ValSym(v0);
    ValSym(v1);
    ValSym(v2);
    ValSym(v3);
  }

  /** Three characters and one `=` decode to two bytes in the last group. */
  lemma DecodeThree(v0: nat, v1: nat, v2: nat)
    requires v0 < 64 && v1 < 64 && v2 < 64
    ensures DecodeGroup([Sym(v0), Sym(v1), Sym(v2), Pad], true)
      == Some([v0 * 4 + v1 / 16, (v1 % 16) * 16 + v2 / 4])
  {
    ValSym(v0);
    ValSym(v1);
    ValSym(v2);
    assert Val(Pad).None?;
  }

  /** Two characters and two `=` decode to one byte in the last group. */
  lemma DecodeTwo(v0: nat, v1: nat)
    requires v0 < 64 && v1 < 64
    ensures DecodeGroup([Sym(v0), Sym(v1), Pad, Pad], true) == Some([v0 * 4 + v1 / 16])
  {
    ValSym(v0);
    ValSym(v1);
    assert Val(Pad).None?;
  }

  lemma OneByteRoundTrip(b0: Byte)
    ensures DecodeGroup(EncodeGroup([b0]), true) == Some([b0])
  {
    var v0, v1 := b0 / 4, (b0 % 4) * 16;
    Regroup(b0, 0, 0);
    assert EncodeGroup([b0]) == [Sym(v0), Sym(v1), Pad, Pad];
    DecodeTwo(v0, v1);
  }

  lemma EncodeTwo(b0: Byte, b1: Byte)
    ensures EncodeGroup([b0, b1]) == [Sym(b0 / 4), Sym((b0 % 4) * 16 + b1 / 16), Sym((b1 % 16) * 4), Pad]
  {
  }

  lemma TwoBytesRoundTrip(b0: Byte, b1: Byte)
    ensures DecodeGroup(EncodeGroup([b0, b1]), true) == Some([b0, b1])
  {
    EncodeTwo(b0, b1);
    DecodeThree(b0 / 4, (b0 % 4) * 16 + b1 / 16, (b1 % 16) * 4);
    Regroup(b0, b1, 0);
  }

  lemma EncodeThree(b0: Byte, b1: Byte, b2: Byte)
    ensures EncodeGroup([b0, b1, b2])
      == [Sym(b0 / 4), Sym((b0 % 4) * 16 + b1 / 16), Sym((b1 % 16) * 4 + b2 / 64), Sym(b2 % 64)]
  {
  }

  lemma ThreeBytesRoundTrip(b0: Byte, b1: Byte, b2: Byte, last: bool)
    ensures DecodeGroup(EncodeGroup([b0, b1, b2]), last) == Some([b0, b1, b2])
  {
    EncodeThree(b0, b1, b2);
    DecodeFour(b0 / 4, (b0 % 4) * 16 + b1 / 16, (b1 % 16) * 4 + b2 / 64, b2 % 64, last);
    Regroup(b0, b1, b2);
  }

  /** Decoding one group undoes encoding it; a short group is only allowed last. */
  lemma GroupRoundTrip(bs: seq<Byte>, last: bool)
    requires 1 <= |bs| <= 3
    requires |bs| < 3 ==> last
    ensures DecodeGroup(EncodeGroup(bs), last) == Some(bs)
  {
    if |bs| == 1 {
      assert bs == [bs[0]];
      OneByteRoundTrip(bs[0]);
    } else if |bs| == 2 {
      assert bs == [bs[0], bs[1]];
      TwoBytesRoundTrip(bs[0], bs[1]);
    } else {
      assert bs == [bs[0], bs[1], bs[2]];
      ThreeBytesRoundTrip(bs[0], bs[1], bs[2], last);
    }
  }

  /** Decoding undoes encoding. */
  lemma {:induction false} RoundTrip(bs: seq<Byte>)
    ensures Decode(Encode(bs)) == Some(bs)
    decreases |bs|
  {
    if 0 < |bs| <= 3 {
      GroupRoundTrip(bs, true);
      var e := Encode(bs);
      assert e[..4] == EncodeGroup(bs);
      assert e[4..] == [];
      assert Decode(e[4..]) == Some([]);
      assert bs + [] == bs;
    } else if |bs| > 3 {
      var e := Encode(bs);
      var tail := Encode(bs[3..]);
      assert e == EncodeGroup(bs[..3]) + tail;
      assert e[..4] == EncodeGroup(bs[..3]);
      assert e[4..] == tail;
      GroupRoundTrip(bs[..3], |e| == 4);
      RoundTrip(bs[3..]);
      assert bs == bs[..3] + bs[3..];
    }
  }

  predicate Printable(bs: seq<Byte>) {
    forall i :: 0 <= i < |bs| ==> 32 <= bs[i] <= 126
  }

  /** The encoding is made of printable ASCII characters only. */
  lemma {:induction false} EncodePrintable(bs: seq<Byte>)
    ensures Printable(Encode(bs))
    decreases |bs|
  {
    if |bs| > 3 {
      EncodePrintable(bs[3..]);
    }
  }
}
