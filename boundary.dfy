/**
 * `Mime.make_boundary`: `----_=_NextPart_<counter as %03d>_<identity as %08x>.<time as %08x>`.
 * The object identity and the clock reading are parameters.
 */
module Boundary {
  import opened Wrappers
  import opened Text

  const Prefix: string := "----_=_NextPart_"

  /** The digits of `n` in `base`, most significant first (zero has one digit). */
  function Digits(n: nat, base: nat): (ds: seq<nat>)
    requires 2 <= base <= 16
    ensures |ds| > 0 && forall i :: 0 <= i < |ds| ==> ds[i] < base
    decreases n
  {
    if n < base then [n] else Digits(n / base, base) + [n % base]
  }

  /** Lower-case digit characters, as `%d` and `%x` write them. */
  function DigitChar(d: nat): (c: char)
    requires d < 16
    ensures c != '_' && c != '.' && c != '"' && c != ';' && !IsSpace(c) && c < 128 as char
  {
    if d < 10 then (48 + d) as char else (87 + d) as char
  }

  function DigitValue(c: char): nat {
    if '0' <= c <= '9' then c as int - 48 else if 'a' <= c <= 'f' then c as int - 87 else 0
  }

  function Spell(ds: seq<nat>): (s: string)
    requires forall i :: 0 <= i < |ds| ==> ds[i] < 16
    ensures |s| == |ds|
    ensures forall i :: 0 <= i < |s| ==> s[i] == DigitChar(ds[i])
  {
    seq(|ds|, i requires 0 <= i < |ds| => DigitChar(ds[i]))
  }

  function Zeros(k: nat): (s: string)
    ensures |s| == k && forall i :: 0 <= i < k ==> s[i] == '0'
  {
    seq(k, _ => '0')
  }

  /** `'%0<width><d or x>' % n` for a non-negative `n`. */
  function Format(n: nat, base: nat, width: nat): (s: string)
    requires base == 10 || base == 16
  {
    var digits := Spell(Digits(n, base));
    if |digits| >= width then digits else Zeros(width - |digits|) + digits
  }

  /** Reading digits back, most significant first. */
  function ReadNumber(s: string, base: nat): nat
    decreases |s|
  {
    if s == [] then 0 else ReadNumber(s[..|s| - 1], base) * base + DigitValue(s[|s| - 1])
  }

  lemma {:induction false} ReadDigits(n: nat, base: nat)
    requires base == 10 || base == 16
    ensures ReadNumber(Spell(Digits(n, base)), base) == n
    decreases n
  {
    var s := Spell(Digits(n, base));
    if n >= base {
      ReadDigits(n / base, base);
      assert s[..|s| - 1] == Spell(Digits(n / base, base));
    }
  }

  lemma {:induction false} ReadLeadingZeros(k: nat, s: string, base: nat)
    ensures ReadNumber(Zeros(k) + s, base) == ReadNumber(s, base)
    decreases |s|, k
  {
    if s == [] {
      assert Zeros(k) + s == Zeros(k);
      if k > 0 {
        assert Zeros(k)[..k - 1] == Zeros(k - 1) + [];
        ReadLeadingZeros(k - 1, [], base);
      }
    } else {
      assert (Zeros(k) + s)[..|Zeros(k) + s| - 1] == Zeros(k) + s[..|s| - 1];
      ReadLeadingZeros(k, s[..|s| - 1], base);
    }
  }

  /** `'%03d'`-style formatting with zero padding is undone by reading the digits back. */
  lemma ReadFormat(n: nat, width: nat)
    ensures ReadNumber(Format(n, 10, width), 10) == n
  {
    var digits := Spell(Digits(n, 10));
    ReadDigits(n, 10);
    if |digits| < width {
      assert Format(n, 10, width) == Zeros(width - |digits|) + digits;
      ReadLeadingZeros(width - |digits|, digits, 10);
    } else {
      assert Format(n, 10, width) == digits;
    }
  }

  lemma FormatHasNoSeparator(n: nat, base: nat, width: nat)
    requires base == 10 || base == 16
    ensures '_' !in Format(n, base, width)
  {
    var digits := Spell(Digits(n, base));
    assert '_' !in digits;
    assert '_' !in Zeros(width);
  }

  /** Every character `Format` writes is an ASCII digit, so none of them is `"`, `;` or a space. */
  lemma FormatPlain(n: nat, base: nat, width: nat)
    requires base == 10 || base == 16
    ensures AllPlain(Format(n, base, width))
  {
  }

  /** A character a quoted header attribute value can carry and ASCII transcoding keeps. */
  predicate Plain(c: char) {
    c != '"' && c != ';' && !IsSpace(c) && c < 128 as char
  }

  predicate AllPlain(s: string) {
    forall i :: 0 <= i < |s| ==> Plain(s[i])
  }

  lemma PlainConcat(a: string, b: string)
    requires AllPlain(a) && AllPlain(b)
    ensures AllPlain(a + b)
  {
  }

  /** A boundary is plain ASCII, so it can be written as a quoted attribute value. */
  lemma BoundaryPlain(counter: nat, identity: nat, time: nat)
    ensures AllPlain(MakeBoundary(counter, identity, time))
  {
    var f1, f2, f3 := Format(counter, 10, 3), Format(identity, 16, 8), Format(time, 16, 8);
    FormatPlain(counter, 10, 3);
    FormatPlain(identity, 16, 8);
    FormatPlain(time, 16, 8);
    assert AllPlain(Prefix);
    PlainConcat(Prefix, f1);
    PlainConcat(Prefix + f1, "_");
    PlainConcat(Prefix + f1 + "_", f2);
    PlainConcat(Prefix + f1 + "_" + f2, ".");
    PlainConcat(Prefix + f1 + "_" + f2 + ".", f3);
  }

  function MakeBoundary(counter: nat, identity: nat, time: nat): string {
    Prefix + Format(counter, 10, 3) + "_" + Format(identity, 16, 8) + "." + Format(time, 16, 8)
  }

  /** The counter written into a boundary: the digits between the prefix and the next `_`. */
  function CounterOf(boundary: string): Option<nat> {
    if Prefix <= boundary then
      var rest := boundary[|Prefix|..];
      Some(ReadNumber(rest[..IndexOf(rest, '_')], 10))
    else None
  }

  lemma CounterOfParts(digits: string, tail: string)
    requires '_' !in digits
    requires |tail| > 0 && tail[0] == '_'
    ensures CounterOf(Prefix + digits + tail) == Some(ReadNumber(digits, 10))
  {
    var b := Prefix + digits + tail;
    assert Prefix <= b;
    var rest := b[|Prefix|..];
    assert rest == digits + tail;
    var j := IndexOf(rest, '_');
    assert rest[|digits|] == '_';
    assert j == |digits|;
    assert rest[..|digits|] == digits;
  }

  /** The counter can be read back from the boundary made with it. */
  lemma CounterOfMakeBoundary(counter: nat, identity: nat, time: nat)
    ensures CounterOf(MakeBoundary(counter, identity, time)) == Some(counter)
  {
    var digits := Format(counter, 10, 3);
    var tail := "_" + Format(identity, 16, 8) + "." + Format(time, 16, 8);
    assert MakeBoundary(counter, identity, time) == Prefix + digits + tail;
    FormatHasNoSeparator(counter, 10, 3);
    CounterOfParts(digits, tail);
    ReadFormat(counter, 3);
  }

  /** Boundaries made from different counters are different, whatever the identity and time. */
  lemma DistinctCountersDistinctBoundaries(c1: nat, c2: nat, id1: nat, id2: nat, t1: nat, t2: nat)
    requires c1 != c2
    ensures MakeBoundary(c1, id1, t1) != MakeBoundary(c2, id2, t2)
  {
    CounterOfMakeBoundary(c1, id1, t1);
    CounterOfMakeBoundary(c2, id2, t2);
  }
}
