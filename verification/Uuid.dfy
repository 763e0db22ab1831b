/**
 UUID text (`UUIDFieldIndex.parseString`) and the text form of section 4 of RFC 9562.
 */
module Uuid {
  import opened Bytes
  import opened Schema

  const HYPHEN: byte := 45

  function HexValue(c: byte): Option<nat> {
    if 48 <= c <= 57 then Some(c - 48)
    else if 97 <= c <= 102 then Some(c - 87)
    else if 65 <= c <= 70 then Some(c - 55)
    else None
  }

  function Hyphens(s: Key): nat {
    if s == [] then 0 else (if s[0] == HYPHEN then 1 else 0) + Hyphens(s[1..])
  }

  /** The text without its hyphens. */
  function Digits(s: Key): Key {
    if s == [] then []
    else if s[0] == HYPHEN then Digits(s[1..])
    else [s[0]] + Digits(s[1..])
  }

  /** `hex.DecodeString`. */
  function DecodeHex(s: Key): (r: Option<Key>)
    ensures r.Some? ==> |s| == 2 * |r.value|
  {
    if s == [] then Some([])
    else if |s| == 1 then None
    else
      var high, low, rest := HexValue(s[0]), HexValue(s[1]), DecodeHex(s[2..]);
      if high.Some? && low.Some? && rest.Some? then Some([16 * high.value + low.value] + rest.value) else None
  }

  /** `parseString`. */
  function ParseString(s: Key, enforceLength: bool): Option<Key> {
    if enforceLength && |s| != 36 then None
    else if |s| > 36 then None
    else if Hyphens(s) > 4 then None
    else if |Digits(s)| % 2 != 0 then None
    else DecodeHex(Digits(s))
  }

  // ---------------------------------------------------------------- text form

  function HexDigit(v: nat): (c: byte)
    requires v < 16
    ensures HexValue(c) == Some(v) && c != HYPHEN
  {
    if v < 10 then 48 + v else 87 + v
  }

  function EncodeHex(b: Key): Key {
    if b == [] then [] else [HexDigit(b[0] / 16), HexDigit(b[0] % 16)] + EncodeHex(b[1..])
  }

  /** The canonical text of a UUID: hexadecimal groups of 8, 4, 4, 4 and 12 digits. */
  function CanonicalText(u: Key): Key
    requires |u| == 16
  {
    EncodeHex(u[..4]) + [HYPHEN] + EncodeHex(u[4..6]) + [HYPHEN] + EncodeHex(u[6..8]) + [HYPHEN]
    + EncodeHex(u[8..10]) + [HYPHEN] + EncodeHex(u[10..])
  }

  lemma {:induction false} StripConcat(a: Key, b: Key)
    ensures Digits(a + b) == Digits(a) + Digits(b)
    ensures Hyphens(a + b) == Hyphens(a) + Hyphens(b)
  {
    if a == [] {
      assert a + b == b;
    } else {
      assert (a + b)[1..] == a[1..] + b;
      StripConcat(a[1..], b);
    }
  }

  lemma {:induction false} StripLength(s: Key)
    ensures |Digits(s)| + Hyphens(s) == |s|
  {
    if s != [] {
      StripLength(s[1..]);
    }
  }

  lemma DecodePair(high: byte, low: byte, rest: Key)
    requires HexValue(high).Some? && HexValue(low).Some? && high != HYPHEN && low != HYPHEN
    ensures var t := [high, low] + rest;
            && Digits(t) == [high, low] + Digits(rest) && Hyphens(t) == Hyphens(rest)
            && DecodeHex(t) == if DecodeHex(rest).None? then None
                               else Some([16 * HexValue(high).value + HexValue(low).value] + DecodeHex(rest).value)
  {
    var t := [high, low] + rest;
    assert t[1..][0] == low && t[1..][1..] == rest && t[2..] == rest;
    assert Digits(t[1..]) == [low] + Digits(rest);
  }

  lemma {:induction false} HexRoundTrip(b: Key)
    ensures DecodeHex(EncodeHex(b)) == Some(b)
    ensures Digits(EncodeHex(b)) == EncodeHex(b) && Hyphens(EncodeHex(b)) == 0
    ensures |EncodeHex(b)| == 2 * |b|
  {
    hide Digits, Hyphens, DecodeHex, HexValue, HexDigit;
    if b == [] {
      EmptyHex(EncodeHex(b));
    } else {
      HexRoundTrip(b[1..]);
      DecodePair(HexDigit(b[0] / 16), HexDigit(b[0] % 16), EncodeHex(b[1..]));
      assert b == [b[0]] + b[1..];
    }
  }

  lemma EmptyHex(none: Key)
    requires none == []
    ensures DecodeHex(none) == Some([]) && Digits(none) == [] && Hyphens(none) == 0
  {
  }

  lemma {:induction false} HexConcat(a: Key, b: Key)
    ensures EncodeHex(a + b) == EncodeHex(a) + EncodeHex(b)
  {
    if a == [] {
      assert a + b == b;
    } else {
      assert (a + b)[1..] == a[1..] + b;
      HexConcat(a[1..], b);
    }
  }

  lemma Group(s: Key, t: Key)
    ensures Digits(s + [HYPHEN] + t) == Digits(s) + Digits(t)
    ensures Hyphens(s + [HYPHEN] + t) == Hyphens(s) + 1 + Hyphens(t)
  {
    StripConcat(s + [HYPHEN], t);
    StripConcat(s, [HYPHEN]);
    assert Digits([HYPHEN]) == [] && Hyphens([HYPHEN]) == 1;
  }

  lemma CanonicalDigits(u: Key)
    requires |u| == 16
    ensures Digits(CanonicalText(u)) == EncodeHex(u)
    ensures Hyphens(CanonicalText(u)) == 4
    ensures |CanonicalText(u)| == 36
  {
    hide Digits, Hyphens, EncodeHex;
    var a, b, c, d, e := u[..4], u[4..6], u[6..8], u[8..10], u[10..];
    HexRoundTrip(a);
    HexRoundTrip(b);
    HexRoundTrip(c);
    HexRoundTrip(d);
    HexRoundTrip(e);
    var t1 := EncodeHex(a) + [HYPHEN] + EncodeHex(b);
    var t2 := t1 + [HYPHEN] + EncodeHex(c);
    var t3 := t2 + [HYPHEN] + EncodeHex(d);
    Group(EncodeHex(a), EncodeHex(b));
    Group(t1, EncodeHex(c));
    Group(t2, EncodeHex(d));
    Group(t3, EncodeHex(e));
    HexConcat(a, b);
    HexConcat(a + b, c);
    HexConcat(a + b + c, d);
    HexConcat(a + b + c + d, e);
    assert u == a + b + c + d + e;
  }

  /** Canonical text parses to the sixteen original bytes, with or without the length check. */
  lemma CanonicalRoundTrip(u: Key, enforceLength: bool)
    requires |u| == 16
    ensures ParseString(CanonicalText(u), enforceLength) == Some(u)
  {
    CanonicalDigits(u);
    HexRoundTrip(u);
  }

  lemma {:induction false} DecodePrefix(s: Key, n: nat)
    requires DecodeHex(s).Some? && 2 * n <= |s|
    ensures DecodeHex(s[..2 * n]) == Some(DecodeHex(s).value[..n])
  {
    if n > 0 {
      DecodePrefix(s[2..], n - 1);
      assert s[2..][..2 * (n - 1)] == s[..2 * n][2..];
      var rest := DecodeHex(s[2..]).value;
      assert DecodeHex(s).value[..n] == [DecodeHex(s).value[0]] + rest[..n - 1];
    }
  }

  /** A textual prefix of canonical text parses, without the length check, exactly if it has an
      even number of hex digits, and then it is a byte prefix of the UUID. */
  lemma TextPrefixIsBytePrefix(u: Key, k: nat)
    requires |u| == 16 && k <= 36
    ensures |CanonicalText(u)| == 36
    ensures |Digits(CanonicalText(u)[..k])| <= 32
    ensures var text := CanonicalText(u)[..k];
            var n := |Digits(text)|;
            ParseString(text, false) == if n % 2 == 0 then Some(u[..n / 2]) else None
  {
    CanonicalDigits(u);
    HexRoundTrip(u);
    var all := CanonicalText(u);
    var text := all[..k];
    assert all == text + all[k..];
    StripConcat(text, all[k..]);
    var n := |Digits(text)|;
    assert Digits(text) == EncodeHex(u)[..n];
    if n % 2 == 0 {
      DecodePrefix(EncodeHex(u), n / 2);
    }
  }

  /** The length check does not check the shape: a full-length text decodes to
      sixteen bytes if and only if it has exactly four hyphens; with fewer it is longer. */
  lemma EnforcedLengthIff(s: Key)
    requires ParseString(s, true).Some?
    ensures var r := ParseString(s, true).value;
            && 2 * |r| == 36 - Hyphens(s)
            && (|r| == 16 <==> Hyphens(s) == 4)
            && (|r| == 17 <==> Hyphens(s) == 2)
            && (|r| == 18 <==> Hyphens(s) == 0)
            && 16 <= |r| <= 18
  {
    StripLength(s);
  }

  /** A parse decides the digits: whatever parses to `r` has the digits of `r`, up to case. */
  lemma {:induction false} DecodeIsInjective(s: Key, t: Key)
    requires DecodeHex(s).Some? && DecodeHex(s) == DecodeHex(t)
    ensures |s| == |t| && forall i :: 0 <= i < |s| ==> HexValue(s[i]) == HexValue(t[i])
  {
    if s != [] {
      var r := DecodeHex(s).value;
      assert r[1..] == DecodeHex(s[2..]).value && r[1..] == DecodeHex(t[2..]).value;
      DecodeIsInjective(s[2..], t[2..]);
      var a, b, c, d := HexValue(s[0]).value, HexValue(s[1]).value, HexValue(t[0]).value, HexValue(t[1]).value;
      assert r[0] == 16 * a + b == 16 * c + d;
      assert a == c && b == d;
      forall i | 0 <= i < |s| ensures HexValue(s[i]) == HexValue(t[i]) {
        if i >= 2 {
          assert s[2..][i - 2] == s[i] && t[2..][i - 2] == t[i];
        }
      }
    }
  }

  /** A text of eighteen bytes passes for a UUID. */
  lemma LongUuidParses()
    ensures exists s :: |s| == 36 && ParseString(s, true).Some? && |ParseString(s, true).value| == 18
  {
    var b: Key := seq(18, _ => 0);
    HexRoundTrip(b);
    assert ParseString(EncodeHex(b), true) == Some(b);
  }

  /** Hexadecimal text in lower case. */
  function LowerHex(s: Key): (r: Key)
    ensures |r| == |s|
    ensures forall i :: 0 <= i < |s| ==> r[i] == if 65 <= s[i] <= 70 then s[i] + 32 else s[i]
  {
    seq(|s|, i requires 0 <= i < |s| => if 65 <= s[i] <= 70 then s[i] + 32 else s[i])
  }

  lemma DigitIff(c: byte, v: nat)
    requires v < 16
    ensures HexValue(c) == Some(v) <==> (if 65 <= c <= 70 then c + 32 else c) == HexDigit(v)
    ensures HexDigit(v) == if v < 10 then 48 + v else 87 + v
  {
  }

  /** Text decodes to some bytes exactly if it is their hexadecimal text, in either case. */
  lemma {:induction false} DecodesIff(s: Key, r: Key)
    ensures DecodeHex(s) == Some(r) <==> LowerHex(s) == EncodeHex(r)
    decreases |r|
  {
    HexRoundTrip(r);
    if r == [] {
      assert EncodeHex(r) == [];
    } else if |s| >= 2 {
      DecodesIff(s[2..], r[1..]);
      DigitIff(s[0], r[0] / 16);
      DigitIff(s[1], r[0] % 16);
      LowerPair(s);
      assert r == [r[0]] + r[1..];
      PairIff(s, r);
    }
  }

  lemma LowerPair(s: Key)
    requires |s| >= 2
    ensures LowerHex(s) == [LowerHex(s)[0], LowerHex(s)[1]] + LowerHex(s[2..])
  {
  }

  lemma PairIff(s: Key, r: Key)
    requires |s| >= 2 && r != []
    ensures DecodeHex(s) == Some(r) <==>
            HexValue(s[0]) == Some(r[0] / 16) && HexValue(s[1]) == Some(r[0] % 16) && DecodeHex(s[2..]) == Some(r[1..])
  {
    hide HexValue;
    HexBound(s[0]);
    HexBound(s[1]);
    if DecodeHex(s).Some? {
      var high, low := HexValue(s[0]).value, HexValue(s[1]).value;
      assert DecodeHex(s).value == [16 * high + low] + DecodeHex(s[2..]).value;
      assert DecodeHex(s).value[1..] == DecodeHex(s[2..]).value;
      assert DecodeHex(s).value[0] == 16 * high + low;
    }
    assert r == [r[0]] + r[1..];
  }

  lemma HexBound(c: byte)
    ensures HexValue(c).Some? ==> HexValue(c).value < 16
  {
  }

  /** Two texts that parse give the same bytes exactly if they have the same digits, up to case. */
  lemma SameBytesIff(s: Key, t: Key)
    requires DecodeHex(s).Some? && DecodeHex(t).Some?
    ensures DecodeHex(s) == DecodeHex(t) <==> LowerHex(s) == LowerHex(t)
  {
    DecodesIff(s, DecodeHex(s).value);
    DecodesIff(t, DecodeHex(t).value);
    DecodesIff(s, DecodeHex(t).value);
  }

  lemma {:induction false} EncodePrefix(a: Key, b: Key)
    ensures EncodeHex(a) <= EncodeHex(b) <==> a <= b
  {
    HexRoundTrip(a);
    HexRoundTrip(b);
    if a != [] && b != [] {
      EncodePrefix(a[1..], b[1..]);
      var x, y := EncodeHex(a), EncodeHex(b);
      assert x == [x[0], x[1]] + EncodeHex(a[1..]) && y == [y[0], y[1]] + EncodeHex(b[1..]);
      DigitIff(x[0], a[0] / 16);
      DigitIff(x[1], a[0] % 16);
      DigitIff(y[0], b[0] / 16);
      DigitIff(y[1], b[0] % 16);
      PairPrefix(x[0], x[1], EncodeHex(a[1..]), y[0], y[1], EncodeHex(b[1..]));
      PrefixCons(a, b);
    }
  }

  lemma PairPrefix(p: byte, q: byte, x: Key, p': byte, q': byte, y: Key)
    ensures [p, q] + x <= [p', q'] + y <==> p == p' && q == q' && x <= y
  {
    var a, b := [p, q] + x, [p', q'] + y;
    assert a[0] == p && a[1] == q && b[0] == p' && b[1] == q' && a[2..] == x && b[2..] == y;
    if p == p' && q == q' && x <= y {
      assert b == [p, q] + (x + y[|x|..]);
    }
    if a <= b {
      assert a == b[..|a|];
      assert x == b[..|a|][2..];
    }
  }

  lemma PrefixCons(a: Key, b: Key)
    requires a != [] && b != []
    ensures a <= b <==> a[0] == b[0] && a[1..] <= b[1..]
  {
    assert a == [a[0]] + a[1..] && b == [b[0]] + b[1..];
  }

  predicate IsHexDigit(c: byte) {
    48 <= c <= 57 || 65 <= c <= 70 || 97 <= c <= 102
  }

  predicate AllHex(s: Key) {
    forall i :: 0 <= i < |s| ==> IsHexDigit(s[i])
  }

  /** Exactly texts of whole pairs of hexadecimal digits decode. */
  lemma {:induction false} DecodesWhole(s: Key)
    ensures DecodeHex(s).Some? <==> |s| % 2 == 0 && AllHex(s)
  {
    if |s| >= 2 {
      DecodesWhole(s[2..]);
      forall i | 2 <= i < |s| ensures s[i] == s[2..][i - 2] {
      }
      if AllHex(s[2..]) && IsHexDigit(s[0]) && IsHexDigit(s[1]) {
        forall i | 0 <= i < |s| ensures IsHexDigit(s[i]) {
        }
      }
    }
  }

  /** Which texts parse: at most 36 bytes, or exactly as many where the length is enforced, at most four
      of them hyphens, wherever they stand, and the others whole pairs of hexadecimal digits. */
  lemma ParsesIff(s: Key, enforceLength: bool)
    ensures ParseString(s, enforceLength).Some? <==>
            && |s| <= 36 && (enforceLength ==> |s| == 36) && Hyphens(s) <= 4
            && (|s| - Hyphens(s)) % 2 == 0 && AllHex(Digits(s))
  {
    StripLength(s);
    DecodesWhole(Digits(s));
  }

  /** Bytes are ordered like their hexadecimal text. */
  lemma {:induction false} HexOrder(a: Key, b: Key)
    ensures Less(EncodeHex(a), EncodeHex(b)) <==> Less(a, b)
  {
    if a != [] && b != [] {
      HexOrder(a[1..], b[1..]);
      var x, y := EncodeHex(a), EncodeHex(b);
      assert x[1..][1..] == EncodeHex(a[1..]) && y[1..][1..] == EncodeHex(b[1..]);
      DigitOrder(a[0] / 16, b[0] / 16);
      DigitOrder(a[0] % 16, b[0] % 16);
      LessTwice(x, y);
    }
  }

  lemma DigitOrder(v: nat, w: nat)
    requires v < 16 && w < 16
    ensures HexDigit(v) < HexDigit(w) <==> v < w
    ensures HexDigit(v) == HexDigit(w) <==> v == w
  {
  }

  lemma LessTwice(x: Key, y: Key)
    requires |x| >= 2 && |y| >= 2
    ensures Less(x, y) <==> x[0] < y[0] || (x[0] == y[0] && (x[1] < y[1] || (x[1] == y[1] && Less(x[1..][1..], y[1..][1..]))))
  {
  }
}
