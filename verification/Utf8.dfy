/** UTF-8 (section 3 of RFC 3629) and the two orders that it relates: strings by code point and
    byte strings by byte. */
module Utf8 {
  import opened Outcomes

  type byte = b: int | 0 <= b < 256

  // ---------------------------------------------------------------- encoding

  function EncodeChar(c: char): (bs: seq<byte>)
    ensures 1 <= |bs| <= 4
  {
    var n := c as int;
    if n < 0x80 then [n]
    else if n < 0x800 then [0xC0 + n / 64, 0x80 + n % 64]
    else if n < 0x10000 then [0xE0 + n / 64 / 64, 0x80 + n / 64 % 64, 0x80 + n % 64]
    else [0xF0 + n / 64 / 64 / 64, 0x80 + n / 64 / 64 % 64, 0x80 + n / 64 % 64, 0x80 + n % 64]
  }

  /** `str.encode("utf-8")` */
  function Encode(s: string): seq<byte> {
    if s == "" then [] else EncodeChar(s[0]) + Encode(s[1..])
  }

  // ---------------------------------------------------------------- decoding

  predicate Continuation(b: byte) {
    0x80 <= b < 0xC0
  }

  /** The length of the sequence that a first byte announces; 0 for a byte that starts none. */
  function Announced(b: byte): nat {
    if b < 0x80 then 1
    else if 0xC2 <= b < 0xE0 then 2
    else if 0xE0 <= b < 0xF0 then 3
    else if 0xF0 <= b < 0xF5 then 4
    else 0
  }

  /** The number that a sequence spells: its first byte less the length mark, then digits of base 64. */
  function Payload(bs: seq<byte>): int
    requires 1 <= |bs| <= 4
  {
    if |bs| == 1 then bs[0] as int
    else if |bs| == 2 then Digit(bs[0] as int - 0xC0, bs[1])
    else if |bs| == 3 then Digit(Digit(bs[0] as int - 0xE0, bs[1]), bs[2])
    else Digit(Digit(Digit(bs[0] as int - 0xF0, bs[1]), bs[2]), bs[3])
  }

  function Digit(high: int, b: byte): int {
    high * 64 + (b as int - 0x80)
  }

  predicate Scalar(n: int) {
    0 <= n < 0xD800 || 0xE000 <= n < 0x110000
  }

  /** The least number that needs a sequence of this length: anything below it is overlong. */
  function Least(length: nat): int {
    if length == 3 then 0x800 else if length == 4 then 0x10000 else 0
  }

  function DecodeChar(bs: seq<byte>): Option<char>
    requires 1 <= |bs| <= 4
  {
    if (forall i | 1 <= i < |bs| :: Continuation(bs[i])) && Scalar(Payload(bs)) && Payload(bs) >= Least(|bs|)
    then Some(Payload(bs) as char)
    else None
  }

  function Decode(bs: seq<byte>): Option<string> {
    if bs == [] then Some("")
    else
      var n := Announced(bs[0]);
      if n == 0 || n > |bs| then None
      else
        var c := DecodeChar(bs[..n]);
        var rest := Decode(bs[n..]);
        if c.Some? && rest.Some? then Some([c.value] + rest.value) else None
  }

  lemma CharRoundTrip(c: char)
    ensures var bs := EncodeChar(c);
            Announced(bs[0]) == |bs| && DecodeChar(bs) == Some(c)
  {
    var n := c as int;
    assert n == n / 64 * 64 + n % 64;
    assert n / 64 == n / 64 / 64 * 64 + n / 64 % 64;
    assert n / 64 / 64 == n / 64 / 64 / 64 * 64 + n / 64 / 64 % 64;
    assert Payload(EncodeChar(c)) == n;
  }

  /** Every string is read back from its encoding. */
  lemma {:induction false} DecodeEncode(s: string)
    ensures Decode(Encode(s)) == Some(s)
  {
    if s != "" {
      var bs, rest := EncodeChar(s[0]), Encode(s[1..]);
      CharRoundTrip(s[0]);
      DecodeEncode(s[1..]);
      assert [s[0]] + s[1..] == s;
      assert (bs + rest)[0] == bs[0] && (bs + rest)[..|bs|] == bs && (bs + rest)[|bs|..] == rest;
    }
  }

  lemma DigitSplits(high: int, b: byte)
    requires Continuation(b)
    ensures Digit(high, b) / 64 == high && 0x80 + Digit(high, b) % 64 == b
  {
  }

  lemma DecodedCharIsEncoded(bs: seq<byte>, c: char)
    requires 1 <= |bs| <= 4 && Announced(bs[0]) == |bs| && DecodeChar(bs) == Some(c)
    ensures EncodeChar(c) == bs
  {
    assert forall i | 1 <= i < |bs| :: Continuation(bs[i]);
    if |bs| == 2 {
      DigitSplits(bs[0] as int - 0xC0, bs[1]);
    } else if |bs| == 3 {
      var high := Digit(bs[0] as int - 0xE0, bs[1]);
      DigitSplits(bs[0] as int - 0xE0, bs[1]);
      DigitSplits(high, bs[2]);
    } else if |bs| == 4 {
      var top := Digit(bs[0] as int - 0xF0, bs[1]);
      var high := Digit(top, bs[2]);
      DigitSplits(bs[0] as int - 0xF0, bs[1]);
      DigitSplits(top, bs[2]);
      DigitSplits(high, bs[3]);
    }
  }

  lemma FirstDecoded(bs: seq<byte>, s: string) returns (n: nat)
    requires bs != [] && Decode(bs) == Some(s)
    ensures 0 < n <= |bs| && s != "" && EncodeChar(s[0]) == bs[..n] && Decode(bs[n..]) == Some(s[1..])
  {
    n := Announced(bs[0]);
    var c, rest := DecodeChar(bs[..n]).value, Decode(bs[n..]).value;
    assert s == [c] + rest && s[1..] == rest;
    DecodedCharIsEncoded(bs[..n], c);
  }

  /** Nothing but the encoding of a string decodes to it: there are no overlong forms. */
  lemma {:induction false} EncodeDecode(bs: seq<byte>, s: string)
    requires Decode(bs) == Some(s)
    ensures Encode(s) == bs
  {
    if bs != [] {
      var n := FirstDecoded(bs, s);
      EncodeDecode(bs[n..], s[1..]);
    }
  }

  lemma EncodeInjective(s: string, t: string)
    requires Encode(s) == Encode(t)
    ensures s == t
  {
    DecodeEncode(s);
    DecodeEncode(t);
  }

  // ---------------------------------------------------------------- orders

  /** Byte strings in lexicographic order. */
  predicate BytesBefore(a: seq<byte>, b: seq<byte>) {
    if b == [] then false
    else if a == [] then true
    else a[0] < b[0] || (a[0] == b[0] && BytesBefore(a[1..], b[1..]))
  }

  /** Strings in lexicographic order of their code points, as Python compares them. */
  predicate Before(s: string, t: string) {
    if t == "" then false
    else if s == "" then true
    else s[0] < t[0] || (s[0] == t[0] && Before(s[1..], t[1..]))
  }

  lemma {:induction false} BeforeIsTotal(s: string, t: string)
    ensures Before(s, t) || Before(t, s) || s == t
  {
    if s != "" && t != "" && s[0] == t[0] {
      BeforeIsTotal(s[1..], t[1..]);
      assert s[1..] == t[1..] ==> s == t by {
        assert s == [s[0]] + s[1..] && t == [t[0]] + t[1..];
      }
    }
  }

  lemma {:induction false} BeforeIsTransitive(s: string, t: string, u: string)
    requires Before(s, t) && Before(t, u)
    ensures Before(s, u)
  {
    if s != "" && s[0] == t[0] && t[0] == u[0] {
      BeforeIsTransitive(s[1..], t[1..], u[1..]);
    }
  }

  lemma {:induction false} BeforeIsStrict(s: string, t: string)
    requires Before(s, t)
    ensures s != t && !Before(t, s)
  {
    if s != "" && s[0] == t[0] {
      BeforeIsStrict(s[1..], t[1..]);
    }
  }

  lemma {:induction false} CommonPrefix(p: seq<byte>, a: seq<byte>, b: seq<byte>)
    ensures BytesBefore(p + a, p + b) <==> BytesBefore(a, b)
  {
    if p == [] {
      assert p + a == a && p + b == b;
    } else {
      assert (p + a)[1..] == p[1..] + a && (p + b)[1..] == p[1..] + b;
      CommonPrefix(p[1..], a, b);
    }
  }

  /** `a` and `b` part at position `k`, where `a` has the smaller byte. */
  predicate PartsAt(a: seq<byte>, b: seq<byte>, k: nat) {
    k < |a| && k < |b| && a[..k] == b[..k] && a[k] < b[k]
  }

  lemma PartedStayParted(a: seq<byte>, b: seq<byte>, k: nat, x: seq<byte>, y: seq<byte>)
    requires PartsAt(a, b, k)
    ensures BytesBefore(a + x, b + y) && !BytesBefore(b + y, a + x)
  {
    var p := a[..k];
    assert a + x == p + ([a[k]] + a[k + 1..] + x);
    assert b + y == p + ([b[k]] + b[k + 1..] + y);
    CommonPrefix(p, [a[k]] + a[k + 1..] + x, [b[k]] + b[k + 1..] + y);
    CommonPrefix(p, [b[k]] + b[k + 1..] + y, [a[k]] + a[k + 1..] + x);
  }

  lemma DigitsInOrder(m: int, n: int)
    requires m < n
    ensures m / 64 < n / 64 || (m / 64 == n / 64 && m % 64 < n % 64)
  {
  }

  /** The encoding of a smaller code point parts from that of a larger one with the smaller byte. */
  lemma CharsPart(c: char, d: char)
    requires c < d
    ensures exists k | 0 <= k < 4 :: PartsAt(EncodeChar(c), EncodeChar(d), k)
  {
    var m, n := c as int, d as int;
    var a, b := EncodeChar(c), EncodeChar(d);
    if |a| != |b| || |a| == 1 {
      assert PartsAt(a, b, 0);
    } else {
      DigitsInOrder(m, n);
      if |a| == 2 {
        assert PartsAt(a, b, 0) || PartsAt(a, b, 1);
      } else if |a| == 3 {
        LongCharsPart(m, n, a, b, 1);
      } else {
        LongCharsPart(m, n, a, b, 2);
      }
    }
  }

  /** Two sequences of one length that end in the same digit of base 64, or the next one. */
  lemma LongCharsPart(m: int, n: int, a: seq<byte>, b: seq<byte>, k: nat)
    requires m < n && 1 <= k <= 2 && |a| == |b| == k + 2
    requires a[k + 1] == 0x80 + m % 64 && b[k + 1] == 0x80 + n % 64
    requires a[k] == 0x80 + m / 64 % 64 && b[k] == 0x80 + n / 64 % 64
    requires k == 1 ==> a[0] as int - b[0] as int == m / 64 / 64 - n / 64 / 64
    requires k == 2 ==> a[1] == 0x80 + m / 64 / 64 % 64 && b[1] == 0x80 + n / 64 / 64 % 64
                        && a[0] as int - b[0] as int == m / 64 / 64 / 64 - n / 64 / 64 / 64
    ensures exists k | 0 <= k < 4 :: PartsAt(a, b, k)
  {
    DigitsInOrder(m, n);
    if m / 64 == n / 64 {
      assert PartsAt(a, b, k + 1);
    } else {
      DigitsInOrder(m / 64, n / 64);
      if m / 64 / 64 == n / 64 / 64 {
        assert PartsAt(a, b, k);
      } else if k == 2 {
        DigitsInOrder(m / 64 / 64, n / 64 / 64);
        assert PartsAt(a, b, 0) || PartsAt(a, b, 1);
      } else {
        assert PartsAt(a, b, 0);
      }
    }
  }

  /** UTF-8 keeps the order of code points, in both directions. */
  lemma {:induction false} EncodeKeepsOrder(s: string, t: string)
    ensures Before(s, t) <==> BytesBefore(Encode(s), Encode(t))
  {
    if s != "" && t != "" {
      if s[0] == t[0] {
        EncodeKeepsOrder(s[1..], t[1..]);
        CommonPrefix(EncodeChar(s[0]), Encode(s[1..]), Encode(t[1..]));
      } else if s[0] < t[0] {
        CharsPart(s[0], t[0]);
        var k :| PartsAt(EncodeChar(s[0]), EncodeChar(t[0]), k);
        PartedStayParted(EncodeChar(s[0]), EncodeChar(t[0]), k, Encode(s[1..]), Encode(t[1..]));
      } else {
        CharsPart(t[0], s[0]);
        var k :| PartsAt(EncodeChar(t[0]), EncodeChar(s[0]), k);
        PartedStayParted(EncodeChar(t[0]), EncodeChar(s[0]), k, Encode(t[1..]), Encode(s[1..]));
      }
    }
  }
}
