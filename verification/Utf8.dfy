/**
 The encoding of section 3 of RFC 3629 and why searching in bytes and searching in characters
 agree: a lead byte starts a character, so a match of encoded text starts at a boundary.
 */
module Utf8 {
  import opened Words
  import opened SourceOrder

  /** A Unicode scalar value. */
  type Scalar = x: int | 0 <= x < 0xD800 || 0xE000 <= x < 0x110000

  function Encode(c: Scalar): (s: seq<byte>)
    ensures 1 <= |s| <= 4
  {
    if c < 0x80 then [c]
    else if c < 0x800 then [0xC0 + c / 0x40, 0x80 + c % 0x40]
    else if c < 0x10000 then [0xE0 + c / 0x1000, 0x80 + c / 0x40 % 0x40, 0x80 + c % 0x40]
    else [0xF0 + c / 0x40000, 0x80 + c / 0x1000 % 0x40, 0x80 + c / 0x40 % 0x40, 0x80 + c % 0x40]
  }

  predicate IsContinuation(b: byte) {
    0x80 <= b < 0xC0
  }

  /** The length of the sequence that a lead byte starts. */
  function LeadLength(b: byte): nat {
    if b < 0x80 then 1 else if b < 0xE0 then 2 else if b < 0xF0 then 3 else 4
  }

  /** The character that a sequence stands for. */
  function Decode(s: seq<byte>): int
    requires 1 <= |s| <= 4
  {
    var x: seq<int> := s;
    match |x|
    case 1 => x[0]
    case 2 => (x[0] - 0xC0) * 0x40 + (x[1] - 0x80)
    case 3 => (x[0] - 0xE0) * 0x1000 + (x[1] - 0x80) * 0x40 + (x[2] - 0x80)
    case _ => (x[0] - 0xF0) * 0x40000 + (x[1] - 0x80) * 0x1000 + (x[2] - 0x80) * 0x40 + (x[3] - 0x80)
  }

  /** The first byte tells the length and is no continuation byte; all others are. */
  lemma EncodeShape(c: Scalar)
    ensures !IsContinuation(Encode(c)[0]) && |Encode(c)| == LeadLength(Encode(c)[0])
    ensures forall i :: 0 < i < |Encode(c)| ==> IsContinuation(Encode(c)[i])
  {
  }

  lemma DecodeEncode(c: Scalar)
    ensures Decode(Encode(c)) == c
  {
    if c >= 0x10000 {
      assert c / 0x1000 == (c / 0x40000) * 0x40 + c / 0x1000 % 0x40;
      assert c / 0x40 == (c / 0x1000) * 0x40 + c / 0x40 % 0x40;
    } else if c >= 0x800 {
      assert c / 0x40 == (c / 0x1000) * 0x40 + c / 0x40 % 0x40;
    }
  }

  // ---- The shortest form ----

  /** A lead byte of the sequence's length, then continuation bytes. */
  predicate HasShape(s: seq<byte>) {
    && 1 <= |s| <= 4 && !IsContinuation(s[0]) && LeadLength(s[0]) == |s|
    && forall i :: 0 < i < |s| ==> IsContinuation(s[i])
  }

  /** Of all sequences that stand for a character, its encoding is the shortest, and the only one that short. */
  lemma ShortestForm(c: Scalar, s: seq<byte>)
    requires HasShape(s) && Decode(s) == c
    ensures |Encode(c)| <= |s| && (|Encode(c)| == |s| ==> Encode(c) == s)
  {
    EncodeShape(c);
    DecodeEncode(c);
    if |Encode(c)| == |s| {
      SameDigits(Encode(c), s);
    }
  }

  lemma LastDigit(a: int, b: int, c: int, d: int)
    requires a * 0x40 + b == c * 0x40 + d && 0 <= b < 0x40 && 0 <= d < 0x40
    ensures a == c && b == d
  {
  }

  /** What all bytes but the last stand for. */
  function Leading(s: seq<byte>): int
    requires 2 <= |s| <= 4
  {
    var x: seq<int> := s;
    match |x|
    case 2 => x[0] - 0xC0
    case 3 => (x[0] - 0xE0) * 0x40 + (x[1] - 0x80)
    case _ => (x[0] - 0xF0) * 0x1000 + (x[1] - 0x80) * 0x40 + (x[2] - 0x80)
  }

  /** Sequences of one length are told apart by what they stand for. */
  lemma SameDigits(s: seq<byte>, t: seq<byte>)
    requires HasShape(s) && HasShape(t) && |s| == |t| && Decode(s) == Decode(t)
    ensures s == t
  {
    var n := |s|;
    if n > 1 {
      assert IsContinuation(s[n - 1]) && IsContinuation(t[n - 1]);
      LastDigit(Leading(s), s[n - 1] - 0x80, Leading(t), t[n - 1] - 0x80);
      SameLeading(s, t);
    }
  }

  lemma SameLeading(s: seq<byte>, t: seq<byte>)
    requires HasShape(s) && HasShape(t) && |s| == |t| > 1 && Leading(s) == Leading(t)
    ensures forall i :: 0 <= i < |s| - 1 ==> s[i] == t[i]
  {
    if |s| > 2 {
      assert IsContinuation(s[1]) && IsContinuation(t[1]);
    }
    if |s| == 3 {
      var x: seq<int>, y: seq<int> := s, t;
      LastDigit(x[0] - 0xE0, x[1] - 0x80, y[0] - 0xE0, y[1] - 0x80);
    } else if |s| == 4 {
      assert IsContinuation(s[2]) && IsContinuation(t[2]);
      var x: seq<int>, y: seq<int> := s, t;
      LastDigit((x[0] - 0xF0) * 0x40 + (x[1] - 0x80), x[2] - 0x80, (y[0] - 0xF0) * 0x40 + (y[1] - 0x80), y[2] - 0x80);
      LastDigit(x[0] - 0xF0, x[1] - 0x80, y[0] - 0xF0, y[1] - 0x80);
    }
  }

  /** Examples of section 7 of RFC 3629. */
  lemma RfcExamples()
    ensures Encode(0x41) == [0x41] && Encode(0x391) == [0xCE, 0x91] && Encode(0x2262) == [0xE2, 0x89, 0xA2]
    ensures Encode(0xD55C) == [0xED, 0x95, 0x9C] && Encode(0xFEFF) == [0xEF, 0xBB, 0xBF]
    ensures Encode(0x233B4) == [0xF0, 0xA3, 0x8E, 0xB4]
  {
  }

  // ---- The order of characters and of bytes ----

  predicate ByteLess(x: byte, y: byte) {
    x < y
  }

  predicate CharacterLess(x: Scalar, y: Scalar) {
    x < y
  }

  /** Among sequences of one length the first difference decides what is larger. */
  lemma DigitOrder(s: seq<byte>, t: seq<byte>) returns (k: nat)
    requires HasShape(s) && HasShape(t) && |s| == |t| && Decode(s) < Decode(t)
    ensures k < |s| && s[..k] == t[..k] && s[k] < t[k]
  {
    if s[0] != t[0] {
      k := 0;
    } else if s[1] != t[1] {
      k := 1;
    } else if s[2] != t[2] {
      k := 2;
    } else {
      k := 3;
    }
    if |s| > 1 {
      assert IsContinuation(s[1]) && IsContinuation(t[1]);
    }
    if |s| > 2 {
      assert IsContinuation(s[2]) && IsContinuation(t[2]);
    }
    if |s| > 3 {
      assert IsContinuation(s[3]) && IsContinuation(t[3]);
    }
  }

  lemma EncodeOrder(c: Scalar, d: Scalar) returns (k: nat)
    requires c < d
    ensures k < |Encode(c)| && k < |Encode(d)| && Encode(c)[..k] == Encode(d)[..k] && Encode(c)[k] < Encode(d)[k]
  {
    EncodeShape(c);
    EncodeShape(d);
    if |Encode(c)| == |Encode(d)| {
      DecodeEncode(c);
      DecodeEncode(d);
      k := DigitOrder(Encode(c), Encode(d));
    } else {
      k := 0;
    }
  }

  function EncodeAll(t: seq<Scalar>): seq<byte> {
    if t == [] then [] else Encode(t[0]) + EncodeAll(t[1..])
  }

  lemma {:induction false} EncodeAppend(s: seq<Scalar>, t: seq<Scalar>)
    ensures EncodeAll(s + t) == EncodeAll(s) + EncodeAll(t)
  {
    if s == [] {
      assert s + t == t;
    } else {
      assert (s + t)[1..] == s[1..] + t;
      EncodeAppend(s[1..], t);
    }
  }

  /** A byte that is no continuation byte starts a character. */
  lemma {:induction false} LeadIsBoundary(t: seq<Scalar>, b: nat) returns (k: nat)
    requires b < |EncodeAll(t)| && !IsContinuation(EncodeAll(t)[b])
    ensures k < |t| && |EncodeAll(t[..k])| == b
  {
    var n := |Encode(t[0])|;
    EncodeShape(t[0]);
    if b < n {
      assert EncodeAll(t)[b] == Encode(t[0])[b];
      k := 0;
    } else {
      assert EncodeAll(t)[b] == EncodeAll(t[1..])[b - n];
      k := LeadIsBoundary(t[1..], b - n);
      assert t[..k + 1][1..] == t[1..][..k];
      k := k + 1;
    }
  }

  /** Equal encodings start with equal characters. */
  lemma FirstCharacter(c: Scalar, d: Scalar, s: seq<byte>, t: seq<byte>)
    requires Encode(c) + s <= Encode(d) + t
    ensures c == d && s <= t
  {
    var x, y := Encode(c) + s, Encode(d) + t;
    EncodeShape(c);
    EncodeShape(d);
    assert x[0] == y[0] && x[0] == Encode(c)[0] && y[0] == Encode(d)[0];
    var n := |Encode(c)|;
    forall i | 0 <= i < n ensures Encode(c)[i] == Encode(d)[i] {
      assert x[i] == y[i];
    }
    assert Encode(c) == Encode(d);
    DecodeEncode(c);
    DecodeEncode(d);
    assert x[n..] == s && y[n..] == t;
    forall i | 0 <= i < |s| ensures s[i] == t[i] {
      assert x[n + i] == y[n + i];
    }
  }

  /** A text is a prefix exactly when its encoding is. */
  lemma {:induction false} PrefixAgrees(p: seq<Scalar>, t: seq<Scalar>)
    ensures EncodeAll(p) <= EncodeAll(t) <==> p <= t
  {
    if p != [] && t != [] {
      PrefixAgrees(p[1..], t[1..]);
      if EncodeAll(p) <= EncodeAll(t) {
        FirstCharacter(p[0], t[0], EncodeAll(p[1..]), EncodeAll(t[1..]));
        assert p == [p[0]] + p[1..] && t == [t[0]] + t[1..];
      }
      if p <= t {
        assert p[0] == t[0] && p[1..] <= t[1..];
      }
    }
  }

  /** Texts are ordered by their characters as by their bytes. */
  lemma {:induction false} OrderAgrees(s: seq<Scalar>, t: seq<Scalar>)
    ensures TextLess(ByteLess, EncodeAll(s), EncodeAll(t)) <==> TextLess(CharacterLess, s, t)
    decreases |s|
  {
    if s != [] && t != [] {
      var x, y := EncodeAll(s[1..]), EncodeAll(t[1..]);
      if s[0] == t[0] {
        LessBehind(ByteLess, Encode(s[0]), x, y);
        OrderAgrees(s[1..], t[1..]);
      } else if s[0] < t[0] {
        var k := EncodeOrder(s[0], t[0]);
        LessInside(ByteLess, Encode(s[0]), Encode(t[0]), x, y, k);
      } else {
        var k := EncodeOrder(t[0], s[0]);
        LessInside(ByteLess, Encode(t[0]), Encode(s[0]), y, x, k);
        TextLessTotal(ByteLess, EncodeAll(s), EncodeAll(t));
      }
    }
  }
}
