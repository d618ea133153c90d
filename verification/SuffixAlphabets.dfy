/** The two alphabets of the suffix index, and why they give the same matches. */
module SuffixAlphabets {
  import opened Words
  import opened SourceOrder
  import opened Utf8
  import opened LegacySuffix
  import opened MatchOrder

  /** The last `n` digits of `id` to base 256, most significant first. */
  function BigEndian(id: nat, n: nat): (s: seq<byte>)
    ensures |s| == n
  {
    if n == 0 then [] else BigEndian(id / 256, n - 1) + [id % 256]
  }

  function HexDigit(d: nat): Scalar
    requires d < 16
  {
    if d < 10 then 48 + d else 87 + d
  }

  /** The last `n` hexadecimal digits of `id`. */
  function Hex(id: nat, n: nat): (s: seq<Scalar>)
    ensures |s| == n
  {
    if n == 0 then [] else Hex(id / 16, n - 1) + [HexDigit(id % 16)]
  }

  function Bytes(): Alphabet<byte> {
    Alphabet(0, 1, _ => 1, id => BigEndian(id, 8))
  }

  function Characters(): Alphabet<Scalar> {
    Alphabet(0xE000, 0xE001, c => |Encode(c)|, id => Hex(id, 16))
  }

  function Power(b: nat, n: nat): nat {
    if n == 0 then 1 else b * Power(b, n - 1)
  }

  lemma {:induction false} BigEndianInjective(i: nat, j: nat, n: nat)
    requires i < Power(256, n) && j < Power(256, n) && BigEndian(i, n) == BigEndian(j, n)
    ensures i == j
  {
    if n > 0 {
      var x, y := BigEndian(i / 256, n - 1), BigEndian(j / 256, n - 1);
      assert (x + [i % 256])[..n - 1] == x && (y + [j % 256])[..n - 1] == y;
      assert (x + [i % 256])[n - 1] == i % 256 && (y + [j % 256])[n - 1] == j % 256;
      BigEndianInjective(i / 256, j / 256, n - 1);
    }
  }

  lemma {:induction false} HexInjective(i: nat, j: nat, n: nat)
    requires i < Power(16, n) && j < Power(16, n) && Hex(i, n) == Hex(j, n)
    ensures i == j
  {
    if n > 0 {
      var x, y := Hex(i / 16, n - 1), Hex(j / 16, n - 1);
      var c, d := HexDigit(i % 16), HexDigit(j % 16);
      assert (x + [c])[..n - 1] == x && (y + [d])[..n - 1] == y;
      assert (x + [c])[n - 1] == c && (y + [d])[n - 1] == d;
      HexInjective(i / 16, j / 16, n - 1);
    }
  }

  // ---- Keys and ids ----

  /** The number that digits to base `b` stand for, the most significant first. */
  function Number(ds: seq<nat>, b: nat): nat {
    if ds == [] then 0 else Number(ds[..|ds| - 1], b) * b + ds[|ds| - 1]
  }

  /** A byte key holds the digits of its id to base 256. */
  lemma {:induction false} BigEndianNumber(id: nat, n: nat)
    requires id < Power(256, n)
    ensures Number(BigEndian(id, n), 256) == id
  {
    if n > 0 {
      BigEndianNumber(id / 256, n - 1);
      var front: seq<nat> := BigEndian(id / 256, n - 1);
      var ds: seq<nat> := BigEndian(id, n);
      assert ds[..n - 1] == front && ds[n - 1] == id % 256;
    }
  }

  /** Hexadecimal digits are the characters 0 to 9 and a to f. */
  lemma HexDigits()
    ensures forall d: nat :: d < 16 ==> HexDigit(d) == "0123456789abcdef"[d] as int
  {
  }

  /** Keys of smaller ids come first, in bytes. */
  lemma {:induction false} BigEndianOrder(i: nat, j: nat, n: nat)
    requires i < Power(256, n) && j < Power(256, n)
    ensures TextLess(ByteLess, BigEndian(i, n), BigEndian(j, n)) <==> i < j
  {
    if n > 0 {
      BigEndianOrder(i / 256, j / 256, n - 1);
      var x, y := BigEndian(i / 256, n - 1), BigEndian(j / 256, n - 1);
      var c: byte, d: byte := i % 256, j % 256;
      if i / 256 == j / 256 {
        LessBehind<byte>(ByteLess, x, [c], [d]);
      } else {
        if x == y {
          BigEndianInjective(i / 256, j / 256, n - 1);
        }
        LessDecided<byte>(ByteLess, x, y, [c], [d]);
      }
    }
  }

  /** And in characters. */
  lemma {:induction false} HexOrder(i: nat, j: nat, n: nat)
    requires i < Power(16, n) && j < Power(16, n)
    ensures TextLess(CharacterLess, Hex(i, n), Hex(j, n)) <==> i < j
  {
    if n > 0 {
      HexOrder(i / 16, j / 16, n - 1);
      var x, y := Hex(i / 16, n - 1), Hex(j / 16, n - 1);
      var c, d := HexDigit(i % 16), HexDigit(j % 16);
      if i / 16 == j / 16 {
        LessBehind(CharacterLess, x, [c], [d]);
      } else {
        if x == y {
          HexInjective(i / 16, j / 16, n - 1);
        }
        LessDecided(CharacterLess, x, y, [c], [d]);
      }
    }
  }

  /** So the ordered map lists source records by id. */
  lemma KeysInIdOrder(i: nat, j: nat)
    requires i < SOURCE_IDS && j < SOURCE_IDS
    ensures TextLess(ByteLess, SourceKey(Bytes(), i), SourceKey(Bytes(), j)) <==> i < j
    ensures TextLess(CharacterLess, SourceKey(Characters(), i), SourceKey(Characters(), j)) <==> i < j
  {
    PowersFit();
    BigEndianOrder(i, j, 8);
    HexOrder(i, j, 16);
    LessBehind(ByteLess, [Bytes().sourceTag], BigEndian(i, 8), BigEndian(j, 8));
    LessBehind(CharacterLess, [Characters().sourceTag], Hex(i, 16), Hex(j, 16));
  }

  lemma PowersFit()
    ensures Power(256, 8) == SOURCE_IDS && Power(16, 16) == SOURCE_IDS
  {
    assert Power(256, 4) == 0x1_0000_0000;
    assert Power(256, 8) == 256 * (256 * (256 * (256 * Power(256, 4))));
    assert Power(16, 4) == 0x1_0000;
    assert Power(16, 8) == 16 * (16 * (16 * (16 * Power(16, 4))));
    assert Power(16, 12) == 16 * (16 * (16 * (16 * Power(16, 8))));
    assert Power(16, 16) == 16 * (16 * (16 * (16 * Power(16, 12))));
  }

  /** The key spaces are disjoint and every source id has its own key, whatever characters texts contain. */
  lemma AlphabetsLawful()
    ensures Lawful(Bytes()) && Lawful(Characters())
  {
    PowersFit();
    forall i: nat, j: nat | i < SOURCE_IDS && j < SOURCE_IDS && BigEndian(i, 8) == BigEndian(j, 8) ensures i == j {
      BigEndianInjective(i, j, 8);
    }
    forall i: nat, j: nat | i < SOURCE_IDS && j < SOURCE_IDS && Hex(i, 16) == Hex(j, 16) ensures i == j {
      HexInjective(i, j, 16);
    }
  }

  // ---- Searching in bytes and in characters ----

  lemma {:induction false} ByteOffset(t: seq<byte>, k: nat)
    requires k <= |t|
    ensures Offset(Bytes(), t, k) == k
  {
    if k > 0 {
      ByteOffset(t, k - 1);
    }
  }

  lemma {:induction false} CharacterOffset(t: seq<Scalar>, k: nat)
    requires k <= |t|
    ensures Offset(Characters(), t, k) == |EncodeAll(t[..k])|
  {
    if k > 0 {
      CharacterOffset(t, k - 1);
      assert t[..k] == t[..k - 1] + [t[k - 1]];
      EncodeAppend(t[..k - 1], [t[k - 1]]);
      assert EncodeAll([t[k - 1]]) == Encode(t[k - 1]) + EncodeAll([]);
    }
  }

  lemma StartsIsPrefix<U>(t: seq<U>, k: nat, p: seq<U>)
    requires k <= |t|
    ensures StartsAt(t, k, p) <==> p <= t[k..]
  {
    if StartsAt(t, k, p) {
      assert forall i :: 0 <= i < |p| ==> p[i] == t[k..][i];
    }
    if p <= t[k..] {
      assert forall i :: 0 <= i < |p| ==> p[i] == t[k..][i];
    }
  }

  /** An encoded pattern starts at a byte exactly when the pattern starts at the character there. */
  lemma StartsAgree(t: seq<Scalar>, p: seq<Scalar>, j: nat)
    requires j <= |t|
    ensures |EncodeAll(t[..j])| <= |EncodeAll(t)|
    ensures StartsAt(EncodeAll(t), |EncodeAll(t[..j])|, EncodeAll(p)) <==> StartsAt(t, j, p)
  {
    EncodeAppend(t[..j], t[j..]);
    assert t[..j] + t[j..] == t;
    var k := |EncodeAll(t[..j])|;
    assert EncodeAll(t)[k..] == EncodeAll(t[j..]);
    StartsIsPrefix(EncodeAll(t), k, EncodeAll(p));
    StartsIsPrefix(t, j, p);
    PrefixAgrees(p, t[j..]);
  }

  /** The byte index and the character index report the same matches for the same texts and pattern. */
  lemma SameMatches(texts: seq<seq<Scalar>>, encoded: seq<seq<byte>>, p: seq<Scalar>, id: nat, end: nat)
    requires p != [] && |encoded| == |texts| && forall i ::
      0 <= i < |texts| ==> encoded[i] == EncodeAll(texts[i])
    ensures Matches(Bytes(), encoded, EncodeAll(p), id, end) <==> Matches(Characters(), texts, p, id, end)
  {
    var q := EncodeAll(p);
    ByteOffset(q, |q|);
    CharacterOffset(p, |p|);
    assert p[..|p|] == p;
    if Matches(Bytes(), encoded, q, id, end) {
      var t := texts[id];
      var k: nat :| StartsAt(encoded[id], k, q) && end == Offset(Bytes(), encoded[id], k) + Offset(Bytes(), q, |q|);
      ByteOffset(encoded[id], k);
      EncodeShape(p[0]);
      assert q[0] == Encode(p[0])[0] && q[0] == EncodeAll(t)[k];
      var j := LeadIsBoundary(t, k);
      StartsAgree(t, p, j);
      CharacterOffset(t, j);
    }
    if Matches(Characters(), texts, p, id, end) {
      var t := texts[id];
      var j: nat :| StartsAt(t, j, p) && end == Offset(Characters(), t, j) + Offset(Characters(), p, |p|);
      CharacterOffset(t, j);
      StartsAgree(t, p, j);
      ByteOffset(encoded[id], |EncodeAll(t[..j])|);
    }
  }

  /** Whatever the two indices answer, the answers are the same list. */
  lemma SameAnswers(texts: seq<seq<Scalar>>, encoded: seq<seq<byte>>, p: seq<Scalar>, inBytes: seq<(nat, nat)>,
                    inCharacters: seq<(nat, nat)>)
    requires p != [] && |encoded| == |texts| && forall i ::
      0 <= i < |texts| ==> encoded[i] == EncodeAll(texts[i])
    requires Ascending(inBytes) && forall id: nat, end: nat ::
      (id, end) in inBytes <==> Matches(Bytes(), encoded, EncodeAll(p), id, end)
    requires Ascending(inCharacters) && forall id: nat, end: nat ::
      (id, end) in inCharacters <==> Matches(Characters(), texts, p, id, end)
    ensures inBytes == inCharacters
  {
    forall x ensures x in inBytes <==> x in inCharacters {
      SameMatches(texts, encoded, p, x.0, x.1);
      assert x == (x.0, x.1);
    }
    AscendingUnique(inBytes, inCharacters);
  }
}
