/** Prefixes, suffixes and factors (substrings) of unit sequences. */
module Words {

  datatype Option<+T> = None | Some(value: T)

  type byte = x: int | 0 <= x < 256

  predicate IsSuffix<U(==)>(s: seq<U>, t: seq<U>) {
    |s| <= |t| && forall i :: 0 <= i < |s| ==> s[i] == t[|t| - |s| + i]
  }

  /** `s` occurs in `t` with its last unit just before position `end`. */
  predicate EndsAt<U(==)>(s: seq<U>, t: seq<U>, end: nat) {
    end <= |t| && IsSuffix(s, t[..end])
  }

  ghost predicate IsFactor<U>(s: seq<U>, t: seq<U>) {
    exists end: nat :: EndsAt(s, t, end)
  }

  lemma SuffixTransitive<U>(r: seq<U>, s: seq<U>, t: seq<U>)
    requires IsSuffix(r, s) && IsSuffix(s, t)
    ensures IsSuffix(r, t)
  {
  }

  /** Two suffixes of one word: the shorter one is a suffix of the longer one. */
  lemma SuffixNested<U>(r: seq<U>, s: seq<U>, t: seq<U>)
    requires IsSuffix(r, t) && IsSuffix(s, t) && |r| <= |s|
    ensures IsSuffix(r, s)
  {
  }

  lemma SameLengthSuffix<U>(s: seq<U>, t: seq<U>)
    requires IsSuffix(s, t) && |s| == |t|
    ensures s == t
  {
  }

  lemma SuffixSnoc<U>(s: seq<U>, t: seq<U>, c: U)
    requires IsSuffix(s, t)
    ensures IsSuffix(s + [c], t + [c])
  {
  }

  lemma Unsnoc<U>(w: seq<U>) returns (s: seq<U>, c: U)
    requires w != []
    ensures w == s + [c] && |s| == |w| - 1
  {
    s, c := w[..|w| - 1], w[|w| - 1];
  }

  /** A nonempty suffix of `t + [c]` is a suffix of `t` followed by `c`. */
  lemma SuffixUnsnoc<U>(s: seq<U>, t: seq<U>, c: U) returns (r: seq<U>)
    requires IsSuffix(s, t + [c]) && s != []
    ensures s == r + [c] && |r| == |s| - 1 && IsSuffix(r, t)
  {
    r := s[..|s| - 1];
    assert s[|s| - 1] == (t + [c])[|t|] == c;
    forall i | 0 <= i < |r| ensures r[i] == t[|t| - |r| + i] {
      assert s[i] == (t + [c])[|t| + 1 - |s| + i];
    }
  }

  lemma SuffixOfSnoc<U>(s: seq<U>, x: U, t: seq<U>, c: U)
    requires IsSuffix(s + [x], t + [c])
    ensures x == c && IsSuffix(s, t)
  {
    assert (s + [x])[|s|] == (t + [c])[|t|];
    forall i | 0 <= i < |s| ensures s[i] == t[|t| - |s| + i] {
      assert (s + [x])[i] == (t + [c])[|t| - |s| + i];
    }
  }

  /** A suffix of a factor is a factor. */
  lemma SuffixOfFactor<U>(r: seq<U>, s: seq<U>, t: seq<U>)
    requires IsSuffix(r, s) && IsFactor(s, t)
    ensures IsFactor(r, t)
  {
    var end: nat :| EndsAt(s, t, end);
    SuffixTransitive(r, s, t[..end]);
    assert EndsAt(r, t, end);
  }

  /** `x` inserted before position `k`. */
  function Splice<T>(s: seq<T>, k: nat, x: T): (r: seq<T>)
    requires k <= |s|
    ensures |r| == |s| + 1 && r[k] == x
    ensures forall i :: 0 <= i < k ==> r[i] == s[i]
    ensures forall i :: k < i < |r| ==> r[i] == s[i - 1]
  {
    s[..k] + [x] + s[k..]
  }

  lemma SpliceMember<T>(s: seq<T>, k: nat, x: T, y: T)
    requires k <= |s|
    ensures y in Splice(s, k, x) <==> y in s || y == x
  {
    var r := Splice(s, k, x);
    if y in r {
      var i :| 0 <= i < |r| && r[i] == y;
      assert i < k ==> y == s[i];
      assert i > k ==> y == s[i - 1];
    }
    if y in s {
      var i :| 0 <= i < |s| && s[i] == y;
      assert r[if i < k then i else i + 1] == y;
    } else if y == x {
      assert r[k] == y;
    }
  }

  lemma SubsetSize<T>(a: set<T>, b: set<T>)
    requires a <= b
    ensures |a| <= |b| && (|a| == |b| <==> a == b)
  {
    assert b == a + (b - a);
  }
}
