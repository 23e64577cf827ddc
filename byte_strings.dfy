/**
 * The two string operations the scanner applies to type names, on their
 * UTF-8 bytes: the order of `str` (byte-wise lexicographic, a proper prefix
 * first) and substring search (`str::contains` with a `&str` pattern).
 */
module ByteStrings {
  import LittleEndian
  type u8 = LittleEndian.u8

  /** `a < b` for strings: the first differing byte decides, and a proper prefix is smaller. */
  predicate Less(a: seq<u8>, b: seq<u8>) {
    b != [] && (a == [] || a[0] < b[0] || (a[0] == b[0] && Less(a[1..], b[1..])))
  }

  /** No string is smaller than itself. */
  lemma {:induction false} LessIrreflexive(a: seq<u8>)
    ensures !Less(a, a)
  {
    if a != [] {
      LessIrreflexive(a[1..]);
    }
  }

  /** Of two strings, at most one is smaller than the other. */
  lemma {:induction false} LessAsymmetric(a: seq<u8>, b: seq<u8>)
    ensures !(Less(a, b) && Less(b, a))
  {
    if a != [] && b != [] && a[0] == b[0] {
      LessAsymmetric(a[1..], b[1..]);
    }
  }

  /** Distinct strings are ordered one way or the other. */
  lemma {:induction false} LessTotal(a: seq<u8>, b: seq<u8>)
    ensures a == b || Less(a, b) || Less(b, a)
  {
    if a != [] && b != [] && a[0] == b[0] {
      LessTotal(a[1..], b[1..]);
      if a[1..] == b[1..] {
        assert a == [a[0]] + a[1..] && b == [b[0]] + b[1..];
      }
    }
  }

  /** The order is transitive. */
  lemma {:induction false} LessTransitive(a: seq<u8>, b: seq<u8>, c: seq<u8>)
    requires Less(a, b) && Less(b, c)
    ensures Less(a, c)
  {
    if a != [] && a[0] == b[0] && b[0] == c[0] {
      LessTransitive(a[1..], b[1..], c[1..]);
    }
  }

  /** "Not greater" is transitive, so a chain of neighbours in order is in order end to end. */
  lemma NotLessTransitive(a: seq<u8>, b: seq<u8>, c: seq<u8>)
    requires !Less(b, a) && !Less(c, b)
    ensures !Less(c, a)
  {
    LessTotal(a, b);
    LessTotal(b, c);
    if Less(c, a) {
      if a != b && b != c {
        LessTransitive(a, b, c);
        LessAsymmetric(a, c);
      }
    }
  }

  /** The pattern `n` occurs in `h` at index i. */
  predicate MatchAt(h: seq<u8>, n: seq<u8>, i: int) {
    0 <= i && i + |n| <= |h| && h[i..i + |n|] == n
  }

  /** `h.contains(n)`: the pattern is tried at each index of `h` in turn. */
  predicate Contains(h: seq<u8>, n: seq<u8>)
    decreases |h|
  {
    n <= h || (h != [] && Contains(h[1..], n))
  }

  /** The search finds the pattern exactly when it occurs somewhere. */
  lemma {:induction false} ContainsIff(h: seq<u8>, n: seq<u8>)
    ensures Contains(h, n) <==> exists i :: MatchAt(h, n, i)
    decreases |h|
  {
    if n <= h {
      assert MatchAt(h, n, 0);
    } else if h == [] {
      assert forall i :: !MatchAt(h, n, i);
    } else {
      ContainsIff(h[1..], n);
      forall i | MatchAt(h[1..], n, i) ensures MatchAt(h, n, i + 1) {
        assert h[i + 1..i + 1 + |n|] == h[1..][i..i + |n|];
      }
      forall i | MatchAt(h, n, i) ensures i >= 1 && MatchAt(h[1..], n, i - 1) {
        assert h[1..][i - 1..i - 1 + |n|] == h[i..i + |n|];
      }
    }
  }

  /** The bytes of a seven-bit string literal. */
  function Ascii(s: string): (b: seq<u8>)
    requires forall k :: 0 <= k < |s| ==> s[k] < 128 as char
    ensures |b| == |s| && forall k :: 0 <= k < |s| ==> b[k] == s[k] as int && b[k] < 0x80
  {
    seq(|s|, k requires 0 <= k < |s| => s[k] as int)
  }
}
