/** String helpers shared by the BingX and Derive models: Python's `str` ordering,
    `str(int)` for naturals, the substring test `in`, and `str.split` on one character. */
module Text {

  /** Python's `a < b` on `str`: lexicographic by code point, a proper prefix first. */
  predicate Less(a: string, b: string)
    // a proper prefix sorts first, and nothing sorts before itself
    ensures a < b ==> Less(a, b)
    ensures Less(a, b) ==> a != b
  {
    if |a| == 0 then |b| > 0
    else if |b| == 0 then false
    else a[0] < b[0] || (a[0] == b[0] && Less(a[1..], b[1..]))
  }

  lemma {:induction false} LessIrreflexive(a: string)
    ensures !Less(a, a)
  {
    if |a| > 0 {
      LessIrreflexive(a[1..]);
    }
  }

  lemma {:induction false} LessTransitive(a: string, b: string, c: string)
    requires Less(a, b) && Less(b, c)
    ensures Less(a, c)
  {
    if |a| > 0 && |b| > 0 && |c| > 0 && a[0] == b[0] == c[0] {
      LessTransitive(a[1..], b[1..], c[1..]);
    }
  }

  /** Distinct strings are always comparable, so sorting distinct keys has no ties. */
  lemma {:induction false} LessTotal(a: string, b: string)
    requires a != b
    ensures Less(a, b) || Less(b, a)
  {
    if |a| > 0 && |b| > 0 && a[0] == b[0] {
      assert a == [a[0]] + a[1..] && b == [b[0]] + b[1..];
      LessTotal(a[1..], b[1..]);
    }
  }

  lemma {:induction false} LessAsymmetric(a: string, b: string)
    requires Less(a, b)
    ensures !Less(b, a)
  {
    if |a| > 0 && |b| > 0 && a[0] == b[0] {
      LessAsymmetric(a[1..], b[1..]);
    }
  }

  // ---------------------------------------------------------------------------
  // Decimal rendering of naturals, as `str(n)` does for a non-negative `int`.

  predicate IsDigit(c: char) { '0' <= c <= '9' }

  function DigitChar(d: nat): (c: char)
    requires d < 10
    ensures IsDigit(c) && c as int - '0' as int == d
  {
    (d + '0' as int) as char
  }

  /** `str(n)` for a natural: decimal digits, most significant first, no leading zero. */
  function NatToString(n: nat): string
    decreases n
  {
    if n < 10 then [DigitChar(n)] else NatToString(n / 10) + [DigitChar(n % 10)]
  }

  /** Appending a digit to a positive number appends its character. */
  lemma NatToStringStep(n: nat, d: nat)
    requires 0 < n && d < 10
    ensures NatToString(10 * n + d) == NatToString(n) + [DigitChar(d)]
  {
    assert (10 * n + d) / 10 == n && (10 * n + d) % 10 == d;
  }

  /** The value of a string of decimal digits (the partner of NatToString). */
  function ParseNat(s: string): nat
  {
    if |s| == 0 then 0
    else ParseNat(s[..|s| - 1]) * 10 + (if IsDigit(s[|s| - 1]) then s[|s| - 1] as int - '0' as int else 0)
  }

  predicate AllDigits(s: string)
  {
    forall i :: 0 <= i < |s| ==> IsDigit(s[i])
  }

  /** `str(n)` is a non-empty digit string without a leading zero that parses back to `n`. */
  lemma {:induction false} NatToStringRoundTrip(n: nat)
    ensures var s := NatToString(n);
      && |s| > 0 && AllDigits(s) && (s[0] == '0' ==> n == 0)
      && ParseNat(s) == n
  {
    var s := NatToString(n);
    if n >= 10 {
      NatToStringRoundTrip(n / 10);
      var p := NatToString(n / 10);
      assert s[..|s| - 1] == p;
      assert s[0] == p[0];
    }
  }

  /** Distinct naturals render as distinct strings. */
  lemma NatToStringInjective(m: nat, n: nat)
    requires NatToString(m) == NatToString(n)
    ensures m == n
  {
    NatToStringRoundTrip(m);
    NatToStringRoundTrip(n);
  }

  // ---------------------------------------------------------------------------
  // Substring test, Python's `sub in s` on strings.

  predicate OccursAt(s: string, sub: string, i: int)
  {
    0 <= i && i + |sub| <= |s| && s[i..i + |sub|] == sub
  }

  predicate StartsWith(s: string, prefix: string)
  {
    |prefix| <= |s| && s[..|prefix|] == prefix
  }

  /** `sub in s`: `sub` starts at some position of `s` (the empty string is in every string). */
  predicate Contains(s: string, sub: string)
    ensures sub == [] ==> Contains(s, sub)
    ensures Contains(s, sub) ==> |sub| <= |s|
  {
    StartsWith(s, sub) || (|s| > 0 && Contains(s[1..], sub))
  }

  /** An occurrence at any position makes `sub in s` true. */
  lemma {:induction false} OccursAtContains(s: string, sub: string, i: int)
    requires OccursAt(s, sub, i)
    ensures Contains(s, sub)
    decreases i
  {
    if i > 0 {
      assert s[1..][i - 1..i - 1 + |sub|] == s[i..i + |sub|];
      OccursAtContains(s[1..], sub, i - 1);
    }
  }

  /** `sub in s` gives a position where `sub` occurs. */
  lemma {:induction false} ContainsOccursAt(s: string, sub: string) returns (i: int)
    requires Contains(s, sub)
    ensures OccursAt(s, sub, i)
  {
    if StartsWith(s, sub) {
      i := 0;
    } else {
      var j := ContainsOccursAt(s[1..], sub);
      assert s[1..][j..j + |sub|] == s[j + 1..j + 1 + |sub|];
      i := j + 1;
    }
  }

  /** Contains agrees with the positional definition of a substring, in both directions. */
  lemma ContainsIff(s: string, sub: string)
    ensures Contains(s, sub) <==> exists i :: OccursAt(s, sub, i)
  {
    if Contains(s, sub) {
      var i := ContainsOccursAt(s, sub);
    }
    forall i | OccursAt(s, sub, i) ensures Contains(s, sub) {
      OccursAtContains(s, sub, i);
    }
  }

  // ---------------------------------------------------------------------------
  // `s.split(c)` and `c.join(parts)` for a one-character separator.

  /** Index of the first `c` in `s` (`s` must contain it). */
  function IndexOf(s: string, c: char): (i: nat)
    requires c in s
    ensures i < |s| && s[i] == c && c !in s[..i]
  {
    if s[0] == c then 0 else
      assert c in s[1..] by { var k :| 0 <= k < |s| && s[k] == c; assert s[1..][k - 1] == c; }
      var j := IndexOf(s[1..], c);
      assert s[..j + 1] == [s[0]] + s[1..][..j];
      j + 1
  }

  /** `s.split(c)`: the maximal runs of `s` between occurrences of `c`. */
  function Split(s: string, c: char): (parts: seq<string>)
    ensures |parts| > 0
    decreases |s|
  {
    if c !in s then [s]
    else
      var i := IndexOf(s, c);
      [s[..i]] + Split(s[i + 1..], c)
  }

  /** `c.join(parts)`. */
  function Join(parts: seq<string>, c: char): string
  {
    if |parts| == 0 then ""
    else if |parts| == 1 then parts[0]
    else parts[0] + [c] + Join(parts[1..], c)
  }

  /** Splitting undoes joining when no part holds the separator. */
  lemma {:induction false} SplitJoin(parts: seq<string>, c: char)
    requires |parts| > 0
    requires forall k :: 0 <= k < |parts| ==> c !in parts[k]
    ensures Split(Join(parts, c), c) == parts
  {
    if |parts| > 1 {
      var s := Join(parts, c);
      var p := parts[0];
      assert s == p + [c] + Join(parts[1..], c);
      assert s[|p|] == c;
      assert c in s;
      var i := IndexOf(s, c);
      assert s[..|p|] == p;
      assert i == |p|;
      assert s[i + 1..] == Join(parts[1..], c);
      SplitJoin(parts[1..], c);
    } else {
      assert Join(parts, c) == parts[0];
    }
  }

  /** Joining the parts of a split gives back the string, and no part holds the separator. */
  lemma {:induction false} JoinSplit(s: string, c: char)
    ensures Join(Split(s, c), c) == s
    ensures forall k :: 0 <= k < |Split(s, c)| ==> c !in Split(s, c)[k]
    decreases |s|
  {
    if c in s {
      var i := IndexOf(s, c);
      var rest := Split(s[i + 1..], c);
      JoinSplit(s[i + 1..], c);
      assert Split(s, c) == [s[..i]] + rest;
      assert Join(Split(s, c), c) == s[..i] + [c] + Join(rest, c);
      assert s == s[..i] + [c] + s[i + 1..];
      forall k | 0 <= k < |Split(s, c)| ensures c !in Split(s, c)[k] {
        if k > 0 {
          assert Split(s, c)[k] == rest[k - 1];
        }
      }
    }
  }

  /** `s.split(c)` has exactly two parts iff `s` contains exactly one `c`, and then the parts
      are what lies before and after it. */
  lemma SplitTwo(s: string, c: char)
    ensures |Split(s, c)| == 2 <==> (c in s && c !in s[IndexOf(s, c) + 1..])
    ensures |Split(s, c)| == 2 ==>
      Split(s, c) == [s[..IndexOf(s, c)], s[IndexOf(s, c) + 1..]]
  {
    if c in s {
      var i := IndexOf(s, c);
      if c in s[i + 1..] {
        assert |Split(s[i + 1..], c)| >= 2;
      }
    }
  }
}
