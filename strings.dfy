/** The few Python string operations the engine relies on: `replace`,
    `split` on one character, `find` of one character, the substring test
    `in`, slicing with Python's index rules, and `str` of a natural number. */
module Strings {

  // ---------------------------------------------------------------------
  // s.replace("\r\n", " ")

  predicate HasCrlfAt(s: string, i: int)
  {
    0 <= i && i + 1 < |s| && s[i] == '\r' && s[i + 1] == '\n'
  }

  /** Python's replace scans left to right and replaces non-overlapping occurrences. */
  function ReplaceCrlf(s: string): (r: string)
    ensures |r| <= |s|
  {
    if |s| >= 2 && s[0] == '\r' && s[1] == '\n' then " " + ReplaceCrlf(s[2..])
    else if s == [] then []
    else [s[0]] + ReplaceCrlf(s[1..])
  }

  /** After the replacement no line break "\r\n" is left. */
  lemma {:induction false} ReplaceCrlfRemovesAll(s: string)
    ensures forall i :: !HasCrlfAt(ReplaceCrlf(s), i)
    ensures |s| > 0 && s[0] != '\r' ==> |ReplaceCrlf(s)| > 0 && ReplaceCrlf(s)[0] == s[0]
    ensures |s| > 0 && s[0] == '\r' ==> |ReplaceCrlf(s)| > 0 && ReplaceCrlf(s)[0] in "\r "
  {
    if |s| >= 2 && s[0] == '\r' && s[1] == '\n' {
      ReplaceCrlfRemovesAll(s[2..]);
      var r := ReplaceCrlf(s);
      forall i ensures !HasCrlfAt(r, i) {
        if 1 <= i {
          assert !HasCrlfAt(ReplaceCrlf(s[2..]), i - 1);
        }
      }
    } else if s != [] {
      ReplaceCrlfRemovesAll(s[1..]);
      var r := ReplaceCrlf(s);
      forall i ensures !HasCrlfAt(r, i) {
        if 1 <= i {
          assert !HasCrlfAt(ReplaceCrlf(s[1..]), i - 1);
        } else if i == 0 && s[0] == '\r' && |s| >= 2 {
          assert r[1] == ReplaceCrlf(s[1..])[0];
        }
      }
    }
  }

  /** A string without "\r\n" is left as it is. */
  lemma {:induction false} ReplaceCrlfNoop(s: string)
    requires forall i :: !HasCrlfAt(s, i)
    ensures ReplaceCrlf(s) == s
  {
    if s != [] {
      assert !HasCrlfAt(s, 0);
      forall i ensures !HasCrlfAt(s[1..], i) {
        assert !HasCrlfAt(s, i + 1);
      }
      ReplaceCrlfNoop(s[1..]);
    }
  }

  // ---------------------------------------------------------------------
  // s.split(c)

  /** Python's split on a one-character separator: every occurrence cuts,
      so empty pieces are kept and there is always at least one piece. */
  function Split(s: string, c: char): (r: seq<string>)
    ensures |r| >= 1
  {
    if s == [] then [[]]
    else
      var rest := Split(s[1..], c);
      if s[0] == c then [[]] + rest else [[s[0]] + rest[0]] + rest[1..]
  }

  /** There is one piece more than there are separators. */
  lemma {:induction false} SplitCount(s: string, c: char)
    ensures |Split(s, c)| == multiset(s)[c] + 1
  {
    if s != [] {
      SplitCount(s[1..], c);
      assert s == [s[0]] + s[1..];
    }
  }

  /** No piece of a split contains the separator. */
  lemma {:induction false} SplitPiecesFree(s: string, c: char)
    ensures forall k :: 0 <= k < |Split(s, c)| ==> c !in Split(s, c)[k]
  {
    if s != [] {
      SplitPiecesFree(s[1..], c);
    }
  }

  lemma {:induction false} SplitFree(p: string, c: char)
    requires c !in p
    ensures Split(p, c) == [p]
  {
    if p != [] {
      SplitFree(p[1..], c);
      assert [p[0]] + p[1..] == p;
    }
  }

  lemma {:induction false} SplitCut(p: string, t: string, c: char)
    requires c !in p
    ensures Split(p + [c] + t, c) == [p] + Split(t, c)
  {
    if p == [] {
      assert p + [c] + t == [c] + t;
      assert ([c] + t)[1..] == t;
    } else {
      SplitCut(p[1..], t, c);
      assert (p + [c] + t)[1..] == p[1..] + [c] + t;
      assert [p[0]] + p[1..] == p;
    }
  }

  /** Two separators cut a string into the three pieces around them. */
  lemma SplitThree(a: string, b: string, d: string, c: char)
    requires c !in a && c !in b && c !in d
    ensures Split(a + [c] + b + [c] + d, c) == [a, b, d]
  {
    SplitFree(d, c);
    SplitCut(b, d, c);
    SplitCut(a, b + [c] + d, c);
    assert a + [c] + b + [c] + d == a + [c] + (b + [c] + d);
  }

  // ---------------------------------------------------------------------
  // s.find(c) and the substring test pat in s

  /** Python's find of a one-character string: the first index, or -1. */
  function Find(s: string, c: char): (r: int)
    ensures r == -1 <==> c !in s
    ensures r != -1 ==> 0 <= r < |s| && s[r] == c && c !in s[..r]
  {
    if s == [] then -1
    else if s[0] == c then 0
    else
      var k := Find(s[1..], c);
      if k == -1 then -1 else k + 1
  }

  predicate OccursAt(s: string, pat: string, i: int)
  {
    0 <= i && i + |pat| <= |s| && s[i..i + |pat|] == pat
  }

  /** Python's `pat in s`, checked from the front. */
  function Contains(s: string, pat: string): bool
  {
    if |pat| <= |s| && s[..|pat|] == pat then true
    else if s == [] then false
    else Contains(s[1..], pat)
  }

  /** `pat in s` holds exactly when pat occurs at some index of s. */
  lemma {:induction false} ContainsIffOccurs(s: string, pat: string)
    ensures Contains(s, pat) <==> exists i :: OccursAt(s, pat, i)
  {
    if |pat| <= |s| && s[..|pat|] == pat {
      assert OccursAt(s, pat, 0);
    } else if s == [] {
      forall i ensures !OccursAt(s, pat, i) {
      }
    } else {
      ContainsIffOccurs(s[1..], pat);
      if Contains(s[1..], pat) {
        var i :| OccursAt(s[1..], pat, i);
        assert s[i + 1..i + 1 + |pat|] == s[1..][i..i + |pat|];
        assert OccursAt(s, pat, i + 1);
      } else {
        forall i | OccursAt(s, pat, i) ensures false {
          assert i != 0;
          assert s[1..][i - 1..i - 1 + |pat|] == s[i..i + |pat|];
          assert OccursAt(s[1..], pat, i - 1);
        }
      }
    }
  }

  // ---------------------------------------------------------------------
  // s[a:b] with Python's slice rules

  /** A slice index: negative counts from the end, and both ends clamp to the string. */
  function SliceIndex(i: int, n: nat): (r: nat)
    ensures r <= n
  {
    if i < 0 then (if i + n < 0 then 0 else i + n) else if i > n then n else i
  }

  function Slice(s: string, a: int, b: int): (r: string)
    ensures |r| <= |s| && forall k :: 0 <= k < |r| ==> r[k] in s
  {
    var lo, hi := SliceIndex(a, |s|), SliceIndex(b, |s|);
    if lo < hi then s[lo..hi] else []
  }

  /** With indices inside the string the slice is the plain subsequence; an
      empty one when the start is not before the end. */
  lemma SliceInside(s: string, a: int, b: int)
    requires 0 <= a <= |s| && 0 <= b <= |s|
    ensures Slice(s, a, b) == if a < b then s[a..b] else []
  {
  }

  /** A negative end counts from the end of the string. */
  lemma SliceNegativeEnd(s: string, a: int, b: int)
    requires 0 <= a <= |s| && b < 0 && 0 <= |s| + b
    ensures Slice(s, a, b) == Slice(s, a, |s| + b)
  {
  }

  // ---------------------------------------------------------------------
  // str(n) for a natural number, and reading it back

  predicate IsDigit(ch: char)
  {
    '0' <= ch <= '9'
  }

  function DigitChar(d: nat): char
    requires d < 10
  {
    ['0', '1', '2', '3', '4', '5', '6', '7', '8', '9'][d]
  }

  function DigitValue(ch: char): nat
    requires IsDigit(ch)
  {
    ch as int - '0' as int
  }

  /** Decimal digits of n, most significant first, with no leading zero. */
  function NatToString(n: nat): (r: string)
    ensures |r| >= 1 && forall k :: 0 <= k < |r| ==> IsDigit(r[k])
    ensures r[0] == '0' ==> n == 0
  {
    if n < 10 then [DigitChar(n)] else NatToString(n / 10) + [DigitChar(n % 10)]
  }

  function ParseNat(s: string): nat
    requires forall k :: 0 <= k < |s| ==> IsDigit(s[k])
  {
    if s == [] then 0 else 10 * ParseNat(s[..|s| - 1]) + DigitValue(s[|s| - 1])
  }

  /** Reading the digits of n gives n back. */
  lemma {:induction false} ParseNatToString(n: nat)
    ensures ParseNat(NatToString(n)) == n
  {
    if n >= 10 {
      ParseNatToString(n / 10);
      var s := NatToString(n);
      assert s[..|s| - 1] == NatToString(n / 10);
    }
  }

  /** Different numbers are written differently. */
  lemma NatToStringInjective(a: nat, b: nat)
    requires NatToString(a) == NatToString(b)
    ensures a == b
  {
    ParseNatToString(a);
    ParseNatToString(b);
  }
}
