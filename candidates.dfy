/**
 * The candidate enumerator of main.py: `get_combinations` yields
 * `str(i).zfill(length)` for every `i` of an inclusive integer range.
 * Python's `str` and `zfill` are written out here, together with the
 * inverse (`int(s)` on a string of decimal digits) used to prove that
 * zero-padded formatting is a bijection between the keyspace
 * [0, 10^length - 1] and the decimal strings of `length` characters.
 */
module Candidates {

  /** 10^k, the size of the keyspace of passwords of k digits. */
  function Pow10(k: nat): (p: nat)
    ensures p >= 1
    ensures k >= 1 ==> p >= 10
  {
    if k == 0 then 1 else 10 * Pow10(k - 1)
  }

  predicate IsDigit(c: char)
  {
    '0' <= c <= '9'
  }

  predicate IsDigits(s: string)
  {
    forall k :: 0 <= k < |s| ==> IsDigit(s[k])
  }

  /** A password of the keyspace: exactly `length` decimal digits. */
  predicate IsKeyspaceString(length: nat, s: string)
  {
    |s| == length && IsDigits(s)
  }

  function DigitChar(d: nat): (c: char)
    requires d < 10
    ensures IsDigit(c)
  {
    (48 + d) as char
  }

  function DigitValue(c: char): (d: nat)
    requires IsDigit(c)
    ensures d < 10
  {
    (c as int) - 48
  }

  /** Python's `str(n)` for n >= 0: decimal digits without leading zeros. */
  function NatStr(n: nat): (s: string)
    ensures 1 <= |s| && IsDigits(s)
    decreases n
  {
    if n < 10 then [DigitChar(n)] else NatStr(n / 10) + [DigitChar(n % 10)]
  }

  /** Python's `str(i)` for any integer: a minus sign before a negative one. */
  function Str(i: int): string
  {
    if i < 0 then "-" + NatStr(-i) else NatStr(i)
  }

  function Zeros(k: nat): string
  {
    seq(k, _ => '0')
  }

  /**
   * Python's `s.zfill(width)`: a string at least `width` long is returned
   * unchanged; otherwise zeros are put in front, after a leading sign.
   */
  function ZFill(s: string, width: int): string
  {
    if |s| >= width then s
    else if |s| > 0 && (s[0] == '+' || s[0] == '-') then [s[0]] + Zeros(width - |s|) + s[1..]
    else Zeros(width - |s|) + s
  }

  /** 1 when `s` starts with a sign `zfill` keeps in front of the padding, else 0. */
  function SignWidth(s: string): (w: nat)
    ensures w <= |s|
  {
    if |s| > 0 && (s[0] == '+' || s[0] == '-') then 1 else 0
  }

  /** The candidate `str(i).zfill(length)`: never empty and never shorter than `length`. */
  function Candidate(length: nat, i: int): (c: string)
    ensures |c| >= 1 && |c| >= length
  {
    ZFill(Str(i), length)
  }

  /** `int(s)` on a string of decimal digits (leading zeros allowed). */
  function DigitsValue(s: string): (v: nat)
    requires IsDigits(s)
    ensures v < Pow10(|s|)
  {
    if s == [] then 0 else DigitsValue(s[..|s| - 1]) * 10 + DigitValue(s[|s| - 1])
  }

  /** The strings f(lo), f(lo + 1), ..., f(hi) in that order; nothing when hi < lo. */
  function Enumerate(f: int -> string, lo: int, hi: int): (cs: seq<string>)
    ensures |cs| == if hi < lo then 0 else hi - lo + 1
    ensures forall k :: 0 <= k < |cs| ==> cs[k] == f(lo + k)
    decreases hi - lo
  {
    if hi < lo then [] else [f(lo)] + Enumerate(f, lo + 1, hi)
  }

  /**
   * `get_combinations(length, lo, hi)`: the candidates for lo, lo + 1, ..., hi
   * in that order; nothing when hi < lo (an empty `range`).
   */
  function Combinations(length: nat, lo: int, hi: int): (cs: seq<string>)
    ensures |cs| == if hi < lo then 0 else hi - lo + 1
    ensures forall k :: 0 <= k < |cs| ==> cs[k] == Candidate(length, lo + k)
  {
    Enumerate(i => Candidate(length, i), lo, hi)
  }

  // ---------------------------------------------------------------------
  // Decimal formatting and parsing

  /** `str(n)` has at most k digits exactly when n < 10^k. */
  lemma {:induction false} NatStrLength(n: nat, k: nat)
    requires k >= 1
    ensures |NatStr(n)| <= k <==> n < Pow10(k)
    decreases n
  {
    if n >= 10 && k > 1 {
      NatStrLength(n / 10, k - 1);
      assert n / 10 < Pow10(k - 1) <==> n < 10 * Pow10(k - 1);
    }
  }

  /** `int(str(n)) == n`. */
  lemma {:induction false} NatStrRoundTrip(n: nat)
    ensures DigitsValue(NatStr(n)) == n
    decreases n
  {
    if n >= 10 {
      var s := NatStr(n);
      assert s[..|s| - 1] == NatStr(n / 10);
      NatStrRoundTrip(n / 10);
    }
  }

  lemma {:induction false} ZerosValue(k: nat)
    ensures IsDigits(Zeros(k)) && DigitsValue(Zeros(k)) == 0
  {
    if k > 0 {
      assert Zeros(k)[..k - 1] == Zeros(k - 1);
      ZerosValue(k - 1);
    }
  }

  /** Leading zeros do not change the value of a digit string. */
  lemma {:induction false} ZerosPrefixValue(k: nat, s: string)
    requires IsDigits(s)
    ensures IsDigits(Zeros(k) + s) && DigitsValue(Zeros(k) + s) == DigitsValue(s)
  {
    var t := Zeros(k) + s;
    if s == [] {
      assert t == Zeros(k);
      ZerosValue(k);
    } else {
      assert t[..|t| - 1] == Zeros(k) + s[..|s| - 1];
      ZerosPrefixValue(k, s[..|s| - 1]);
    }
  }

  /** The value of a non-empty digit string: ten times its prefix's value plus its last digit. */
  lemma DigitsValueLast(s: string)
    requires IsDigits(s) && s != []
    ensures IsDigits(s[..|s| - 1])
    ensures DigitsValue(s) == DigitsValue(s[..|s| - 1]) * 10 + DigitValue(s[|s| - 1])
  {
  }

  lemma SplitLast(s: string)
    requires s != []
    ensures s == s[..|s| - 1] + [s[|s| - 1]]
  {
  }

  /** Two digit strings of the same length with the same value are equal. */
  lemma {:induction false} DigitsValueInjective(a: string, b: string)
    requires IsDigits(a) && IsDigits(b) && |a| == |b|
    requires DigitsValue(a) == DigitsValue(b)
    ensures a == b
  {
    if a != [] {
      var n := |a|;
      DigitsValueLast(a);
      DigitsValueLast(b);
      var pa, pb := a[..n - 1], b[..n - 1];
      LastDigitUnique(DigitsValue(pa), DigitValue(a[n - 1]), DigitsValue(pb), DigitValue(b[n - 1]));
      DigitsValueInjective(pa, pb);
      assert a[n - 1] == b[n - 1];
      SplitLast(a);
      SplitLast(b);
    }
  }

  lemma LastDigitUnique(p: int, d: int, q: int, e: int)
    requires 0 <= d < 10 && 0 <= e < 10 && p * 10 + d == q * 10 + e
    ensures p == q && d == e
  {
  }

  /** `str(i)` holds the digits of |i|, after a minus sign when i < 0. */
  lemma StrRoundTrip(i: int)
    ensures i >= 0 ==> IsDigits(Str(i)) && DigitsValue(Str(i)) == i
    ensures i < 0 ==> |Str(i)| >= 2 && Str(i)[0] == '-' && IsDigits(Str(i)[1..]) && DigitsValue(Str(i)[1..]) == -i
  {
    if i < 0 {
      var t := NatStr(-i);
      assert Str(i) == ['-'] + t;
      assert Str(i)[1..] == t;
      NatStrRoundTrip(-i);
    } else {
      NatStrRoundTrip(i);
    }
  }

  // ---------------------------------------------------------------------
  // Zero-padded candidates

  /**
   * `s.zfill(width)` is `s` padded on the left with '0' up to `width`
   * characters, the padding going after a leading sign; a string already
   * `width` long is unchanged.
   */
  lemma ZFillSpec(s: string, width: int)
    ensures |ZFill(s, width)| == if |s| >= width then |s| else width
    ensures ZFill(s, width)[..SignWidth(s)] == s[..SignWidth(s)]
    ensures forall k :: SignWidth(s) <= k < SignWidth(s) + |ZFill(s, width)| - |s| ==> ZFill(s, width)[k] == '0'
    ensures ZFill(s, width)[SignWidth(s) + |ZFill(s, width)| - |s|..] == s[SignWidth(s)..]
  {
    var r, p := ZFill(s, width), SignWidth(s);
    if |s| < width {
      var pad := width - |s|;
      if p == 1 {
        assert r == [s[0]] + Zeros(pad) + s[1..];
        assert r[..1] == s[..1];
        assert r[1 + pad..] == s[1..];
      } else {
        assert r == Zeros(pad) + s;
        assert r[pad..] == s;
      }
    }
  }

  lemma PaddedNatStr(length: nat, i: int)
    requires i >= 0
    ensures Candidate(length, i) ==
              if |NatStr(i)| >= length then NatStr(i) else Zeros(length - |NatStr(i)|) + NatStr(i)
  {
  }

  /** Every candidate for i >= 0 is all digits and parses back to i. */
  lemma CandidateRoundTrip(length: nat, i: int)
    requires i >= 0
    ensures IsDigits(Candidate(length, i)) && DigitsValue(Candidate(length, i)) == i
  {
    var t := NatStr(i);
    PaddedNatStr(length, i);
    NatStrRoundTrip(i);
    if |t| < length {
      ZerosPrefixValue(length - |t|, t);
      assert Candidate(length, i) == Zeros(length - |t|) + t;
    } else {
      assert Candidate(length, i) == t;
    }
  }

  /** For length >= 1, the candidate for i >= 0 is exactly `length` long iff i is in the keyspace. */
  lemma CandidateLength(length: nat, i: int)
    requires length >= 1 && i >= 0
    ensures |Candidate(length, i)| == length <==> i < Pow10(length)
  {
    PaddedNatStr(length, i);
    NatStrLength(i, length);
  }

  /** Distinct integers (i, j >= 0) give distinct candidates. */
  lemma CandidateInjective(length: nat, i: int, j: int)
    requires i >= 0 && j >= 0
    requires Candidate(length, i) == Candidate(length, j)
    ensures i == j
  {
    CandidateRoundTrip(length, i);
    CandidateRoundTrip(length, j);
  }

  /** Every keyspace string is the candidate of its own value. */
  lemma CandidateOnto(length: nat, s: string)
    requires length >= 1 && IsKeyspaceString(length, s)
    ensures DigitsValue(s) < Pow10(length) && Candidate(length, DigitsValue(s)) == s
  {
    var v := DigitsValue(s);
    CandidateLength(length, v);
    CandidateRoundTrip(length, v);
    DigitsValueInjective(Candidate(length, v), s);
  }

  /**
   * For length >= 1, i |-> str(i).zfill(length) is a bijection from
   * [0, 10^length - 1] onto the strings of `length` decimal digits, and
   * `DigitsValue` is its inverse.
   */
  lemma KeyspaceBijection(length: nat)
    requires length >= 1
    ensures forall i :: 0 <= i < Pow10(length) ==>
              IsKeyspaceString(length, Candidate(length, i)) && DigitsValue(Candidate(length, i)) == i
    ensures forall s :: IsKeyspaceString(length, s) ==>
              DigitsValue(s) < Pow10(length) && Candidate(length, DigitsValue(s)) == s
  {
    forall i | 0 <= i < Pow10(length)
      ensures IsKeyspaceString(length, Candidate(length, i)) && DigitsValue(Candidate(length, i)) == i
    {
      CandidateLength(length, i);
      CandidateRoundTrip(length, i);
    }
    forall s | IsKeyspaceString(length, s)
      ensures DigitsValue(s) < Pow10(length) && Candidate(length, DigitsValue(s)) == s
    {
      CandidateOnto(length, s);
    }
  }

  // ---------------------------------------------------------------------
  // The enumeration

  /**
   * From a non-negative start, the enumeration holds digit strings whose
   * values are lo, lo + 1, ...: strictly ascending and without duplicates.
   */
  lemma CombinationsAscending(length: nat, lo: int, hi: int)
    requires lo >= 0
    ensures forall k :: 0 <= k < |Combinations(length, lo, hi)| ==>
              IsDigits(Combinations(length, lo, hi)[k]) && DigitsValue(Combinations(length, lo, hi)[k]) == lo + k
    ensures forall k, m :: 0 <= k < m < |Combinations(length, lo, hi)| ==>
              DigitsValue(Combinations(length, lo, hi)[k]) < DigitsValue(Combinations(length, lo, hi)[m])
    ensures forall k, m :: 0 <= k < m < |Combinations(length, lo, hi)| ==>
              Combinations(length, lo, hi)[k] != Combinations(length, lo, hi)[m]
  {
    var cs := Combinations(length, lo, hi);
    forall k | 0 <= k < |cs|
      ensures IsDigits(cs[k]) && DigitsValue(cs[k]) == lo + k
    {
      CandidateRoundTrip(length, lo + k);
    }
    forall k, m | 0 <= k < m < |cs|
      ensures DigitsValue(cs[k]) < DigitsValue(cs[m]) && cs[k] != cs[m]
    {
    }
  }

  /** Inside the keyspace every enumerated string is exactly `length` digits. */
  lemma CombinationsInKeyspace(length: nat, lo: int, hi: int)
    requires length >= 1 && 0 <= lo && hi < Pow10(length)
    ensures forall k :: 0 <= k < |Combinations(length, lo, hi)| ==>
              IsKeyspaceString(length, Combinations(length, lo, hi)[k])
  {
    var cs := Combinations(length, lo, hi);
    forall k | 0 <= k < |cs|
      ensures IsKeyspaceString(length, cs[k])
    {
      CandidateLength(length, lo + k);
      CandidateRoundTrip(length, lo + k);
    }
  }

  /** Enumerating [lo, hi] is enumerating [lo, mid] and then [mid + 1, hi]. */
  lemma EnumerateSplit(f: int -> string, lo: int, mid: int, hi: int)
    requires lo <= mid + 1 <= hi + 1
    ensures Enumerate(f, lo, hi) == Enumerate(f, lo, mid) + Enumerate(f, mid + 1, hi)
  {
    var whole, left, right := Enumerate(f, lo, hi), Enumerate(f, lo, mid), Enumerate(f, mid + 1, hi);
    assert |whole| == |left| + |right|;
    forall k | 0 <= k < |whole|
      ensures whole[k] == (left + right)[k]
    {
      if k < |left| {
        assert left[k] == f(lo + k);
      } else {
        assert right[k - |left|] == f(mid + 1 + (k - |left|));
      }
    }
  }

  /** The same split for the candidates of `get_combinations`. */
  lemma CombinationsSplit(length: nat, lo: int, mid: int, hi: int)
    requires lo <= mid + 1 <= hi + 1
    ensures Combinations(length, lo, hi) == Combinations(length, lo, mid) + Combinations(length, mid + 1, hi)
  {
    EnumerateSplit(i => Candidate(length, i), lo, mid, hi);
  }
}
