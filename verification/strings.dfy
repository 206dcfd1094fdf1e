/**
 * Text helpers: decimal rendering of integers (`String(n)`, template literals),
 * decimal digit parsing, ASCII lower-casing and `String.prototype.includes`.
 */
module Strings {
  import Seqs
  import opened Options

  predicate IsDigit(c: char)
  {
    '0' <= c <= '9'
  }

  predicate AllDigits(s: string)
  {
    forall i :: 0 <= i < |s| ==> IsDigit(s[i])
  }

  function DigitChar(d: nat): (c: char)
    requires d < 10
    ensures IsDigit(c)
    ensures c as int - '0' as int == d
  {
    ('0' as int + d) as char
  }

  function DigitValue(c: char): (d: nat)
    requires IsDigit(c)
    ensures d < 10
    ensures DigitChar(d) == c
  {
    c as int - '0' as int
  }

  /** The value of a string of decimal digits, most significant first. */
  function DecimalValue(ds: string): nat
    requires AllDigits(ds)
    decreases |ds|
  {
    if |ds| == 0 then 0
    else DecimalValue(ds[..|ds| - 1]) * 10 + DigitValue(ds[|ds| - 1])
  }

  /** The decimal rendering of a natural number, without leading zeros. */
  function NatToString(n: nat): (s: string)
    ensures |s| > 0
    ensures AllDigits(s)
    ensures DecimalValue(s) == n
    ensures s[0] == '0' ==> n == 0
    decreases n
  {
    if n < 10 then [DigitChar(n)]
    else
      var s := NatToString(n / 10) + [DigitChar(n % 10)];
      assert s[..|s| - 1] == NatToString(n / 10);
      s
  }

  /** `String(i)` for an integer `i`: a minus sign for negatives, then the digits. */
  function IntToString(i: int): (s: string)
    ensures i >= 0 ==> s == NatToString(i)
    ensures i < 0 ==> s == "-" + NatToString(-i)
  {
    if i < 0 then "-" + NatToString(-i) else NatToString(i)
  }

  /** Reads back what `IntToString` writes; anything else is `None`. */
  function ParseInt(s: string): (r: Option<int>)
    ensures r.Some? && |s| > 0 && s[0] != '-' ==> r.value >= 0
  {
    if |s| > 0 && s[0] != '-' && AllDigits(s) then Some(DecimalValue(s))
    else if |s| > 1 && s[0] == '-' && AllDigits(s[1..]) then Some(0 - DecimalValue(s[1..]) as int)
    else None
  }

  lemma IntToStringRoundTrip(i: int)
    ensures ParseInt(IntToString(i)) == Some(i)
  {
    if i < 0 {
      var s := IntToString(i);
      assert s[1..] == NatToString(-i);
    }
  }

  /** Digits never contain anything but digits; this is the digits of `s` in order. */
  function DigitsOf(s: string): (r: string)
    ensures AllDigits(r)
    ensures AllDigits(s) ==> r == s
    ensures forall c :: c in r <==> c in s && IsDigit(c)
    decreases |s|
  {
    if |s| == 0 then []
    else
      assert AllDigits(s) ==> AllDigits(s[1..]);
      assert s == [s[0]] + s[1..];
      (if IsDigit(s[0]) then [s[0]] else []) + DigitsOf(s[1..])
  }

  lemma {:induction false} DigitsOfConcat(a: string, b: string)
    ensures DigitsOf(a + b) == DigitsOf(a) + DigitsOf(b)
    decreases |a|
  {
    if |a| == 0 {
      assert a + b == b;
    } else {
      assert (a + b)[1..] == a[1..] + b;
      DigitsOfConcat(a[1..], b);
    }
  }

  lemma DigitsOfNoDigits(s: string)
    requires forall i :: 0 <= i < |s| ==> !IsDigit(s[i])
    ensures DigitsOf(s) == []
  {
  }

  /** Non-digits around a run of digits are dropped, leaving the run. */
  lemma DigitsOfSurrounded(prefix: string, digits: string, suffix: string)
    requires forall i :: 0 <= i < |prefix| ==> !IsDigit(prefix[i])
    requires AllDigits(digits)
    requires forall i :: 0 <= i < |suffix| ==> !IsDigit(suffix[i])
    ensures DigitsOf(prefix + digits + suffix) == digits
  {
    DigitsOfConcat(prefix + digits, suffix);
    DigitsOfConcat(prefix, digits);
    DigitsOfNoDigits(prefix);
    DigitsOfNoDigits(suffix);
    assert [] + digits + [] == digits;
  }

  /** ASCII lower-casing of one character. */
  function LowerChar(c: char): (r: char)
    ensures 'A' <= c <= 'Z' ==> r as int == c as int + 32
    ensures !('A' <= c <= 'Z') ==> r == c
  {
    if 'A' <= c <= 'Z' then (c as int + 32) as char else c
  }

  /** `String.prototype.toLowerCase`, restricted to ASCII letters. */
  function ToLower(s: string): (r: string)
    ensures |r| == |s|
    ensures forall i :: 0 <= i < |s| ==> r[i] == LowerChar(s[i])
  {
    seq(|s|, i requires 0 <= i < |s| => LowerChar(s[i]))
  }

  lemma ToLowerIdempotent(s: string)
    ensures ToLower(ToLower(s)) == ToLower(s)
  {
  }

  predicate IsPrefix(p: string, s: string)
  {
    |p| <= |s| && s[..|p|] == p
  }

  /** `s.includes(sub)`: `sub` occurs in `s` at some position. */
  predicate Contains(s: string, sub: string)
    decreases |s|
  {
    IsPrefix(sub, s) || (|s| > 0 && Contains(s[1..], sub))
  }

  /** `sub` occurs in `s` starting at index `i`. */
  predicate OccursAt(s: string, sub: string, i: int)
  {
    0 <= i && i + |sub| <= |s| && s[i..i + |sub|] == sub
  }

  /** A slice of the tail is the slice of the whole string one position further on. */
  lemma ShiftedSlice(s: string, j: nat, n: nat)
    requires |s| > 0 && j + n <= |s| - 1
    ensures s[j + 1..j + 1 + n] == s[1..][j..j + n]
  {
    var a, b := s[j + 1..j + 1 + n], s[1..][j..j + n];
    assert forall k :: 0 <= k < n ==> a[k] == s[j + 1 + k] == b[k];
  }

  /** `Contains` finds an occurrence exactly when one exists. */
  lemma {:induction false} ContainsIff(s: string, sub: string)
    ensures Contains(s, sub) <==> exists i :: OccursAt(s, sub, i)
    decreases |s|
  {
    if IsPrefix(sub, s) {
      assert OccursAt(s, sub, 0);
    } else if |s| > 0 {
      ContainsIff(s[1..], sub);
      if Contains(s[1..], sub) {
        var i :| OccursAt(s[1..], sub, i);
        ShiftedSlice(s, i, |sub|);
        assert OccursAt(s, sub, i + 1);
      } else {
        forall i | 0 <= i
          ensures !OccursAt(s, sub, i)
        {
          if i == 0 {
            if |sub| <= |s| {
              assert s[..|sub|] == s[0..0 + |sub|];
            }
          } else {
            var j := i - 1;
            if i + |sub| <= |s| {
              ShiftedSlice(s, j, |sub|);
            }
            assert !OccursAt(s[1..], sub, j);
          }
        }
      }
    } else {
      forall i | 0 <= i
        ensures !OccursAt(s, sub, i)
      {
      }
    }
  }

  /** Every string contains the empty string: `"abc".includes("")` is true. */
  lemma ContainsEmpty(s: string)
    ensures Contains(s, "")
  {
    assert IsPrefix("", s);
  }

  /** Lower-casing both sides keeps an occurrence: a case-sensitive match is also a case-insensitive one. */
  lemma ContainsLowered(s: string, sub: string)
    requires Contains(s, sub)
    ensures Contains(ToLower(s), ToLower(sub))
  {
    ContainsIff(s, sub);
    var i :| OccursAt(s, sub, i);
    assert ToLower(s)[i..i + |sub|] == ToLower(sub) by {
      forall k | 0 <= k < |sub|
        ensures ToLower(s)[i..i + |sub|][k] == ToLower(sub)[k]
      {
        assert s[i..i + |sub|][k] == sub[k];
      }
    }
    assert OccursAt(ToLower(s), ToLower(sub), i);
    ContainsIff(ToLower(s), ToLower(sub));
  }
}
