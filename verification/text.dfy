/**
 String helpers standing in for the JavaScript built-ins the screens call:
 `trim`, `toLowerCase`, `startsWith`, `endsWith`, `includes`, `String(n)`,
 `Number(s)` on decimal integers, and the code-point order used in place of
 `localeCompare`. Whitespace and case are ASCII only.
 */
module Text {
  import opened Options

  /** The ASCII members of `\s`: space, tab, line feed, vertical tab, form feed, carriage return. */
  predicate IsSpace(c: char) {
    c == ' ' || c == '\t' || c == '\n' || c == '\U{000B}' || c == '\U{000C}' || c == '\r'
  }

  predicate AllSpace(s: string) {
    forall i :: 0 <= i < |s| ==> IsSpace(s[i])
  }

  /** `/\s/.test(s)` */
  predicate HasSpace(s: string) {
    exists i :: 0 <= i < |s| && IsSpace(s[i])
  }

  /** The first position at or after `i` that does not hold whitespace. */
  function SkipSpaces(s: string, i: nat): (k: nat)
    requires i <= |s|
    ensures i <= k <= |s|
    ensures forall j :: i <= j < k ==> IsSpace(s[j])
    ensures k < |s| ==> !IsSpace(s[k])
    decreases |s| - i
  {
    if i < |s| && IsSpace(s[i]) then SkipSpaces(s, i + 1) else i
  }

  /** The end of `s[a..j]` once trailing whitespace is dropped. */
  function SkipSpacesBack(s: string, a: nat, j: nat): (k: nat)
    requires a <= j <= |s|
    ensures a <= k <= j
    ensures forall m :: k <= m < j ==> IsSpace(s[m])
    ensures k > a ==> !IsSpace(s[k - 1])
  {
    if j > a && IsSpace(s[j - 1]) then SkipSpacesBack(s, a, j - 1) else j
  }

  /** Where `trim` cuts `s`: whitespace before the first bound and from the second on. */
  function TrimBounds(s: string): (r: (nat, nat))
    ensures r.0 <= r.1 <= |s|
    ensures AllSpace(s[..r.0]) && AllSpace(s[r.1..])
    ensures r.0 < r.1 ==> !IsSpace(s[r.0]) && !IsSpace(s[r.1 - 1])
    ensures r.0 == r.1 ==> r.1 == |s|
  {
    var a := SkipSpaces(s, 0);
    var b := SkipSpacesBack(s, a, |s|);
    assert forall j :: 0 <= j < |s[..a]| ==> s[..a][j] == s[j];
    assert forall j :: 0 <= j < |s[b..]| ==> s[b..][j] == s[b + j];
    (a, b)
  }

  /** `s.trim()`: the slice of `s` left after dropping leading and trailing whitespace. */
  function Trim(s: string): (r: string)
    ensures |r| <= |s|
    ensures |r| > 0 ==> !IsSpace(r[0]) && !IsSpace(r[|r| - 1])
    ensures r == [] <==> AllSpace(s)
  {
    var (a, b) := TrimBounds(s);
    TrimEmptyIff(s);
    s[a..b]
  }

  lemma TrimEmptyIff(s: string)
    ensures var (a, b) := TrimBounds(s); a == b <==> AllSpace(s)
  {
    var (a, b) := TrimBounds(s);
    if a == b {
      assert s[..a] == s;
    } else {
      assert !IsSpace(s[a]);
    }
  }

  /** What `trim` removes is whitespace, from the two ends only. */
  lemma TrimIsSlice(s: string)
    ensures exists a, b :: 0 <= a <= b <= |s| && Trim(s) == s[a..b] && AllSpace(s[..a]) && AllSpace(s[b..])
  {
    var (a, b) := TrimBounds(s);
    assert 0 <= a <= b <= |s| && Trim(s) == s[a..b] && AllSpace(s[..a]) && AllSpace(s[b..]);
  }

  lemma TrimIdempotent(s: string)
    ensures Trim(Trim(s)) == Trim(s)
  {
    var r := Trim(s);
    if |r| > 0 {
      TrimUntouched(r);
    }
  }

  function LowerChar(c: char): (r: char)
    ensures 'A' <= c <= 'Z' ==> r as int == c as int + 32
    ensures !('A' <= c <= 'Z') ==> r == c
  {
    if 'A' <= c <= 'Z' then (c as int + 32) as char else c
  }

  /** `s.toLowerCase()` on ASCII letters. */
  function Lower(s: string): (r: string)
    ensures |r| == |s|
    ensures forall i :: 0 <= i < |s| ==> r[i] == LowerChar(s[i])
  {
    seq(|s|, i requires 0 <= i < |s| => LowerChar(s[i]))
  }

  predicate StartsWith(s: string, prefix: string) {
    |prefix| <= |s| && s[..|prefix|] == prefix
  }

  predicate EndsWith(s: string, suffix: string) {
    |suffix| <= |s| && s[|s| - |suffix|..] == suffix
  }

  /** `needle` occurs in `s` starting at index `i`. */
  predicate OccursAt(s: string, needle: string, i: int) {
    0 <= i <= |s| - |needle| && s[i..i + |needle|] == needle
  }

  /** `s.includes(needle)`, scanning from the left. */
  predicate Contains(s: string, needle: string)
    decreases |s|
  {
    StartsWith(s, needle) || (|s| > 0 && Contains(s[1..], needle))
  }

  lemma {:induction false} ContainsIffOccurs(s: string, needle: string)
    ensures Contains(s, needle) <==> exists i :: OccursAt(s, needle, i)
    decreases |s|
  {
    if |s| > 0 {
      ContainsIffOccurs(s[1..], needle);
      if exists i :: OccursAt(s, needle, i) {
        var i :| OccursAt(s, needle, i);
        if i > 0 {
          assert s[1..][i - 1..i - 1 + |needle|] == needle;
          assert OccursAt(s[1..], needle, i - 1);
        } else {
          assert StartsWith(s, needle);
        }
      }
      if StartsWith(s, needle) {
        assert OccursAt(s, needle, 0);
      }
      if Contains(s[1..], needle) {
        var i :| OccursAt(s[1..], needle, i);
        assert s[i + 1..i + 1 + |needle|] == needle;
        assert OccursAt(s, needle, i + 1);
      }
    } else if Contains(s, needle) {
      assert OccursAt(s, needle, 0);
    }
  }

  // ----- decimal integers: String(n) and Number(s) -----

  predicate IsDigit(c: char) {
    '0' <= c <= '9'
  }

  predicate AllDigits(s: string) {
    forall i :: 0 <= i < |s| ==> IsDigit(s[i])
  }

  function DigitChar(d: nat): (c: char)
    requires d < 10
    ensures IsDigit(c) && c as int - '0' as int == d
  {
    ('0' as int + d) as char
  }

  /** The decimal digits of `n`, with no leading zeros. */
  function NatToString(n: nat): (r: string)
    ensures |r| > 0 && AllDigits(r)
    ensures n > 0 ==> r[0] != '0'
  {
    if n < 10 then [DigitChar(n)] else NatToString(n / 10) + [DigitChar(n % 10)]
  }

  /** `String(n)` for an integer `n`. */
  function IntToString(n: int): (r: string)
    ensures |r| > 0
    ensures n < 0 <==> r[0] == '-'
  {
    if n < 0 then "-" + NatToString(-n) else NatToString(n)
  }

  function DigitsValue(s: string): nat
    requires AllDigits(s)
  {
    if |s| == 0 then 0
    else DigitsValue(s[..|s| - 1]) * 10 + (s[|s| - 1] as int - '0' as int)
  }

  /**
   `Number(s)` restricted to decimal integers: an optional `-` and at least one digit.
   Every other string is treated as NaN, here `None`.
   */
  function ParseInt(s: string): (r: Option<int>)
    ensures r.Some? ==> |s| > 0
  {
    if |s| > 1 && s[0] == '-' && AllDigits(s[1..]) then
      var v: int := DigitsValue(s[1..]);
      Some(-v)
    else if |s| > 0 && AllDigits(s) then Some(DigitsValue(s))
    else None
  }

  lemma {:induction false} NatToStringValue(n: nat)
    ensures DigitsValue(NatToString(n)) == n
  {
    if n >= 10 {
      NatToStringValue(n / 10);
      var r := NatToString(n);
      assert r[..|r| - 1] == NatToString(n / 10);
    }
  }

  /** Reading back what `String(n)` wrote gives `n` again. */
  lemma ParseIntToString(n: int)
    ensures ParseInt(IntToString(n)) == Some(n)
  {
    if n < 0 {
      NatToStringValue(-n);
      assert IntToString(n)[1..] == NatToString(-n);
    } else {
      NatToStringValue(n);
    }
  }

  /** A string with no whitespace at either end is its own trim. */
  lemma TrimUntouched(s: string)
    requires |s| > 0 && !IsSpace(s[0]) && !IsSpace(s[|s| - 1])
    ensures Trim(s) == s
  {
  }

  /**
   `Number(s)` on the strings it reads as integers: the text is trimmed, an
   empty or all-blank string reads as 0, and a decimal integer may carry one
   leading `+` or `-`. Everything else, NaN included, is `None`.
   */
  function NumberOf(s: string): (r: Option<int>)
    ensures AllSpace(s) ==> r == Some(0)
  {
    var t := Trim(s);
    if t == "" then Some(0)
    else if |t| > 1 && t[0] == '+' && AllDigits(t[1..]) then Some(DigitsValue(t[1..]))
    else ParseInt(t)
  }

  /** `Number(String(n)) === n` for every integer `n`. */
  lemma NumberOfIntToString(n: int)
    ensures NumberOf(IntToString(n)) == Some(n)
  {
    var s := IntToString(n);
    assert !IsSpace(s[|s| - 1]) by {
      if n < 0 {
        assert s[|s| - 1] == NatToString(-n)[|NatToString(-n)| - 1];
      }
    }
    TrimUntouched(s);
    ParseIntToString(n);
  }

  // ----- code-point order, standing in for localeCompare -----

  /** `a` sorts no later than `b` in lexicographic code-point order. */
  predicate LexLeq(a: string, b: string) {
    |a| == 0 || (|b| > 0 && (a[0] < b[0] || (a[0] == b[0] && LexLeq(a[1..], b[1..]))))
  }

  lemma {:induction false} LexLeqReflexive(a: string)
    ensures LexLeq(a, a)
  {
    if |a| > 0 {
      LexLeqReflexive(a[1..]);
    }
  }

  lemma {:induction false} LexLeqTotal(a: string, b: string)
    ensures LexLeq(a, b) || LexLeq(b, a)
  {
    if |a| > 0 && |b| > 0 && a[0] == b[0] {
      LexLeqTotal(a[1..], b[1..]);
    }
  }

  lemma {:induction false} LexLeqTransitive(a: string, b: string, c: string)
    requires LexLeq(a, b) && LexLeq(b, c)
    ensures LexLeq(a, c)
  {
    if |a| > 0 && |b| > 0 && |c| > 0 && a[0] == b[0] && b[0] == c[0] {
      LexLeqTransitive(a[1..], b[1..], c[1..]);
    }
  }

  lemma {:induction false} LexLeqAntisymmetric(a: string, b: string)
    requires LexLeq(a, b) && LexLeq(b, a)
    ensures a == b
  {
    if |a| > 0 && |b| > 0 {
      LexLeqAntisymmetric(a[1..], b[1..]);
      assert a == [a[0]] + a[1..] && b == [b[0]] + b[1..];
    }
  }

  lemma LexOrderFacts(a: string, b: string)
    ensures LexLeq(a, b) || LexLeq(b, a)
    ensures LexLeq(a, b) && LexLeq(b, a) <==> a == b
  {
    LexLeqTotal(a, b);
    LexLeqReflexive(a);
    if LexLeq(a, b) && LexLeq(b, a) {
      LexLeqAntisymmetric(a, b);
    }
  }

  /** The sign `localeCompare` returns, under code-point order. */
  function LexCompare(a: string, b: string): (r: int)
    ensures r == 0 <==> a == b
    ensures r <= 0 <==> LexLeq(a, b)
    ensures r >= 0 <==> LexLeq(b, a)
  {
    LexOrderFacts(a, b);
    if a == b then 0 else if LexLeq(a, b) then -1 else 1
  }
}
