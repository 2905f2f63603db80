/**
 * The JavaScript string primitives the tracker relies on, over Dafny strings
 * (sequences of Unicode scalar values): `Number#toString` on integers,
 * `String#padStart`, `String#trim`, and the relational operators on strings.
 */
module JsText {

  // ---------------------------------------------------------------------------
  // Decimal digits

  predicate IsDigit(c: char) { '0' <= c <= '9' }

  predicate AllDigits(s: string) { forall i :: 0 <= i < |s| ==> IsDigit(s[i]) }

  function DigitValue(c: char): (d: nat)
    requires IsDigit(c)
    ensures d < 10
  {
    c as int - '0' as int
  }

  function DigitChar(d: nat): (c: char)
    requires d < 10
    ensures IsDigit(c) && DigitValue(c) == d
  {
    ('0' as int + d) as char
  }

  function Pow10(k: nat): (p: nat)
    ensures p >= 1
  {
    if k == 0 then 1 else 10 * Pow10(k - 1)
  }

  /** The number that a digit string denotes, most significant digit first. */
  function DigitsValue(s: string): nat
    requires AllDigits(s)
    decreases |s|
  {
    if s == [] then 0 else DigitsValue(s[..|s| - 1]) * 10 + DigitValue(s[|s| - 1])
  }

  /** `Number#toString` for a non-negative integer (below 10^21, where JavaScript keeps plain notation). */
  function NatToString(n: nat): (s: string)
    ensures |s| >= 1 && AllDigits(s)
  {
    if n < 10 then [DigitChar(n)] else NatToString(n / 10) + [DigitChar(n % 10)]
  }

  /** `Number#toString` for an integer: a minus sign before the digits of a negative number. */
  function IntToString(n: int): string {
    if n < 0 then "-" + NatToString(-n) else NatToString(n)
  }

  /** The text of an integer reads back as that integer: an optional minus sign, then the digits of its magnitude. */
  lemma IntToStringValue(n: int)
    ensures n >= 0 ==> AllDigits(IntToString(n)) && DigitsValue(IntToString(n)) == n
    ensures n < 0 ==> var s := IntToString(n);
      |s| >= 2 && s[0] == '-' && AllDigits(s[1..]) && DigitsValue(s[1..]) == -n
  {
    var s := IntToString(n);
    NatToStringValue(if n < 0 then -n else n);
    if n < 0 {
      assert s[1..] == NatToString(-n);
    }
  }

  /** Reading the digits back gives the number. */
  lemma {:induction false} NatToStringValue(n: nat)
    ensures DigitsValue(NatToString(n)) == n
  {
    if n >= 10 {
      var s := NatToString(n);
      NatToStringValue(n / 10);
      assert s[..|s| - 1] == NatToString(n / 10);
    }
  }

  /** Digits have no leading zero, except the single digit of 0. */
  lemma {:induction false} NatToStringCanonical(n: nat)
    ensures var s := NatToString(n); |s| == 1 || s[0] != '0'
    ensures NatToString(n)[0] == '0' <==> n == 0
  {
    if n >= 10 {
      NatToStringCanonical(n / 10);
    }
  }

  /** A number needs at most `w` digits exactly when it is below 10^w. */
  lemma {:induction false} NatToStringLength(n: nat, w: nat)
    requires w >= 1
    ensures |NatToString(n)| <= w <==> n < Pow10(w)
  {
    if n >= 10 {
      if w == 1 {
        assert Pow10(1) == 10;
      } else {
        NatToStringLength(n / 10, w - 1);
      }
    } else {
      PowMonotone(1, w);
      assert Pow10(1) == 10;
    }
  }

  lemma {:induction false} PowMonotone(i: nat, j: nat)
    requires i <= j
    ensures Pow10(i) <= Pow10(j)
  {
    if i < j {
      PowMonotone(i, j - 1);
    }
  }

  /** A digit string of length k denotes a number below 10^k. */
  lemma {:induction false} DigitsValueBound(s: string)
    requires AllDigits(s)
    ensures DigitsValue(s) < Pow10(|s|)
  {
    if s != [] {
      DigitsValueBound(s[..|s| - 1]);
    }
  }

  /** The leading digit carries weight 10^(k-1). */
  lemma {:induction false} DigitsValueFront(s: string)
    requires AllDigits(s) && |s| >= 1
    ensures DigitsValue(s) == DigitValue(s[0]) * Pow10(|s| - 1) + DigitsValue(s[1..])
  {
    if |s| > 1 {
      var init := s[..|s| - 1];
      DigitsValueFront(init);
      assert init[1..] == s[1..][..|s[1..]| - 1];
      calc {
        DigitsValue(s);
        DigitsValue(init) * 10 + DigitValue(s[|s| - 1]);
        (DigitValue(s[0]) * Pow10(|s| - 2) + DigitsValue(init[1..])) * 10 + DigitValue(s[|s| - 1]);
        DigitValue(s[0]) * Pow10(|s| - 1) + (DigitsValue(init[1..]) * 10 + DigitValue(s[|s| - 1]));
      }
    }
  }

  // ---------------------------------------------------------------------------
  // String#padStart

  function Repeat(c: char, k: nat): (r: string)
    ensures |r| == k && forall i :: 0 <= i < k ==> r[i] == c
  {
    if k == 0 then [] else [c] + Repeat(c, k - 1)
  }

  /** `s.padStart(width, fill)` with a one-character fill: prefix copies of `fill` up to `width` characters. */
  function PadStart(s: string, width: nat, fill: char): (r: string)
    ensures |r| == if |s| < width then width else |s|
    ensures r[|r| - |s|..] == s
    ensures forall i :: 0 <= i < |r| - |s| ==> r[i] == fill
  {
    if |s| >= width then s else Repeat(fill, width - |s|) + s
  }

  /** Leading zeros do not change the number a digit string denotes. */
  lemma {:induction false} ZeroPaddedValue(s: string, width: nat)
    requires AllDigits(s)
    ensures AllDigits(PadStart(s, width, '0'))
    ensures DigitsValue(PadStart(s, width, '0')) == DigitsValue(s)
  {
    var r := PadStart(s, width, '0');
    assert AllDigits(r) by {
      forall i | 0 <= i < |r| ensures IsDigit(r[i]) {
        if i >= |r| - |s| {
          assert r[i] == r[|r| - |s|..][i - (|r| - |s|)];
        }
      }
    }
    LeadingZerosValue(r, |r| - |s|);
  }

  lemma {:induction false} LeadingZerosValue(r: string, k: nat)
    requires AllDigits(r) && k <= |r|
    requires forall i :: 0 <= i < k ==> r[i] == '0'
    ensures DigitsValue(r) == DigitsValue(r[k..])
    decreases |r|
  {
    if |r| > k {
      var init := r[..|r| - 1];
      LeadingZerosValue(init, k);
      assert init[k..] == r[k..][..|r[k..]| - 1];
    } else if k > 0 {
      LeadingZerosValue(r[..|r| - 1], k - 1);
    }
  }

  // ---------------------------------------------------------------------------
  // String comparison: `a <= b` and `a >= b` in JavaScript

  /** `a <= b` on strings: the first differing character decides, and a prefix comes first. */
  predicate StrLe(a: string, b: string)
    decreases |a|
  {
    a == [] || (b != [] && (a[0] < b[0] || (a[0] == b[0] && StrLe(a[1..], b[1..]))))
  }

  lemma {:induction false} StrLeReflexive(a: string)
    ensures StrLe(a, a)
  {
    if a != [] {
      StrLeReflexive(a[1..]);
    }
  }

  lemma {:induction false} StrLeAntisymmetric(a: string, b: string)
    requires StrLe(a, b) && StrLe(b, a)
    ensures a == b
  {
    if a != [] {
      StrLeAntisymmetric(a[1..], b[1..]);
      assert a == [a[0]] + a[1..] && b == [b[0]] + b[1..];
    }
  }

  lemma {:induction false} StrLeTransitive(a: string, b: string, c: string)
    requires StrLe(a, b) && StrLe(b, c)
    ensures StrLe(a, c)
  {
    if a != [] && a[0] == b[0] && b[0] == c[0] {
      StrLeTransitive(a[1..], b[1..], c[1..]);
    }
  }

  lemma {:induction false} StrLeTotal(a: string, b: string)
    ensures StrLe(a, b) || StrLe(b, a)
  {
    if a != [] && b != [] && a[0] == b[0] {
      StrLeTotal(a[1..], b[1..]);
    }
  }

  /** Comparing concatenations whose first parts have equal length: the first parts decide unless they are equal. */
  lemma {:induction false} StrLeConcat(a1: string, a2: string, b1: string, b2: string)
    requires |a1| == |b1|
    ensures StrLe(a1 + a2, b1 + b2) <==> (a1 != b1 && StrLe(a1, b1)) || (a1 == b1 && StrLe(a2, b2))
  {
    if a1 != [] {
      assert (a1 + a2)[0] == a1[0] && (b1 + b2)[0] == b1[0];
      assert (a1 + a2)[1..] == a1[1..] + a2 && (b1 + b2)[1..] == b1[1..] + b2;
      StrLeConcat(a1[1..], a2, b1[1..], b2);
      assert a1 == [a1[0]] + a1[1..] && b1 == [b1[0]] + b1[1..];
    } else {
      assert a1 + a2 == a2 && b1 + b2 == b2;
    }
  }

  /** On digit strings of one length, string order is numeric order. */
  lemma {:induction false} StrLeDigits(s: string, t: string)
    requires AllDigits(s) && AllDigits(t) && |s| == |t|
    ensures StrLe(s, t) <==> DigitsValue(s) <= DigitsValue(t)
  {
    if s != [] {
      var p := Pow10(|s| - 1);
      DigitsValueFront(s);
      DigitsValueFront(t);
      DigitsValueBound(s[1..]);
      DigitsValueBound(t[1..]);
      StrLeDigits(s[1..], t[1..]);
      var a, b := DigitValue(s[0]), DigitValue(t[0]);
      var u, v := DigitsValue(s[1..]), DigitsValue(t[1..]);
      if a < b {
        LeadingDigitDecides(a, b, u, v, p);
      } else if b < a {
        LeadingDigitDecides(b, a, v, u, p);
      }
    }
  }

  lemma LeadingDigitDecides(a: nat, b: nat, u: nat, v: nat, p: nat)
    requires a < b && u < p && v < p
    ensures a * p + u < b * p + v
  {
    calc {
      a * p + u;
    <
      a * p + p;
    ==
      (a + 1) * p;
    <=  { assert a + 1 <= b; }
      b * p;
    }
  }

  /** Zero-padded numbers of one width compare as strings the way they compare as numbers. */
  lemma FixedWidthOrder(m: nat, n: nat, width: nat)
    requires m < Pow10(width) && n < Pow10(width) && width >= 1
    ensures |PadStart(NatToString(m), width, '0')| == width
    ensures StrLe(PadStart(NatToString(m), width, '0'), PadStart(NatToString(n), width, '0')) <==> m <= n
  {
    NatToStringLength(m, width);
    NatToStringLength(n, width);
    NatToStringValue(m);
    NatToStringValue(n);
    ZeroPaddedValue(NatToString(m), width);
    ZeroPaddedValue(NatToString(n), width);
    StrLeDigits(PadStart(NatToString(m), width, '0'), PadStart(NatToString(n), width, '0'));
  }

  // ---------------------------------------------------------------------------
  // String#trim

  /** ECMAScript WhiteSpace and LineTerminator code points, the set `String#trim` strips. */
  predicate IsWhiteSpace(c: char) {
    var k := c as int;
    (9 <= k <= 13) || k == 0x20 || k == 0xA0 || k == 0x1680 || (0x2000 <= k <= 0x200A)
    || k == 0x2028 || k == 0x2029 || k == 0x202F || k == 0x205F || k == 0x3000 || k == 0xFEFF
  }

  predicate AllWhiteSpace(s: string) { forall i :: 0 <= i < |s| ==> IsWhiteSpace(s[i]) }

  /** Drops leading white space: the result is a suffix that is empty or starts with other text. */
  function TrimStart(s: string): (r: string)
    ensures |r| <= |s| && r == s[|s| - |r|..]
    ensures r == [] || !IsWhiteSpace(r[0])
    ensures AllWhiteSpace(s[..|s| - |r|])
  {
    if s != [] && IsWhiteSpace(s[0]) then
      var r := TrimStart(s[1..]);
      assert s[..|s| - |r|] == [s[0]] + s[1..][..|s[1..]| - |r|];
      r
    else s
  }

  /** Drops trailing white space: the result is a prefix that is empty or ends with other text. */
  function TrimEnd(s: string): (r: string)
    ensures |r| <= |s| && r == s[..|r|]
    ensures r == [] || !IsWhiteSpace(r[|r| - 1])
    ensures AllWhiteSpace(s[|r|..])
  {
    if s != [] && IsWhiteSpace(s[|s| - 1]) then
      var r := TrimEnd(s[..|s| - 1]);
      assert s[|r|..] == s[..|s| - 1][|r|..] + [s[|s| - 1]];
      r
    else s
  }

  /** `s.trim()`. */
  function Trim(s: string): string {
    TrimEnd(TrimStart(s))
  }

  lemma {:induction false} TrimStartBlank(s: string)
    requires AllWhiteSpace(s)
    ensures TrimStart(s) == []
  {
    if s != [] {
      TrimStartBlank(s[1..]);
    }
  }

  /** `s.trim() === ''` holds exactly for strings made only of white space. */
  lemma TrimEmptyIffBlank(s: string)
    ensures Trim(s) == [] <==> AllWhiteSpace(s)
  {
    var t := TrimStart(s);
    if AllWhiteSpace(s) {
      TrimStartBlank(s);
    }
    if Trim(s) == [] {
      assert t[0..] == t;
      assert s[..|s|] == s;
    }
  }
}
