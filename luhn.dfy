/** The Luhn (mod 10) check of ISO/IEC 7812-1, Annex B, which order numbers
    must pass. Digits are weighted from the right: the rightmost digit (the
    check digit) counts once, the next one twice, and so on alternately; a
    doubled digit contributes the sum of the digits of its double. A number
    is valid when the total is a multiple of 10. */
module Luhn {

  predicate IsDigit(c: char) {
    '0' <= c <= '9'
  }

  predicate AllDigits(s: string) {
    forall i :: 0 <= i < |s| ==> IsDigit(s[i])
  }

  function DigitValue(c: char): (d: nat)
    requires IsDigit(c)
    ensures d <= 9
  {
    c as int - '0' as int
  }

  function DigitChar(d: nat): (c: char)
    requires d <= 9
    ensures IsDigit(c) && DigitValue(c) == d
  {
    ('0' as int + d) as char
  }

  /** Contribution of one digit value; a doubled digit contributes the sum
      of the two decimal digits of its double, which is `2d - 9` above 9. */
  function Weight(d: nat, doubled: bool): (w: nat)
    requires d <= 9
    ensures w <= 9
    ensures !doubled ==> w == d
  {
    if !doubled then d else if 2 * d > 9 then 2 * d - 9 else 2 * d
  }

  /** A doubled digit contributes the sum of the decimal digits of its
      double, as the standard prescribes. */
  lemma DoubledWeightIsDigitSum(d: nat)
    requires d <= 9
    ensures Weight(d, true) == (2 * d) / 10 + (2 * d) % 10
  {
    if 2 * d > 9 {
      assert (2 * d) / 10 == 1 && (2 * d) % 10 == 2 * d - 10;
    } else {
      assert (2 * d) / 10 == 0 && (2 * d) % 10 == 2 * d;
    }
  }

  /** Weighted digit sum of `s`, where `doubled` says whether the rightmost
      digit of `s` is a doubled one. */
  function LuhnSum(s: string, doubled: bool): nat
    requires AllDigits(s)
  {
    if s == [] then 0
    else LuhnSum(s[..|s| - 1], !doubled) + Weight(DigitValue(s[|s| - 1]), doubled)
  }

  /** `luhn.Valid`: a digit string whose weighted sum is a multiple of 10. */
  predicate Valid(s: string) {
    AllDigits(s) && LuhnSum(s, false) % 10 == 0
  }

  /** The acceptance test that both repositories apply to an order number:
      not empty, and Luhn-valid. */
  predicate Accepted(s: string) {
    s != "" && Valid(s)
  }

  lemma LuhnSumSnoc(p: string, c: char, doubled: bool)
    requires AllDigits(p) && IsDigit(c)
    ensures AllDigits(p + [c])
    ensures LuhnSum(p + [c], doubled) == LuhnSum(p, !doubled) + Weight(DigitValue(c), doubled)
  {
    assert (p + [c])[..|p|] == p;
  }

  /** The check digit that completes `payload` to a valid number. */
  function CheckDigit(payload: string): (c: char)
    requires AllDigits(payload)
    ensures IsDigit(c)
  {
    DigitChar((10 - LuhnSum(payload, true) % 10) % 10)
  }

  /** Appending the check digit gives a valid number, and it is the only
      digit that does. */
  lemma {:induction false} CheckDigitCompletes(payload: string, c: char)
    requires AllDigits(payload) && IsDigit(c)
    ensures Valid(payload + [c]) <==> c == CheckDigit(payload)
  {
    LuhnSumSnoc(payload, c, false);
    var sum := LuhnSum(payload, true);
    ModCompletion(sum, DigitValue(c));
    var e := CheckDigit(payload);
    assert DigitValue(e) == (10 - sum % 10) % 10;
    assert c == e <==> DigitValue(c) == DigitValue(e);
  }

  /** A digit completes `x` to a multiple of 10 exactly when it is
      `(10 - x mod 10) mod 10`. */
  lemma ModCompletion(x: nat, d: nat)
    requires d <= 9
    ensures (x + d) % 10 == 0 <==> d == (10 - x % 10) % 10
  {
    var q, k := x / 10, x % 10;
    assert x == 10 * q + k;
    assert x + d == 10 * q + (k + d);
    if k + d < 10 {
      assert (x + d) % 10 == k + d;
    } else {
      assert x + d == 10 * (q + 1) + (k + d - 10);
      assert (x + d) % 10 == k + d - 10;
    }
  }

  /** Whether the digit at index `k` of `s` is doubled, when the rightmost
      digit's weighting is `doubled`. */
  function DoubledAt(len: nat, k: nat, doubled: bool): bool
    requires k < len
    decreases len
  {
    if k == len - 1 then doubled else DoubledAt(len - 1, k, !doubled)
  }

  /** Replacing one digit changes the weighted sum by exactly the change in
      that digit's weight. */
  lemma {:induction false} LuhnSumUpdate(s: string, k: nat, c: char, doubled: bool)
    requires AllDigits(s) && k < |s| && IsDigit(c)
    ensures AllDigits(s[k := c])
    ensures LuhnSum(s[k := c], doubled) + Weight(DigitValue(s[k]), DoubledAt(|s|, k, doubled))
         == LuhnSum(s, doubled) + Weight(DigitValue(c), DoubledAt(|s|, k, doubled))
  {
    var t := s[k := c];
    var n := |s|;
    if k == n - 1 {
      assert t[..n - 1] == s[..n - 1];
    } else {
      assert t[..n - 1] == s[..n - 1][k := c];
      LuhnSumUpdate(s[..n - 1], k, c, !doubled);
    }
  }

  lemma WeightInjective(a: nat, b: nat, doubled: bool)
    requires a <= 9 && b <= 9 && a != b
    ensures Weight(a, doubled) != Weight(b, doubled)
  {
  }

  /** The Luhn check detects every single-digit error. */
  lemma SingleDigitErrorDetected(s: string, k: nat, c: char)
    requires Valid(s) && k < |s| && IsDigit(c) && c != s[k]
    ensures !Valid(s[k := c])
  {
    LuhnSumUpdate(s, k, c, false);
    var p := DoubledAt(|s|, k, false);
    assert DigitValue(c) != DigitValue(s[k]) by {
      assert c as int != s[k] as int;
    }
    WeightInjective(DigitValue(c), DigitValue(s[k]), p);
    NonMultipleShift(LuhnSum(s, false), Weight(DigitValue(c), p) - Weight(DigitValue(s[k]), p));
  }

  /** Moving a multiple of 10 by a non-zero amount below 10 in size leaves
      a non-multiple. */
  lemma NonMultipleShift(x: int, delta: int)
    requires x % 10 == 0 && -10 < delta < 10 && delta != 0
    ensures (x + delta) % 10 != 0
  {
    var q := x / 10;
    assert x == 10 * q;
    if delta > 0 {
      assert (10 * q + delta) % 10 == delta;
    } else {
      assert (10 * q + delta) % 10 == delta + 10 by {
        assert 10 * q + delta == 10 * (q - 1) + (delta + 10);
      }
    }
  }

  /** The textbook sample number 79927398713 is accepted. */
  lemma SampleNumberAccepted()
    ensures Accepted("79927398713")
  {
    var s := "79927398713";
    assert AllDigits(s);
    assert LuhnSum(s[..1], false) == 7;
    assert s[..2][..1] == s[..1];
    assert LuhnSum(s[..2], true) == 16;
    assert s[..3][..2] == s[..2];
    assert LuhnSum(s[..3], false) == 25;
    assert s[..4][..3] == s[..3];
    assert LuhnSum(s[..4], true) == 29;
    assert s[..5][..4] == s[..4];
    assert LuhnSum(s[..5], false) == 36;
    assert s[..6][..5] == s[..5];
    assert LuhnSum(s[..6], true) == 42;
    assert s[..7][..6] == s[..6];
    assert LuhnSum(s[..7], false) == 51;
    assert s[..8][..7] == s[..7];
    assert LuhnSum(s[..8], true) == 58;
    assert s[..9][..8] == s[..8];
    assert LuhnSum(s[..9], false) == 65;
    assert s[..10][..9] == s[..9];
    assert LuhnSum(s[..10], true) == 67;
    assert s[..11][..10] == s[..10];
    assert s[..11] == s;
    assert LuhnSum(s, false) == 70;
  }
}
