/**
 * Big-endian positional notation in the two bases the WSP encoders use:
 * 128 for uintvars (seven-bit groups) and 256 for long-integers (octets).
 * The encoders' `x >> (w * k)`, for a base of 2^w, is `Shift(x, b, k)`.
 * Division by the base is spelled out per base, so every step stays linear.
 */
module Radix {
  predicate IsBase(b: nat)
  {
    b == 128 || b == 256
  }

  /** `x >> w`. */
  function Div(x: nat, b: nat): (q: nat)
    requires IsBase(b)
    ensures x > 0 ==> q < x
  {
    if b == 128 then x / 128 else x / 256
  }

  /** `x & (2^w - 1)`. */
  function Mod(x: nat, b: nat): (r: nat)
    requires IsBase(b)
    ensures r < b
    ensures x == Scale(Div(x, b), b) + r
  {
    if b == 128 then x % 128 else x % 256
  }

  /** `v << w`. */
  function Scale(v: nat, b: nat): nat
    requires IsBase(b)
  {
    if b == 128 then v * 128 else v * 256
  }

  /** The digits of x, most significant first, with no leading zero (empty for 0). */
  function Digits(x: nat, b: nat): seq<nat>
    requires IsBase(b)
    decreases x
  {
    if x == 0 then [] else Digits(Div(x, b), b) + [Mod(x, b)]
  }

  /** The number a digit sequence denotes. */
  function Value(d: seq<nat>, b: nat): nat
    requires IsBase(b)
  {
    if d == [] then 0 else Scale(Value(d[..|d| - 1], b), b) + d[|d| - 1]
  }

  /** k successive divisions by b. */
  function Shift(x: nat, b: nat, k: nat): nat
    requires IsBase(b)
  {
    if k == 0 then x else Shift(Div(x, b), b, k - 1)
  }

  /** b^k. */
  function Power(b: nat, k: nat): (p: nat)
    requires IsBase(b)
    ensures p >= 1
  {
    if k == 0 then 1 else Scale(Power(b, k - 1), b)
  }

  /** Below b^k, k divisions by b leave nothing. */
  lemma {:induction false} ShiftBelowPower(x: nat, b: nat, k: nat)
    requires IsBase(b) && x < Power(b, k)
    ensures Shift(x, b, k) == 0
  {
    if k > 0 {
      ShiftBelowPower(Div(x, b), b, k - 1);
    }
  }

  lemma {:induction false} ValueOfDigits(x: nat, b: nat)
    requires IsBase(b)
    ensures Value(Digits(x, b), b) == x
    decreases x
  {
    if x > 0 {
      var y := Div(x, b);
      ValueOfDigits(y, b);
      var d := Digits(x, b);
      assert d[..|d| - 1] == Digits(y, b);
    }
  }

  lemma {:induction false} DigitsBelowBase(x: nat, b: nat)
    requires IsBase(b)
    ensures forall i :: 0 <= i < |Digits(x, b)| ==> Digits(x, b)[i] < b
    decreases x
  {
    if x > 0 {
      DigitsBelowBase(Div(x, b), b);
    }
  }

  /** No leading zero: the encodings are minimal. */
  lemma {:induction false} DigitsLeading(x: nat, b: nat)
    requires IsBase(b)
    ensures |Digits(x, b)| > 0 ==> Digits(x, b)[0] > 0
    ensures |Digits(x, b)| == 0 <==> x == 0
    decreases x
  {
    if x > 0 {
      var y := Div(x, b);
      DigitsLeading(y, b);
      if y == 0 {
        assert Digits(x, b) == [Mod(x, b)];
      }
    }
  }

  /** Shift(x, b, k + 1) is one more division of Shift(x, b, k). */
  lemma {:induction false} ShiftStep(x: nat, b: nat, k: nat)
    requires IsBase(b)
    ensures Shift(x, b, k + 1) == Div(Shift(x, b, k), b)
  {
    if k > 0 {
      ShiftStep(Div(x, b), b, k - 1);
    }
  }

  /** The digit count is the least k with x >> (w * k) == 0: the counting loops' exit test. */
  lemma {:induction false} ShiftZero(x: nat, b: nat, k: nat)
    requires IsBase(b)
    ensures Shift(x, b, k) == 0 <==> |Digits(x, b)| <= k
  {
    if k > 0 {
      ShiftZero(Div(x, b), b, k - 1);
    }
  }

  /** Digit j is `(x >> (w * (n - 1 - j))) & (2^w - 1)`: what the writing loops emit at step j. */
  lemma {:induction false} DigitAt(x: nat, b: nat, j: nat)
    requires IsBase(b) && j < |Digits(x, b)|
    ensures Digits(x, b)[j] == Mod(Shift(x, b, |Digits(x, b)| - 1 - j), b)
    decreases x
  {
    var n := |Digits(x, b)|;
    if j < n - 1 {
      DigitAt(Div(x, b), b, j);
    }
  }
}
