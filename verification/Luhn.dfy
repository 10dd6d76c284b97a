/** Luhn check digits: generated card numbers against the detector's validator. */
module Luhn {

  predicate IsDigit(c: char) {
    '0' <= c <= '9'
  }

  function Digit(c: char): nat
    requires IsDigit(c)
  {
    (c - '0') as nat
  }

  function Char(d: nat): (c: char)
    requires d < 10
    ensures IsDigit(c) && Digit(c) == d
  {
    '0' + d as char
  }

  /** The digits of a text; everything else is skipped. */
  function DigitsIn(s: string): (ds: seq<nat>)
    ensures AllDigits(ds)
  {
    if s == [] then [] else DigitsIn(s[..|s| - 1]) + if IsDigit(s[|s| - 1]) then [Digit(s[|s| - 1])] else []
  }

  predicate AllDigits(ds: seq<nat>) {
    forall i :: 0 <= i < |ds| ==> ds[i] < 10
  }

  function Weighted(d: nat, double: bool): nat {
    if !double then d else if d * 2 > 9 then d * 2 - 9 else d * 2
  }

  /** The weighted sum from the right; `double` says whether the last digit is doubled. */
  function Sum(ds: seq<nat>, double: bool): nat {
    if ds == [] then 0
    else Weighted(ds[|ds| - 1], double) + Sum(ds[..|ds| - 1], !double)
  }

  /** The validator's verdict on a digit string. */
  predicate Valid(ds: seq<nat>) {
    Sum(ds, false) % 10 == 0
  }

  /** Reading characters the way the generator does: anything else counts as zero. */
  function DigitOrZero(c: char): (d: nat)
    ensures d < 10
  {
    if IsDigit(c) then Digit(c) else 0
  }

  function Read(s: string): (ds: seq<nat>)
    ensures |ds| == |s| && AllDigits(ds)
  {
    seq(|s|, i requires 0 <= i < |s| => DigitOrZero(s[i]))
  }

  lemma Completes(sum: nat)
    ensures (sum + (10 - sum % 10) % 10) % 10 == 0
  {
  }

  /** The check digit completes every text to a valid number. */
  method LuhnCheckDigit(digits: string) returns (check: nat)
    ensures check < 10 && Valid(Read(digits) + [check])
  {
    var ds := Read(digits);
    var sum: nat, double := 0, true;
    var i := |digits|;
    assert ds[..i] == ds;
    while i > 0
      invariant 0 <= i <= |digits|
      invariant sum + Sum(ds[..i], double) == Sum(ds, true)
    {
      i := i - 1;
      assert ds[..i + 1][..i] == ds[..i];
      var d := DigitOrZero(digits[i]);
      if double {
        d := d * 2;
        if d > 9 { d := d - 9; }
      }
      sum := sum + d;
      double := !double;
    }
    check := (10 - sum % 10) % 10;
    Completes(sum);
    assert (ds + [check])[..|ds|] == ds;
  }

  /** The detector's test: 13 to 19 digits, separators skipped, weighted sum divisible by ten. */
  method LuhnValid(s: string) returns (ok: bool)
    ensures ok <==> 13 <= |DigitsIn(s)| <= 19 && Valid(DigitsIn(s))
  {
    var ds := DigitsIn(s);
    if |ds| < 13 || |ds| > 19 { return false; }
    var sum: nat, double := 0, false;
    var i := |ds|;
    assert ds[..i] == ds;
    while i > 0
      invariant 0 <= i <= |ds|
      invariant sum + Sum(ds[..i], double) == Sum(ds, false)
    {
      i := i - 1;
      assert ds[..i + 1][..i] == ds[..i];
      var val := ds[i];
      if double {
        val := val * 2;
        if val > 9 { val := val - 9; }
      }
      sum := sum + val;
      double := !double;
    }
    return sum % 10 == 0;
  }

  lemma {:induction false} DigitsOfDigits(s: string)
    requires forall i :: 0 <= i < |s| ==> IsDigit(s[i])
    ensures DigitsIn(s) == Read(s)
  {
    if s == [] {
    } else {
      var init := s[..|s| - 1];
      DigitsOfDigits(init);
      assert Read(s) == Read(init) + [Digit(s[|s| - 1])];
    }
  }

  lemma {:induction false} DigitsOfParts(a: string, b: string)
    ensures DigitsIn(a + b) == DigitsIn(a) + DigitsIn(b)
    decreases |b|
  {
    hide AllDigits, Digit;
    if b == [] {
      assert a + b == a && DigitsIn(a) + [] == DigitsIn(a);
    } else {
      var n := |b| - 1;
      assert (a + b)[..|a| + n] == a + b[..n];
      DigitsOfParts(a, b[..n]);
    }
  }

  lemma {:induction false} NoDigits(s: string)
    requires forall i :: 0 <= i < |s| ==> !IsDigit(s[i])
    ensures DigitsIn(s) == []
  {
    if s == [] {
    } else {
      NoDigits(s[..|s| - 1]);
    }
  }

  /** Separators anywhere in a number make no difference to the detector. */
  lemma SeparatorsAreSkipped(a: string, separator: string, b: string)
    requires forall i :: 0 <= i < |separator| ==> !IsDigit(separator[i])
    ensures DigitsIn(a + (separator + b)) == DigitsIn(a + b)
  {
    hide DigitsIn;
    DigitsOfParts(a, separator + b);
    DigitsOfParts(separator, b);
    DigitsOfParts(a, b);
    NoDigits(separator);
  }

  /** The first digit of the original, or a 4. */
  function Brand(original: string): (c: char)
    ensures IsDigit(c)
  {
    if original == [] then '4' else if IsDigit(original[0]) then original[0] else Brand(original[1..])
  }

  lemma {:induction false} BrandIsFirstDigit(a: string, d: char, b: string)
    requires IsDigit(d) && forall i :: 0 <= i < |a| ==> !IsDigit(a[i])
    ensures Brand(a) == '4' && Brand(a + ([d] + b)) == d
    decreases |a|
  {
    if a == [] {
      assert a + ([d] + b) == [d] + b;
    } else {
      assert (a + ([d] + b))[1..] == a[1..] + ([d] + b);
      BrandIsFirstDigit(a[1..], d, b);
    }
  }

  /** Every generated card keeps the brand digit and passes the detector's test, whatever was drawn. */
  method GenCreditCard(original: string, drawn: seq<nat>) returns (card: string)
    requires |drawn| == 14 && AllDigits(drawn)
    ensures |card| == 16 && card[0] == Brand(original) && (forall i :: 0 <= i < 16 ==> IsDigit(card[i]))
    ensures forall i :: 0 <= i < 14 ==> card[i + 1] == Char(drawn[i])
    ensures 13 <= |DigitsIn(card)| <= 19 && Valid(DigitsIn(card))
  {
    hide DigitsIn, Brand, Valid;
    var digits := [Brand(original)] + seq(14, i requires 0 <= i < 14 => Char(drawn[i]));
    var check := LuhnCheckDigit(digits);
    card := digits + [Char(check)];
    DigitsOfDigits(card);
    assert Read(card) == Read(digits) + [check];
  }

  // ----- What the check digit is for

  /** Whether position `k` of `n` is doubled when the last one is as `double` says. */
  predicate Doubled(n: nat, k: nat, double: bool)
    requires k < n
  {
    if (n - k) % 2 == 1 then double else !double
  }

  lemma DoubledStep(n: nat, k: nat, double: bool)
    requires k < n
    ensures Doubled(n + 1, k, double) == Doubled(n, k, !double)
    ensures Doubled(n + 1, n, double) == double
  {
  }

  /** Changing one digit moves the sum by the change of that digit's weight. */
  lemma {:induction false} OneDigitMovesSum(ds: seq<nat>, k: nat, d: nat, double: bool)
    requires k < |ds|
    ensures
      var at := Doubled(|ds|, k, double);
      Sum(ds[k := d], double) - Sum(ds, double) == Weighted(d, at) - Weighted(ds[k], at)
  {
    hide Weighted;
    var n := |ds| - 1;
    if k == n {
      assert ds[k := d][..n] == ds[..n];
    } else {
      assert ds[k := d][..n] == ds[..n][k := d];
      OneDigitMovesSum(ds[..n], k, d, !double);
    }
  }

  lemma WeightedSeparates(a: nat, b: nat, double: bool)
    requires a < 10 && b < 10 && a != b
    ensures -10 < Weighted(a, double) - Weighted(b, double) < 10 && Weighted(a, double) != Weighted(b, double)
  {
  }

  /** A shift below ten keeps divisibility by ten only if it is none. */
  lemma SmallShift(s: int, t: int)
    requires s % 10 == 0 && -10 < t - s < 10
    ensures t % 10 == 0 <==> s == t
  {
  }

  /** Every single wrong digit is caught. */
  lemma SingleErrorCaught(ds: seq<nat>, k: nat, d: nat)
    requires AllDigits(ds) && Valid(ds) && k < |ds| && d < 10
    ensures Valid(ds[k := d]) <==> d == ds[k]
  {
    if d != ds[k] {
      OneDigitMovesSum(ds, k, d, false);
      WeightedSeparates(d, ds[k], Doubled(|ds|, k, false));
      SmallShift(Sum(ds, false), Sum(ds[k := d], false));
    } else {
      assert ds[k := d] == ds;
    }
  }

  /** The check digit is the only one that completes a number. */
  lemma CheckDigitIsUnique(ds: seq<nat>, a: nat, b: nat)
    requires AllDigits(ds) && a < 10 && b < 10 && Valid(ds + [a]) && Valid(ds + [b])
    ensures a == b
  {
    assert (ds + [a])[|ds| := b] == ds + [b];
    SingleErrorCaught(ds + [a], |ds|, b);
  }

  function Swapped(ds: seq<nat>, k: nat): seq<nat>
    requires k + 1 < |ds|
  {
    ds[k := ds[k + 1]][k + 1 := ds[k]]
  }

  /** Neighbours whose exchange leaves the sum alone. */
  predicate Confusable(a: nat, b: nat) {
    a == b || (a == 0 && b == 9) || (a == 9 && b == 0)
  }

  /** What doubling adds to a digit: it tells all digits apart but 0 and 9. */
  function Lift(d: nat): int {
    Weighted(d, true) - d
  }

  lemma LiftSeparates(a: nat, b: nat)
    requires a < 10 && b < 10
    ensures -10 < Lift(a) - Lift(b) < 10 && (Lift(a) == Lift(b) <==> Confusable(a, b))
  {
  }

  /** Exchanging neighbours moves the sum by the difference of their lifts. */
  lemma {:induction false} SwapMovesSum(ds: seq<nat>, k: nat, double: bool)
    requires k + 1 < |ds|
    ensures
      var shift := Lift(ds[k + 1]) - Lift(ds[k]);
      Sum(Swapped(ds, k), double) - Sum(ds, double) == if Doubled(|ds|, k, double) then shift else -shift
  {
    var n := |ds| - 1;
    var sw := Swapped(ds, k);
    if k + 1 == n {
      LastTwo(sw, double);
      LastTwo(ds, double);
      DoubledStep(n, k, double);
      DoubledStep(k + 1, k, !double);
      assert sw[..n - 1] == ds[..n - 1];
      hide Weighted, Sum, Lift, Doubled;
    } else {
      hide Weighted, Doubled;
      DoubledStep(n, k, double);
      assert sw[..n] == Swapped(ds[..n], k);
      SwapMovesSum(ds[..n], k, !double);
    }
  }

  lemma LastTwo(ds: seq<nat>, double: bool)
    requires |ds| >= 2
    ensures
      var n := |ds|;
      Sum(ds, double) ==
      ds[n - 1] + ds[n - 2] + Sum(ds[..n - 2], double) + Lift(if double then ds[n - 1] else ds[n - 2])
  {
    assert ds[..|ds| - 1][..|ds| - 2] == ds[..|ds| - 2];
  }

  /** A transposition of neighbours is caught unless the digits are equal or 0 and 9. */
  lemma TranspositionCaughtIff(ds: seq<nat>, k: nat)
    requires AllDigits(ds) && Valid(ds) && k + 1 < |ds|
    ensures Valid(Swapped(ds, k)) <==> Confusable(ds[k], ds[k + 1])
  {
    hide Sum, Lift;
    SwapMovesSum(ds, k, false);
    LiftSeparates(ds[k], ds[k + 1]);
    SmallShift(Sum(ds, false), Sum(Swapped(ds, k), false));
  }
}
