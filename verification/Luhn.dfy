// The check digit of National Provider Identifiers: the right-to-left doubling checksum of
// ISO/IEC 7812-1, Annex B, and what it detects.
module Luhn {

  predicate IsDigit(c: char) {
    '0' <= c <= '9'
  }

  predicate AllDigits(s: string) {
    forall i :: 0 <= i < |s| ==> IsDigit(s[i])
  }

  type Digits = s: string | AllDigits(s)

  function Value(c: char): (v: nat)
    requires IsDigit(c)
    ensures v <= 9
  {
    c as int - '0' as int
  }

  function Digit(v: nat): (c: char)
    requires v <= 9
    ensures IsDigit(c) && Value(c) == v
  {
    '0' + v as char
  }

  /** What a digit adds to the checksum: doubled positions fold a two-digit product back into one digit. */
  function Weight(v: nat, doubled: bool): nat {
    if !doubled then v else if v * 2 > 9 then v * 2 - 9 else v * 2
  }

  /** The checksum of a digit string, the last digit first; `doubled` says whether the last digit is doubled. */
  function Sum(s: Digits, doubled: bool): nat {
    if s == "" then 0 else Weight(Value(s[|s| - 1]), doubled) + Sum(s[..|s| - 1], !doubled)
  }

  predicate Valid(s: Digits) {
    Sum(s, false) % 10 == 0
  }

  const NPI_PREFIX: Digits := "80840"

  method IsValidNpi(npi: string) returns (valid: bool)
    ensures valid <==> |npi| == 10 && AllDigits(npi) && Valid(NPI_PREFIX + npi)
  {
    if |npi| != 10 || !AllDigits(npi) {
      return false;
    }
    var prefixedNpi := NPI_PREFIX + npi;
    var checksum := 0;
    var doubleDigit := false;
    var index := |prefixedNpi| - 1;
    assert prefixedNpi[..index + 1] == prefixedNpi;
    while index >= 0
      invariant -1 <= index < |prefixedNpi|
      invariant checksum + Sum(prefixedNpi[..index + 1], doubleDigit) == Sum(prefixedNpi, false)
    {
      ghost var rest := prefixedNpi[..index + 1];
      assert rest[..|rest| - 1] == prefixedNpi[..index];
      var digit := prefixedNpi[index] as int - 48;
      if doubleDigit {
        digit := digit * 2;
        if digit > 9 {
          digit := digit - 9;
        }
      }
      checksum := checksum + digit;
      doubleDigit := !doubleDigit;
      index := index - 1;
    }
    valid := checksum % 10 == 0;
  }

  /** The checksum splits at any position. */
  lemma {:induction false} SumSplits(a: Digits, b: Digits, doubled: bool)
    ensures Sum(a + b, doubled) == Sum(b, doubled) + Sum(a, if |b| % 2 == 0 then doubled else !doubled)
    decreases |b|
  {
    if b == "" {
      assert a + b == a;
    } else {
      var b' := b[..|b| - 1];
      SumSplits(a, b', !doubled);
      assert (a + b)[..|a + b| - 1] == a + b';
    }
  }

  lemma {:induction false} SumOfOne(c: char, doubled: bool)
    requires IsDigit(c)
    ensures Sum([c], doubled) == Weight(Value(c), doubled)
  {
  }

  /** Changing one digit changes the weight, for both weightings. */
  lemma {:induction false} WeightIsInjective(v: nat, w: nat, doubled: bool)
    requires v <= 9 && w <= 9 && v != w
    ensures Weight(v, doubled) % 10 != Weight(w, doubled) % 10
  {
  }

  /** The checksum around a middle part: what stands outside adds an amount that does not depend on the middle. */
  function Outside(a: Digits, b: Digits, n: nat): nat {
    var under := |b| % 2 != 0;
    Sum(b, false) + Sum(a, if n % 2 == 0 then under else !under)
  }

  lemma {:induction false} SumAround(a: Digits, mid: Digits, b: Digits)
    ensures Sum(a + mid + b, false) == Outside(a, b, |mid|) + Sum(mid, |b| % 2 != 0)
  {
    SumSplits(a + mid, b, false);
    SumSplits(a, mid, |b| % 2 != 0);
  }

  /** Adding the same amount keeps two numbers equal, or different, modulo ten. */
  lemma {:induction false} SameModulo(r: nat, x: nat, y: nat, s: nat, t: nat)
    requires s == r + x && t == r + y
    ensures s % 10 == t % 10 <==> x % 10 == y % 10
  {
    var a, b, c, d := s / 10, t / 10, x / 10, y / 10;
    assert s == 10 * a + s % 10 && t == 10 * b + t % 10;
    assert x == 10 * c + x % 10 && y == 10 * d + y % 10;
    if s % 10 == t % 10 {
      assert x % 10 - y % 10 == 10 * (a - b - c + d);
    }
    if x % 10 == y % 10 {
      assert s % 10 - t % 10 == 10 * (c - d - a + b);
    }
  }

  /** Every substitution of one digit changes the checksum modulo ten. */
  lemma {:induction false} SubstitutionIsDetected(a: Digits, x: char, y: char, b: Digits)
    requires IsDigit(x) && IsDigit(y) && x != y
    ensures Sum(a + [x] + b, false) % 10 != Sum(a + [y] + b, false) % 10
  {
    SumAround(a, [x], b);
    SumAround(a, [y], b);
    var under := |b| % 2 != 0;
    SumOfOne(x, under);
    SumOfOne(y, under);
    WeightIsInjective(Value(x), Value(y), under);
    SameModulo(Outside(a, b, 1), Sum([x], under), Sum([y], under), Sum(a + [x] + b, false), Sum(a + [y] + b, false));
  }

  lemma {:induction false} SumOfTwo(x: char, y: char, doubled: bool)
    requires IsDigit(x) && IsDigit(y)
    ensures Sum([x, y], doubled) == Weight(Value(y), doubled) + Weight(Value(x), !doubled)
  {
    assert [x, y][..1] == [x];
    SumOfOne(x, !doubled);
  }

  /** Swapping two neighbouring digits goes unnoticed exactly for equal digits and for 0 with 9. */
  lemma {:induction false} TranspositionIsDetected(a: Digits, x: char, y: char, b: Digits)
    requires IsDigit(x) && IsDigit(y)
    ensures Sum(a + [x, y] + b, false) % 10 == Sum(a + [y, x] + b, false) % 10
       <==> x == y || (x == '0' && y == '9') || (x == '9' && y == '0')
  {
    SumAround(a, [x, y], b);
    SumAround(a, [y, x], b);
    var under := |b| % 2 != 0;
    SwappedPair(x, y, under);
    SameModulo(Outside(a, b, 2), Sum([x, y], under), Sum([y, x], under),
               Sum(a + [x, y] + b, false), Sum(a + [y, x] + b, false));
  }

  lemma {:induction false} SwappedPair(x: char, y: char, doubled: bool)
    requires IsDigit(x) && IsDigit(y)
    ensures Sum([x, y], doubled) % 10 == Sum([y, x], doubled) % 10
       <==> x == y || (x == '0' && y == '9') || (x == '9' && y == '0')
  {
    SumOfTwo(x, y, doubled);
    SumOfTwo(y, x, doubled);
    SwappedWeights(Value(x), Value(y));
  }

  lemma {:induction false} SwappedWeights(v: nat, w: nat)
    requires v <= 9 && w <= 9
    ensures (Weight(v, true) + w) % 10 == (Weight(w, true) + v) % 10
      <==> v == w || (v == 0 && w == 9) || (v == 9 && w == 0)
  {
  }

  /** The digit that completes a prefix. */
  function CheckDigit(prefix: Digits): char {
    Digit((10 - Sum(prefix, true) % 10) % 10)
  }

  /** Every prefix, of any length, has exactly one valid check digit. */
  lemma {:induction false} CheckDigitIsUnique(prefix: Digits, c: char)
    requires IsDigit(c)
    ensures Valid(prefix + [c]) <==> c == CheckDigit(prefix)
  {
    SumSplits(prefix, [c], false);
    SumOfOne(c, false);
    Completes(Sum(prefix, true), Value(c));
    assert Value(CheckDigit(prefix)) == (10 - Sum(prefix, true) % 10) % 10;
  }

  lemma {:induction false} Completes(r: nat, v: nat)
    requires v <= 9
    ensures (v + r) % 10 == 0 <==> v == (10 - r % 10) % 10
  {
    var q := r / 10;
    assert r == 10 * q + r % 10;
  }

  /** A substitution in a valid National Provider Identifier makes it invalid. */
  lemma {:induction false} NpiSubstitution(a: Digits, x: char, y: char, b: Digits)
    requires IsDigit(x) && IsDigit(y) && x != y && Valid(NPI_PREFIX + (a + [x] + b))
    ensures !Valid(NPI_PREFIX + (a + [y] + b))
  {
    SubstitutionIsDetected(NPI_PREFIX + a, x, y, b);
    assert NPI_PREFIX + a + [x] + b == NPI_PREFIX + (a + [x] + b);
    assert NPI_PREFIX + a + [y] + b == NPI_PREFIX + (a + [y] + b);
  }

  /** Nine digits extend to exactly one valid National Provider Identifier. */
  lemma {:induction false} NpiCheckDigit(nine: Digits, c: char)
    requires IsDigit(c)
    ensures Valid(NPI_PREFIX + (nine + [c])) <==> c == CheckDigit(NPI_PREFIX + nine)
  {
    assert NPI_PREFIX + nine + [c] == NPI_PREFIX + (nine + [c]);
    CheckDigitIsUnique(NPI_PREFIX + nine, c);
  }

  // ---------------------------------------------------------------- the checksum in digits

  lemma {:induction false} DigitsCount(c: char)
    requires c in "0123456789"
    ensures IsDigit(c) && "0123456789"[Value(c)] == c
    ensures Weight(Value(c), false) == Value(c)
    ensures Weight(Value(c), true) == [0, 2, 4, 6, 8, 1, 3, 5, 7, 9][Value(c)]
  {
  }

  lemma {:induction false} PrefixSum()
    ensures Sum("80840", false) == 24
  {
    var s: Digits := "80840";
    assert Sum(s[..0], true) == 0;
    assert s[..1][..0] == s[..0] && s[..2][..1] == s[..1] && s[..3][..2] == s[..2] && s[..4][..3] == s[..3];
    assert Sum(s[..1], false) == 8;
    assert Sum(s[..2], true) == 8;
    assert Sum(s[..3], false) == 16;
    assert Sum(s[..4], true) == 24;
    assert s[..4] == s[..|s| - 1];
  }

  /** What a digit counts at a doubled position. */
  function Twice(c: char): nat
    requires IsDigit(c)
  {
    [0, 2, 4, 6, 8, 1, 3, 5, 7, 9][Value(c)]
  }

  lemma {:induction false} TwoMore(s: Digits, i: nat)
    requires i + 2 <= |s|
    ensures Sum(s[..i + 2], false) == Value(s[i + 1]) + Twice(s[i]) + Sum(s[..i], false)
  {
    assert s[..i + 2][..i + 1] == s[..i + 1] && s[..i + 1][..i] == s[..i];
  }

  lemma {:induction false} SumOfTen(n: Digits)
    requires |n| == 10
    ensures Sum(n, false) == Twice(n[0]) + Value(n[1]) + Twice(n[2]) + Value(n[3]) + Twice(n[4]) + Value(n[5])
                             + Twice(n[6]) + Value(n[7]) + Twice(n[8]) + Value(n[9])
  {
    assert n[..10] == n && n[..0] == "";
    TwoMore(n, 8);
    TwoMore(n, 6);
    TwoMore(n, 4);
    TwoMore(n, 2);
    TwoMore(n, 0);
  }

  /**
   * A provider identifier is valid exactly when it is ten digits and 24, which the prefix 80840 adds, with the digits,
   * every other one from the first on taken twice, is divisible by ten.
   */
  lemma {:induction false} NpiInDigits(n: Digits)
    requires |n| == 10
    ensures Valid(NPI_PREFIX + n) <==>
              (24 + Twice(n[0]) + Value(n[1]) + Twice(n[2]) + Value(n[3]) + Twice(n[4]) + Value(n[5])
               + Twice(n[6]) + Value(n[7]) + Twice(n[8]) + Value(n[9])) % 10 == 0
  {
    SumSplits(NPI_PREFIX, n, false);
    PrefixSum();
    SumOfTen(n);
  }
}
