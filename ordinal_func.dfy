/**
  `int2ordinal`: the English ordinal label of a natural number ("0th", "1st",
  "2nd", "3rd", "11th", "121st", ...): the decimal notation of the number followed by
  "st", "nd", "rd" or "th", chosen by its last two digits.
 */
module OrdinalFunc {
  import opened Builtins

  // ---------------------------------------------------------------------------
  // Decimal notation, as `f"{num}"` prints a non-negative int

  function DigitChar(d: nat): (c: char)
    requires d < 10
    ensures '0' <= c <= '9'
  {
    "0123456789"[d]
  }

  function DigitValue(c: char): (d: nat)
    requires '0' <= c <= '9'
    ensures d < 10 && DigitChar(d) == c
  {
    (c as int - '0' as int) as nat
  }

  predicate IsDigits(s: string) {
    forall i :: 0 <= i < |s| ==> '0' <= s[i] <= '9'
  }

  /** The decimal notation of `n`, most significant digit first, without leading zeros. */
  function Decimal(n: nat): (s: string)
    ensures |s| >= 1 && IsDigits(s)
    ensures |s| > 1 ==> s[0] != '0'
    ensures s[|s| - 1] == DigitChar(n % 10)
  {
    if n < 10 then [DigitChar(n)] else Decimal(n / 10) + [DigitChar(n % 10)]
  }

  /** The number a string of decimal digits denotes (the reading of `int(s)`). */
  function DecimalValue(s: string): (n: nat)
    requires IsDigits(s)
  {
    if s == [] then 0 else DecimalValue(s[..|s| - 1]) * 10 + DigitValue(s[|s| - 1])
  }

  /** Reading back the decimal notation gives the number again. */
  lemma {:induction false} DecimalRoundTrip(n: nat)
    ensures DecimalValue(Decimal(n)) == n
  {
    var s := Decimal(n);
    if n >= 10 {
      DecimalRoundTrip(n / 10);
      assert s[..|s| - 1] == Decimal(n / 10);
    } else {
      assert s[..0] == [];
    }
  }

  /** A digit string whose first digit is not zero denotes a positive number. */
  lemma {:induction false} LeadingDigitPositive(s: string)
    requires |s| >= 1 && IsDigits(s) && s[0] != '0'
    ensures DecimalValue(s) >= 1
  {
    if |s| > 1 {
      var init := s[..|s| - 1];
      assert init[0] == s[0];
      LeadingDigitPositive(init);
    } else {
      assert s[..0] == [];
    }
  }

  /** A digit string without leading zeros is the notation of the number it denotes. */
  lemma {:induction false} DecimalOfValue(s: string)
    requires |s| >= 1 && IsDigits(s) && (|s| == 1 || s[0] != '0')
    ensures Decimal(DecimalValue(s)) == s
  {
    var init, d := s[..|s| - 1], DigitValue(s[|s| - 1]);
    var n := DecimalValue(s);
    if |s| == 1 {
      assert init == [];
      assert [s[0]] == s;
    } else {
      assert init[0] == s[0];
      LeadingDigitPositive(init);
      DecimalOfValue(init);
      assert n / 10 == DecimalValue(init) && n % 10 == d;
      assert s == init + [s[|s| - 1]];
    }
  }

  /** Distinct numbers have distinct decimal notations. */
  lemma DecimalInjective(m: nat, n: nat)
    requires Decimal(m) == Decimal(n)
    ensures m == n
  {
    DecimalRoundTrip(m);
    DecimalRoundTrip(n);
  }

  // ---------------------------------------------------------------------------
  // The suffix rule

  /**
    The suffix `int2ordinal` appends: "th" when the tens digit is 1, otherwise
    chosen by the last digit ("st", "nd", "rd" for 1, 2, 3 and "th" otherwise).
   */
  function Suffix(n: nat): (s: string)
    ensures IsSuffix(s)
  {
    var q, mod := n / 10, n % 10;
    if q % 10 == 1 then "th"
    else if mod == 1 then "st"
    else if mod == 2 then "nd"
    else if mod == 3 then "rd"
    else "th"
  }

  predicate IsSuffix(s: string) {
    s == "st" || s == "nd" || s == "rd" || s == "th"
  }

  /** The tens digit of `n` in terms of its last two digits. */
  lemma LastTwoDigits(n: nat)
    ensures (n / 10) % 10 == (n % 100) / 10
    ensures n % 10 == (n % 100) % 10
  {
    var h, r := n / 100, n % 100;
    assert n == 100 * h + r;
    assert n == 10 * (10 * h + r / 10) + r % 10;
  }

  /** The suffix depends only on the last two digits: `num % 100`. */
  lemma SuffixByLastTwoDigits(n: nat)
    ensures Suffix(n) == Suffix(n % 100)
  {
    LastTwoDigits(n);
  }

  /** The suffix written as a table over the last two digits, the teens first. */
  lemma SuffixRule(n: nat)
    ensures IsSuffix(Suffix(n))
    ensures 10 <= n % 100 <= 19 ==> Suffix(n) == "th"
    ensures !(10 <= n % 100 <= 19) ==>
      Suffix(n) == (if n % 10 == 1 then "st" else if n % 10 == 2 then "nd"
                    else if n % 10 == 3 then "rd" else "th")
  {
    LastTwoDigits(n);
  }

  // ---------------------------------------------------------------------------
  // int2ordinal

  /**
    `int2ordinal(num)`: TypeError for a non-integer, ValueError for a negative
    integer, otherwise the decimal notation followed by a two-letter suffix.
   */
  function Int2Ordinal(num: Value): (r: Result<string>)
    ensures r.Err? <==> !num.Int? || num.i < 0
    ensures !num.Int? ==> r == Err(TypeError)
    ensures num.Int? && num.i < 0 ==> r == Err(ValueError)
    ensures r.Ok? ==> |r.value| >= 3 && IsDigits(r.value[..|r.value| - 2])
                      && IsSuffix(r.value[|r.value| - 2..])
  {
    if !num.Int? then Err(TypeError)
    else if num.i < 0 then Err(ValueError)
    else
      var n: nat := num.i;
      SuffixRule(n);
      assert (Decimal(n) + Suffix(n))[..|Decimal(n)|] == Decimal(n);
      assert (Decimal(n) + Suffix(n))[|Decimal(n)|..] == Suffix(n);
      Ok(Decimal(n) + Suffix(n))
  }

  /**
    The inverse of `Int2Ordinal`: the number an ordinal label names, provided
    the label is exactly what `Int2Ordinal` prints for that number.
   */
  function ParseOrdinal(s: string): (r: Option<nat>)
    ensures r.Some? ==> Int2Ordinal(Int(r.value)) == Ok(s)
  {
    if |s| >= 3 && IsDigits(s[..|s| - 2]) && (|s| == 3 || s[0] != '0') then
      var n := DecimalValue(s[..|s| - 2]);
      DecimalOfValue(s[..|s| - 2]);
      assert s == s[..|s| - 2] + s[|s| - 2..];
      if s[|s| - 2..] == Suffix(n) then Some(n) else None
    else None
  }

  /** Every label `Int2Ordinal` prints names the number it was given. */
  lemma {:induction false} OrdinalRoundTrip(n: nat)
    ensures Int2Ordinal(Int(n)).Ok?
    ensures ParseOrdinal(Int2Ordinal(Int(n)).value) == Some(n)
  {
    var d := Decimal(n);
    var s := Int2Ordinal(Int(n)).value;
    assert s == d + Suffix(n);
    assert s[..|s| - 2] == d;
    assert s[|s| - 2..] == Suffix(n);
    DecimalRoundTrip(n);
  }

  /** Different numbers get different labels. */
  lemma OrdinalInjective(m: nat, n: nat)
    requires Int2Ordinal(Int(m)) == Int2Ordinal(Int(n))
    ensures m == n
  {
    OrdinalRoundTrip(m);
    OrdinalRoundTrip(n);
  }

  /** The labels the script's demonstration prints for 0 to 4. */
  lemma DemoSmallLabels()
    ensures Int2Ordinal(Int(0)) == Ok("0th")
    ensures Int2Ordinal(Int(1)) == Ok("1st")
    ensures Int2Ordinal(Int(2)) == Ok("2nd")
    ensures Int2Ordinal(Int(3)) == Ok("3rd")
    ensures Int2Ordinal(Int(4)) == Ok("4th")
  {
    assert Decimal(0) + Suffix(0) == "0th";
    assert Decimal(1) + Suffix(1) == "1st";
    assert Decimal(2) + Suffix(2) == "2nd";
    assert Decimal(3) + Suffix(3) == "3rd";
    assert Decimal(4) + Suffix(4) == "4th";
  }

  /** The labels the script's demonstration prints for 11 and 111: the teens take "th". */
  lemma DemoTeenLabels()
    ensures Int2Ordinal(Int(11)) == Ok("11th")
    ensures Int2Ordinal(Int(111)) == Ok("111th")
  {
    assert Decimal(11) + Suffix(11) == "11th";
    assert Decimal(111) + Suffix(111) == "111th";
  }

  /** The labels the script's demonstration prints for 21 and 121. */
  lemma DemoTwentyFirstLabels()
    ensures Int2Ordinal(Int(21)) == Ok("21st")
    ensures Int2Ordinal(Int(121)) == Ok("121st")
  {
    assert Decimal(21) + Suffix(21) == "21st";
    assert Decimal(121) + Suffix(121) == "121st";
  }
}
