/**
 Euro amounts as text and as integer cents. JavaScript numbers are doubles; they enter through
 a rounding function of which only two things are known: it keeps every integer up to 2^53 and
 it is monotone.
 */
module Money {
  import opened Wrappers
  import opened Text

  const MAX_SAFE: nat := 9007199254740991

  /** What is used of rounding a non-negative integer to a double (an infinite result counts as any value past 2^53). */
  ghost predicate IsRounding(round: nat -> nat) {
    && (forall n :: 0 <= n <= MAX_SAFE + 1 ==> round(n) == n)
    && (forall m: nat, n: nat :: m <= n ==> round(m) <= round(n))
  }

  datatype AmountError = Required | InvalidFormat | OutOfRange

  /** The parts that `/^(\d+)(?:\.(\d{1,2}))?$/` captures. */
  datatype Parts = Parts(whole: string, frac: string)

  /** How many leading digits `s` has. */
  function DigitRun(s: string): (n: nat)
    ensures n <= |s| && AllDigits(s[..n])
    ensures n < |s| ==> !IsDigit(s[n])
  {
    if s == "" || !IsDigit(s[0]) then 0
    else
      var n := DigitRun(s[1..]);
      assert s[..n + 1] == [s[0]] + s[1..][..n];
      n + 1
  }

  function Match(s: string): (m: Option<Parts>)
    ensures m.Some? ==> AllDigits(m.value.whole) && AllDigits(m.value.frac)
    ensures m.Some? ==> m.value.whole != "" && |m.value.frac| <= 2
  {
    var n := DigitRun(s);
    if n == 0 then None
    else if n == |s| then Some(Parts(s[..n], ""))
    else
      var frac := s[n + 1..];
      if s[n] == '.' && 1 <= |frac| <= 2 && AllDigits(frac) then Some(Parts(s[..n], frac)) else None
  }

  /** `(frac + '00').slice(0, 2)` */
  function Padded(frac: string): (r: string)
    requires |frac| <= 2 && AllDigits(frac)
    ensures |r| == 2 && AllDigits(r) && Value(r) < 100
    ensures Value(r) == if |frac| == 0 then 0 else if |frac| == 1 then 10 * Value(frac) else Value(frac)
  {
    var r := if |frac| == 0 then "00" else if |frac| == 1 then frac + "0" else frac;
    ValueTwo(r);
    if |frac| == 1 then
      ValueOne(frac);
      r
    else
      r
  }

  /** `Number(whole) * 100 + Number(frac)` in doubles. */
  function DoubleCents(round: nat -> nat, whole: nat, frac: nat): nat {
    round(round(round(whole) * 100) + frac)
  }

  /** `euroToCents(input)`; a null or undefined input is `None`. */
  function EuroToCents(round: nat -> nat, input: Option<string>): Result<nat, AmountError> {
    var raw := Trim(if input.Some? then input.value else "");
    if raw == "" then Err(Required)
    else
      match Match(ReplaceFirst(raw, ',', '.'))
      case None => Err(InvalidFormat)
      case Some(p) =>
        var cents := DoubleCents(round, Value(p.whole), Value(Padded(p.frac)));
        if cents > MAX_SAFE then Err(OutOfRange) else Ok(cents)
  }

  /** `centsToEuroString(cents)` for a non-negative integer, with the double that `cents / 100` yields. */
  function CentsToEuroString(cents: nat, quotient: real): string
    requires quotient >= 0.0
  {
    Decimal(quotient.Floor) + "." + Pad2(cents % 100)
  }

  /** A double division of safe cents: exact for whole euros, else within half a unit in the last place, 2^-7. */
  predicate IsDoubleQuotient(cents: nat, quotient: real) {
    && (cents % 100 == 0 ==> quotient == (cents / 100) as real)
    && cents as real / 100.0 - 0.0079 <= quotient <= cents as real / 100.0 + 0.0079
  }

  /** `String(n).padStart(2, '0')` */
  function Pad2(n: nat): (s: string)
    requires n < 100
    ensures |s| == 2 && AllDigits(s) && Value(s) == n
  {
    if n < 10 then
      ValueTwo(['0', DigitChar(n)]);
      ['0', DigitChar(n)]
    else
      ValueTwo([DigitChar(n / 10), DigitChar(n % 10)]);
      [DigitChar(n / 10), DigitChar(n % 10)]
  }

  // ----- What the parser accepts -----

  /** `s` writes an amount: digits, then optionally a dot or comma and one or two digits. */
  ghost predicate Writes(s: string, whole: string, frac: string) {
    && whole != "" && AllDigits(whole) && |frac| <= 2 && AllDigits(frac)
    && ((s == whole && frac == "") || (frac != "" && (s == whole + "." + frac || s == whole + "," + frac)))
  }

  lemma {:induction false} DigitRunOf(whole: string, rest: string)
    requires AllDigits(whole) && (rest == "" || !IsDigit(rest[0]))
    ensures DigitRun(whole + rest) == |whole|
  {
    if whole == "" {
      assert whole + rest == rest;
    } else {
      DigitRunOf(whole[1..], rest);
      assert (whole + rest)[1..] == whole[1..] + rest;
    }
  }

  lemma MatchDotted(whole: string, frac: string)
    requires whole != "" && AllDigits(whole) && 1 <= |frac| <= 2 && AllDigits(frac)
    ensures Match(whole + "." + frac) == Some(Parts(whole, frac))
  {
    var s := whole + "." + frac;
    assert s == whole + ("." + frac);
    DigitRunOf(whole, "." + frac);
    assert s[..|whole|] == whole && s[|whole| + 1..] == frac;
  }

  lemma MatchWhole(whole: string)
    requires whole != "" && AllDigits(whole)
    ensures Match(whole) == Some(Parts(whole, ""))
  {
    DigitRunOf(whole, "");
    assert whole + "" == whole;
  }

  lemma NoMarks(s: string)
    requires AllDigits(s)
    ensures ',' !in s && '.' !in s
  {
  }

  /** The match of the normalised text and the written form of the raw text determine each other. */
  lemma WrittenMatches(s: string, whole: string, frac: string)
    requires Writes(s, whole, frac)
    ensures Match(ReplaceFirst(s, ',', '.')) == Some(Parts(whole, frac))
  {
    NoMarks(whole);
    NoMarks(frac);
    if frac == "" {
      ReplaceFirstAbsent(s, ',', '.');
      MatchWhole(whole);
    } else {
      MatchDotted(whole, frac);
      if s == whole + "," + frac {
        ReplaceFirstAt(whole, ',', '.', frac);
      } else {
        ReplaceFirstAbsent(s, ',', '.');
      }
    }
  }

  /** Where only commas became dots, digits are where they were. */
  lemma DigitsUnmoved(s: string, t: string, i: nat, j: nat)
    requires |s| == |t| && i <= j <= |s|
    requires forall k :: 0 <= k < |s| ==> t[k] == s[k] || (s[k] == ',' && t[k] == '.')
    requires forall k :: i <= k < j ==> IsDigit(t[k])
    ensures s[i..j] == t[i..j]
  {
  }

  lemma MatchedParts(t: string)
    requires Match(t).Some?
    ensures var p := Match(t).value;
            var n := |p.whole|;
            && n <= |t| && t[0..n] == p.whole && (forall k :: 0 <= k < n ==> IsDigit(t[k]))
            && (n == |t| ==> p.frac == "")
            && (n < |t| ==> t[n] == '.' && p.frac != "" && t[n + 1..|t|] == p.frac
                            && forall k :: n + 1 <= k < |t| ==> IsDigit(t[k]))
  {
    var p := Match(t).value;
    var n := DigitRun(t);
    assert t[0..n] == t[..n] == p.whole;
    assert forall k :: 0 <= k < n ==> t[k] == p.whole[k];
    if n < |t| {
      assert t[n + 1..|t|] == t[n + 1..] == p.frac;
      assert forall k :: n + 1 <= k < |t| ==> t[k] == p.frac[k - n - 1];
    }
  }

  /** The parts of the match stand in the raw text where they stand in the normalised one. */
  lemma MatchedSlices(s: string)
    requires Match(ReplaceFirst(s, ',', '.')).Some?
    ensures var p := Match(ReplaceFirst(s, ',', '.')).value;
            var n := |p.whole|;
            && n <= |s| && s[0..n] == p.whole
            && (n == |s| ==> p.frac == "")
            && (n < |s| ==> (s[n] == '.' || s[n] == ',') && p.frac != "" && s[n + 1..|s|] == p.frac)
  {
    var t := ReplaceFirst(s, ',', '.');
    ReplaceFirstPointwise(s, ',', '.');
    MatchedParts(t);
    var n := |Match(t).value.whole|;
    DigitsUnmoved(s, t, 0, n);
    if n < |s| {
      DigitsUnmoved(s, t, n + 1, |s|);
    }
  }

  lemma Mended(s: string, n: nat)
    requires n < |s|
    ensures s == s[0..n] + [s[n]] + s[n + 1..|s|]
  {
  }

  lemma MatchedIsWritten(s: string)
    requires Match(ReplaceFirst(s, ',', '.')).Some?
    ensures var p := Match(ReplaceFirst(s, ',', '.')).value; Writes(s, p.whole, p.frac)
  {
    MatchedSlices(s);
    var n := |Match(ReplaceFirst(s, ',', '.')).value.whole|;
    if n < |s| {
      Mended(s, n);
      assert [s[n]] == "." || [s[n]] == ",";
    } else {
      assert s == s[0..n];
    }
  }

  /** The cents of a written amount. */
  function CentsOf(whole: string, frac: string): nat
    requires AllDigits(whole) && AllDigits(frac) && |frac| <= 2
  {
    Value(whole) * 100 + Value(Padded(frac))
  }

  /** Doubles compute the cents exactly as long as they are safe, and never come back into the safe range. */
  lemma DoublesSuffice(round: nat -> nat, whole: nat, frac: nat)
    requires IsRounding(round) && frac < 100
    ensures var cents := DoubleCents(round, whole, frac);
            if whole * 100 + frac <= MAX_SAFE then cents == whole * 100 + frac else cents > MAX_SAFE
  {
    if whole * 100 + frac > MAX_SAFE {
      if whole >= 90071992547410 {
        assert round(90071992547410) <= round(whole);
        assert round(MAX_SAFE + 1) <= round(round(whole) * 100);
        assert round(MAX_SAFE + 1) <= round(round(round(whole) * 100) + frac);
      } else {
        assert round(MAX_SAFE + 1) <= round(whole * 100 + frac);
      }
    }
  }

  /**
   `euroToCents` accepts exactly the strings that, trimmed, write an amount whose exact value in
   cents is at most 2^53 - 1, and returns that value.
   */
  lemma AcceptsExactly(round: nat -> nat, input: string, cents: nat)
    requires IsRounding(round)
    ensures EuroToCents(round, Some(input)) == Ok(cents) <==>
            exists whole, frac :: Writes(Trim(input), whole, frac) && CentsOf(whole, frac) == cents <= 9007199254740991
  {
    if EuroToCents(round, Some(input)) == Ok(cents) {
      AcceptedIsWritten(round, input);
    }
    if whole, frac :| Writes(Trim(input), whole, frac) && CentsOf(whole, frac) == cents <= MAX_SAFE {
      WrittenIsAccepted(round, input, whole, frac);
    }
  }

  lemma AcceptedIsWritten(round: nat -> nat, input: string)
    requires IsRounding(round) && EuroToCents(round, Some(input)).Ok?
    ensures exists whole, frac :: Writes(Trim(input), whole, frac)
              && CentsOf(whole, frac) == EuroToCents(round, Some(input)).value <= MAX_SAFE
  {
    var raw := Trim(input);
    MatchedIsWritten(raw);
    var p := Match(ReplaceFirst(raw, ',', '.')).value;
    DoublesSuffice(round, Value(p.whole), Value(Padded(p.frac)));
    assert Writes(raw, p.whole, p.frac);
  }

  /** What becomes of a text whose match is known. */
  lemma ConvertsMatch(round: nat -> nat, input: string, p: Parts)
    requires Trim(input) != "" && Match(ReplaceFirst(Trim(input), ',', '.')) == Some(p)
    ensures AllDigits(p.whole) && AllDigits(p.frac) && |p.frac| <= 2
    ensures var cents := DoubleCents(round, Value(p.whole), Value(Padded(p.frac)));
            EuroToCents(round, Some(input)) == if cents > MAX_SAFE then Err(OutOfRange) else Ok(cents)
  {
  }

  lemma WrittenIsAccepted(round: nat -> nat, input: string, whole: string, frac: string)
    requires IsRounding(round) && Writes(Trim(input), whole, frac) && CentsOf(whole, frac) <= MAX_SAFE
    ensures EuroToCents(round, Some(input)) == Ok(CentsOf(whole, frac))
  {
    WrittenMatches(Trim(input), whole, frac);
    ConvertsExactly(round, input, Parts(whole, frac));
  }

  lemma ConvertsExactly(round: nat -> nat, input: string, p: Parts)
    requires IsRounding(round) && Trim(input) != "" && Match(ReplaceFirst(Trim(input), ',', '.')) == Some(p)
    requires AllDigits(p.whole) && AllDigits(p.frac) && |p.frac| <= 2 && CentsOf(p.whole, p.frac) <= MAX_SAFE
    ensures EuroToCents(round, Some(input)) == Ok(CentsOf(p.whole, p.frac))
  {
    ConvertsMatch(round, input, p);
    DoublesSuffice(round, Value(p.whole), Value(Padded(p.frac)));
  }

  /** A written amount that is too large is rejected as out of range, whatever the doubles make of it. */
  lemma TooLargeIsOutOfRange(round: nat -> nat, input: string, whole: string, frac: string)
    requires IsRounding(round) && Writes(Trim(input), whole, frac) && CentsOf(whole, frac) > 9007199254740991
    ensures EuroToCents(round, Some(input)) == Err(OutOfRange)
  {
    WrittenMatches(Trim(input), whole, frac);
    ConvertsMatch(round, input, Parts(whole, frac));
    DoublesSuffice(round, Value(whole), Value(Padded(frac)));
  }

  /** The two other errors: nothing but white space is missing, any other text that writes no amount malformed. */
  lemma RejectsExactly(round: nat -> nat, input: string)
    ensures EuroToCents(round, Some(input)) == Err(Required) <==> Trim(input) == ""
    ensures EuroToCents(round, Some(input)) == Err(InvalidFormat) <==>
            Trim(input) != "" && !exists whole, frac :: Writes(Trim(input), whole, frac)
    ensures EuroToCents(round, None) == Err(Required)
  {
    var raw := Trim(input);
    if Match(ReplaceFirst(raw, ',', '.')).Some? {
      MatchedIsWritten(raw);
    }
    if whole, frac :| Writes(raw, whole, frac) {
      WrittenMatches(raw, whole, frac);
    }
  }

  /** The quotient that a double division yields is close enough for `Math.floor` to be exact. */
  lemma FloorOfDoubleQuotient(cents: nat, quotient: real)
    requires cents <= MAX_SAFE && IsDoubleQuotient(cents, quotient)
    ensures quotient >= 0.0 && quotient.Floor == cents / 100
  {
    var w, f := cents / 100, cents % 100;
    assert cents as real == 100.0 * w as real + f as real;
    assert cents as real / 100.0 == w as real + f as real / 100.0;
    assert f > 0 ==> 0.01 <= f as real / 100.0 <= 0.99;
    assert w as real <= quotient < w as real + 1.0;
  }

  lemma WrittenExactly(cents: nat)
    ensures var s := Decimal(cents / 100) + "." + Pad2(cents % 100);
            Trim(s) == s && Writes(s, Decimal(cents / 100), Pad2(cents % 100))
  {
    var whole, frac := Decimal(cents / 100), Pad2(cents % 100);
    var s := whole + "." + frac;
    assert s[0] == whole[0] && s[|s| - 1] == frac[1];
    TrimKeeps(s);
  }

  lemma ParsesExactly(round: nat -> nat, cents: nat, s: string)
    requires IsRounding(round) && cents <= MAX_SAFE && s == Decimal(cents / 100) + "." + Pad2(cents % 100)
    ensures EuroToCents(round, Some(s)) == Ok(cents)
  {
    WrittenExactly(cents);
    CentsOfPrinted(cents, Decimal(cents / 100), Pad2(cents % 100));
    WrittenIsAccepted(round, s, Decimal(cents / 100), Pad2(cents % 100));
  }

  lemma CentsOfPrinted(cents: nat, whole: string, frac: string)
    requires AllDigits(whole) && AllDigits(frac) && |frac| == 2
    requires Value(whole) == cents / 100 && Value(frac) == cents % 100
    ensures CentsOf(whole, frac) == cents
  {
  }

  /** What is printed: the euros without leading zeros, a dot and two digits. */
  lemma PrintedForm(cents: nat, quotient: real) returns (whole: string, frac: string)
    requires cents <= MAX_SAFE && IsDoubleQuotient(cents, quotient)
    ensures quotient >= 0.0 && CentsToEuroString(cents, quotient) == whole + "." + frac
    ensures whole != "" && AllDigits(whole) && (cents >= 100 ==> whole[0] != '0') && (cents < 100 ==> |whole| == 1)
    ensures |frac| == 2 && AllDigits(frac) && Value(whole) * 100 + Value(frac) == cents
  {
    FloorOfDoubleQuotient(cents, quotient);
    whole, frac := Decimal(cents / 100), Pad2(cents % 100);
  }

  /** Printing safe cents, whatever double the division yields, and parsing the text gives the cents back. */
  lemma PrintParse(round: nat -> nat, cents: nat, quotient: real)
    requires IsRounding(round) && cents <= 9007199254740991 && IsDoubleQuotient(cents, quotient)
    ensures quotient >= 0.0 && EuroToCents(round, Some(CentsToEuroString(cents, quotient))) == Ok(cents)
  {
    FloorOfDoubleQuotient(cents, quotient);
    ParsesExactly(round, cents, CentsToEuroString(cents, quotient));
  }
}
