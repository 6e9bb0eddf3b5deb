/**
 Amounts read off a PDF invoice. `findTotal` hands `normaliseAmount` a digit followed by digits,
 dots and commas; `parseFloat` is taken to read decimals exactly.
 */
module InvoiceAmount {
  import opened Numbers
  import opened Seqs
  import opened Text
  import opened Money

  /** What `([\d][\d.,]*)` captures. */
  predicate AmountText(s: string) {
    s != "" && IsDigit(s[0]) && forall i :: 0 <= i < |s| ==> IsDigit(s[i]) || s[i] == '.' || s[i] == ','
  }

  /** `s.replace(/c/g, '')` */
  function Without(s: string, c: char): (r: string)
    ensures |r| <= |s|
  {
    if s == "" then "" else (if s[0] == c then "" else [s[0]]) + Without(s[1..], c)
  }

  /** `s.lastIndexOf(c)`, or -1. */
  function LastIndexOf(s: string, c: char): (i: int)
    ensures -1 <= i < |s|
    ensures i >= 0 ==> s[i] == c
    ensures forall j :: i < j < |s| ==> s[j] != c
  {
    if s == "" then -1 else if s[|s| - 1] == c then |s| - 1 else LastIndexOf(s[..|s| - 1], c)
  }

  /** The string that is handed to `parseFloat`. */
  function Normalised(s: string): string {
    if '.' in s && ',' in s then
      if LastIndexOf(s, ',') > LastIndexOf(s, '.') then ReplaceFirst(Without(s, '.'), ',', '.') else Without(s, ',')
    else if ',' in s then ReplaceFirst(s, ',', '.')
    else if '.' in s then
      // `/\.(\d+)$/` captures two digits: the last dot is third from the end
      if LastIndexOf(s, '.') == |s| - 3 then s else Without(s, '.')
    else s
  }

  /** A decimal number, `digits / 10^scale`. */
  datatype Number = Number(digits: nat, scale: nat)

  /** `parseFloat` of a text that starts with a digit: the longest prefix `\d+(\.\d*)?`. */
  function ParseFloat(s: string): Number
    requires s != "" && IsDigit(s[0])
  {
    var n := DigitRun(s);
    if n < |s| && s[n] == '.' then
      var m := DigitRun(s[n + 1..]);
      AllDigitsConcat(s[..n], s[n + 1..][..m]);
      Number(Value(s[..n] + s[n + 1..][..m]), m)
    else Number(Value(s[..n]), 0)
  }

  lemma AllDigitsConcat(a: string, b: string)
    requires AllDigits(a) && AllDigits(b)
    ensures AllDigits(a + b)
  {
  }

  /** `Math.round(x * 100)` */
  function RoundCents(x: Number): nat {
    Quotient(200 * x.digits + Pow10(x.scale), 2 * Pow10(x.scale))
  }

  function Quotient(a: nat, b: nat): (q: nat)
    requires b > 0
    ensures q * b <= a < q * b + b
  {
    a / b
  }

  lemma QuotientIs(a: nat, b: nat, q: nat)
    requires b > 0 && q * b <= a < q * b + b
    ensures Quotient(a, b) == q
  {
    var p := Quotient(a, b);
    if p < q {
      TimesMonotone(p + 1, q, b);
    } else if q < p {
      TimesMonotone(q + 1, p, b);
    }
  }

  /** To the nearest cent, halves upwards. */
  lemma RoundsHalfUp(x: Number)
    ensures var p, q := Pow10(x.scale), RoundCents(x);
            2 * (100 * x.digits) - p < 2 * (q * p) <= 2 * (100 * x.digits) + p
  {
    var p, q := Pow10(x.scale), RoundCents(x);
    Doubles(q, p);
  }

  lemma Doubles(q: nat, p: nat)
    ensures q * (2 * p) == 2 * (q * p)
  {
  }

  lemma NormalisedStartsWithDigit(s: string)
    requires AmountText(s)
    ensures Normalised(s) != "" && IsDigit(Normalised(s)[0])
  {
    assert Without(s, '.')[0] == s[0] && Without(s, ',')[0] == s[0];
  }

  /** `normaliseAmount(raw)`; never null on a captured text. */
  function NormaliseAmount(s: string): nat
    requires AmountText(s)
  {
    NormalisedStartsWithDigit(s);
    RoundCents(ParseFloat(Normalised(s)))
  }

  // ----- Printed amounts -----

  /** Three digits, zero padded. */
  function Pad3(n: nat): (s: string)
    requires n < 1000
    ensures |s| == 3 && AllDigits(s) && Value(s) == n
  {
    var s := [DigitChar(n / 100), DigitChar(n / 10 % 10), DigitChar(n % 10)];
    ValueTwo(s[..2]);
    s
  }

  /** A whole number in groups of three digits. */
  function Grouped(n: nat, separator: char): (s: string)
    ensures s != "" && IsDigit(s[0])
    ensures n < 1000 ==> s == Decimal(n)
    decreases n
  {
    if n < 1000 then Decimal(n) else Grouped(n / 1000, separator) + [separator] + Pad3(n % 1000)
  }

  /** A grouped number is made of digits and, from 1000 on, separators. */
  lemma {:induction false} GroupedShape(n: nat, c: char)
    requires c == '.' || c == ','
    ensures forall x :: x in Grouped(n, c) ==> IsDigit(x) || x == c
    ensures c in Grouped(n, c) <==> n >= 1000
    decreases n
  {
    if n >= 1000 {
      GroupedShape(n / 1000, c);
      assert (Grouped(n / 1000, c) + [c] + Pad3(n % 1000))[|Grouped(n / 1000, c)|] == c;
    }
  }

  /** Without its separators a grouped number is a numeral for the same number. */
  lemma {:induction false} GroupedBare(n: nat, c: char)
    requires c == '.' || c == ','
    ensures var bare := Without(Grouped(n, c), c); bare != "" && AllDigits(bare) && Value(bare) == n
    decreases n
  {
    if n < 1000 {
      WithoutAbsent(Grouped(n, c), c);
    } else {
      GroupedBare(n / 1000, c);
      WithoutGroup(Grouped(n / 1000, c), c, Pad3(n % 1000));
      GroupJoins(Without(Grouped(n / 1000, c), c), Pad3(n % 1000), n);
    }
  }

  lemma WithoutGroup(head: string, c: char, tail: string)
    requires c !in tail
    ensures Without(head + [c] + tail, c) == Without(head, c) + tail
  {
    ConcatAssociative(head, [c], tail);
    WithoutConcat(head, [c] + tail, c);
    WithoutFirst(c, tail);
    WithoutAbsent(tail, c);
  }

  lemma WithoutFirst(c: char, tail: string)
    ensures Without([c] + tail, c) == Without(tail, c)
  {
    assert ([c] + tail)[1..] == tail;
    assert "" + Without(tail, c) == Without(tail, c);
  }

  lemma GroupJoins(head: string, tail: string, n: nat)
    requires AllDigits(head) && AllDigits(tail) && |tail| == 3
    requires Value(head) == n / 1000 && Value(tail) == n % 1000
    ensures AllDigits(head + tail) && Value(head + tail) == n
  {
    ValueConcat(head, tail);
    assert Pow10(1) == 10 && Pow10(2) == 100 && Pow10(3) == 1000;
  }

  lemma {:induction false} WithoutAbsent(s: string, c: char)
    requires c !in s
    ensures Without(s, c) == s
  {
    if s != "" {
      WithoutAbsent(s[1..], c);
    }
  }

  lemma {:induction false} WithoutConcat(a: string, b: string, c: char)
    ensures Without(a + b, c) == Without(a, c) + Without(b, c)
  {
    if a == "" {
      assert a + b == b;
    } else {
      WithoutConcat(a[1..], b, c);
      assert (a + b)[1..] == a[1..] + b;
      ConcatAssociative(if a[0] == c then "" else [a[0]], Without(a[1..], c), Without(b, c));
    }
  }

  lemma {:induction false} LastIndexIn(a: string, c: char, b: string)
    requires c !in b
    ensures LastIndexOf(a + [c] + b, c) == |a|
    decreases |b|
  {
    var s := a + [c] + b;
    if b != "" {
      var n := |b| - 1;
      assert s[..|s| - 1] == a + [c] + b[..n];
      assert s[|s| - 1] == b[n];
      LastIndexIn(a, c, b[..n]);
    }
  }

  /** `parseFloat` of digits, a dot and digits. */
  lemma ParsesDotted(whole: string, frac: string)
    requires whole != "" && AllDigits(whole) && AllDigits(frac)
    ensures AllDigits(whole + frac)
    ensures ParseFloat(whole + "." + frac) == Number(Value(whole + frac), |frac|)
  {
    var s := whole + "." + frac;
    assert s == whole + ("." + frac);
    DigitRunOf(whole, "." + frac);
    DigitRunOf(frac, "");
    assert frac + "" == frac;
    ParsesAt(s, whole, frac);
  }

  lemma ParsesAt(s: string, whole: string, frac: string)
    requires whole != "" && AllDigits(whole) && AllDigits(frac) && s == whole + "." + frac
    requires DigitRun(s) == |whole| && DigitRun(frac) == |frac|
    ensures AllDigits(whole + frac) && ParseFloat(s) == Number(Value(whole + frac), |frac|)
  {
    assert s[..|whole|] == whole && s[|whole| + 1..] == frac && frac[..|frac|] == frac;
  }

  /** A dotted number with two decimals is read as its cents. */
  lemma ReadsTwoDecimals(whole: string, frac: string)
    requires whole != "" && AllDigits(whole) && |frac| == 2 && AllDigits(frac)
    ensures RoundCents(ParseFloat(whole + "." + frac)) == Value(whole) * 100 + Value(frac)
  {
    ParsesDotted(whole, frac);
    ValueConcat(whole, frac);
    assert Pow10(1) == 10 && Pow10(2) == 100;
    var cents := Value(whole) * 100 + Value(frac);
    QuotientIs(200 * cents + 100, 200, cents);
  }

  lemma ParsesWhole(whole: string)
    requires whole != "" && AllDigits(whole)
    ensures ParseFloat(whole) == Number(Value(whole), 0)
  {
    DigitRunOf(whole, "");
    assert whole + "" == whole && whole[..|whole|] == whole;
  }

  lemma ReadsWhole(whole: string)
    requires whole != "" && AllDigits(whole)
    ensures RoundCents(ParseFloat(whole)) == Value(whole) * 100
  {
    ParsesWhole(whole);
    QuotientIs(200 * Value(whole) + 1, 2, Value(whole) * 100);
  }

  // ----- The round trips -----

  /** The text of `cents` with a grouped whole part and a two-digit fraction after `mark`. */
  function Printed(cents: nat, separator: char, mark: char): string {
    Grouped(cents / 100, separator) + [mark] + Pad2(cents % 100)
  }

  lemma PrintedIsAmount(cents: nat, separator: char, mark: char)
    requires {separator, mark} == {'.', ','}
    ensures AmountText(Printed(cents, separator, mark))
  {
    var head, frac := Grouped(cents / 100, separator), Pad2(cents % 100);
    GroupedShape(cents / 100, separator);
    var s := Printed(cents, separator, mark);
    forall i | 0 <= i < |s| ensures IsDigit(s[i]) || s[i] == '.' || s[i] == ',' {
      if i < |head| {
        assert s[i] == head[i] && head[i] in head;
      } else if i > |head| {
        assert s[i] == frac[i - |head| - 1];
      }
    }
  }

  /** Both marks present, the decimal mark last: the separators go and the mark becomes a dot. */
  lemma NormalisedBothMarks(head: string, separator: char, mark: char, frac: string)
    requires {separator, mark} == {'.', ','}
    requires separator in head && mark !in head && separator !in frac && mark !in frac
    requires AllDigits(Without(head, separator))
    ensures Normalised(head + [mark] + frac) == Without(head, separator) + "." + frac
  {
    MarksInOrder(head, separator, mark, frac);
    WithoutSeparators(head, separator, mark, frac);
    var bare := Without(head, separator);
    NoMarks(bare);
    ReplaceFirstAt(bare, ',', '.', frac);
  }

  lemma MarksInOrder(head: string, separator: char, mark: char, frac: string)
    requires separator in head && separator != mark && separator !in frac && mark !in frac
    ensures var s := head + [mark] + frac;
            mark in s && separator in s && LastIndexOf(s, separator) < LastIndexOf(s, mark)
  {
    var s := head + [mark] + frac;
    assert s[|head|] == mark;
    var i :| 0 <= i < |head| && head[i] == separator;
    assert s[i] == separator;
    assert s == head + ([mark] + frac);
    LastIndexIn(head, mark, frac);
    LastBefore(head, separator, [mark] + frac);
  }

  lemma WithoutSeparators(head: string, separator: char, mark: char, frac: string)
    requires separator != mark && separator !in frac
    ensures Without(head + [mark] + frac, separator) == Without(head, separator) + [mark] + frac
  {
    var bare := Without(head, separator);
    WithoutConcat(head, [mark] + frac, separator);
    WithoutAbsent([mark] + frac, separator);
    ConcatAssociative(head, [mark], frac);
    ConcatAssociative(bare, [mark], frac);
  }

  /** Only the decimal mark: a comma becomes a dot, a dot third from the end stays. */
  lemma NormalisedOneMark(head: string, mark: char, frac: string)
    requires mark == '.' || mark == ','
    requires AllDigits(head) && |frac| == 2 && AllDigits(frac)
    ensures Normalised(head + [mark] + frac) == head + "." + frac
  {
    var s := head + [mark] + frac;
    assert s[|head|] == mark;
    NoMarks(head);
    NoMarks(frac);
    LastIndexIn(head, mark, frac);
    ReplaceFirstAt(head, ',', '.', frac);
  }

  /** The text handed to `parseFloat` for a printed amount: the bare whole digits, a dot, two digits. */
  lemma NormalisedPrinted(cents: nat, separator: char, mark: char)
    requires {separator, mark} == {'.', ','}
    ensures Normalised(Printed(cents, separator, mark)) ==
            Without(Grouped(cents / 100, separator), separator) + "." + Pad2(cents % 100)
  {
    var head, frac := Grouped(cents / 100, separator), Pad2(cents % 100);
    GroupedShape(cents / 100, separator);
    GroupedBare(cents / 100, separator);
    NoMarks(frac);
    if cents / 100 >= 1000 {
      NormalisedBothMarks(head, separator, mark, frac);
    } else {
      WithoutAbsent(head, separator);
      NormalisedOneMark(head, mark, frac);
    }
  }

  lemma {:induction false} LastBefore(a: string, c: char, b: string)
    requires c !in b
    ensures LastIndexOf(a + b, c) < |a|
    decreases |b|
  {
    var s := a + b;
    if b == "" {
      assert s == a;
    } else {
      assert s[..|s| - 1] == a + b[..|b| - 1];
      assert s[|s| - 1] == b[|b| - 1];
      LastBefore(a, c, b[..|b| - 1]);
    }
  }

  /** Every amount printed with two decimals, 1.234.567,89 or 1,234,567.89, is read back exactly. */
  lemma PrintedReadsBack(cents: nat, separator: char, mark: char)
    requires {separator, mark} == {'.', ','}
    ensures AmountText(Printed(cents, separator, mark))
    ensures NormaliseAmount(Printed(cents, separator, mark)) == cents
  {
    PrintedIsAmount(cents, separator, mark);
    NormalisedPrinted(cents, separator, mark);
    GroupedBare(cents / 100, separator);
    ReadsTwoDecimals(Without(Grouped(cents / 100, separator), separator), Pad2(cents % 100));
  }

  /** A whole amount grouped with dots is read as euros, whatever its size. */
  lemma DotGroupedWholeReadsBack(euros: nat)
    ensures AmountText(Grouped(euros, '.')) && NormaliseAmount(Grouped(euros, '.')) == 100 * euros
  {
    var s := Grouped(euros, '.');
    GroupedShape(euros, '.');
    GroupedBare(euros, '.');
    assert forall i :: 0 <= i < |s| ==> s[i] in s;
    ReadsWhole(Without(s, '.'));
    if euros >= 1000 {
      var tail := Pad3(euros % 1000);
      NoMarks(tail);
      LastIndexIn(Grouped(euros / 1000, '.'), '.', tail);
    } else {
      WithoutAbsent(s, '.');
    }
  }

  /** An amount without separators reads back, with a dot or a comma before its two decimals or without decimals. */
  lemma UngroupedReadsBack(euros: nat, cents: nat, mark: char)
    requires cents < 100 && (mark == '.' || mark == ',')
    ensures var s := Decimal(euros) + [mark] + Pad2(cents);
            AmountText(s) && NormaliseAmount(s) == 100 * euros + cents
    ensures AmountText(Decimal(euros)) && NormaliseAmount(Decimal(euros)) == 100 * euros
  {
    TwoDecimalsReadBack(Decimal(euros), Pad2(cents), mark);
    WholeReadsBack(Decimal(euros));
  }

  lemma TwoDecimalsReadBack(whole: string, frac: string, mark: char)
    requires whole != "" && AllDigits(whole) && |frac| == 2 && AllDigits(frac) && (mark == '.' || mark == ',')
    ensures AmountText(whole + [mark] + frac)
    ensures NormaliseAmount(whole + [mark] + frac) == 100 * Value(whole) + Value(frac)
  {
    MarkedIsAmount(whole, frac, mark);
    NormalisedOneMark(whole, mark, frac);
    ReadsTwoDecimals(whole, frac);
  }

  lemma MarkedIsAmount(whole: string, frac: string, mark: char)
    requires whole != "" && AllDigits(whole) && AllDigits(frac) && (mark == '.' || mark == ',')
    ensures AmountText(whole + [mark] + frac)
  {
  }

  lemma WholeReadsBack(whole: string)
    requires whole != "" && AllDigits(whole)
    ensures AmountText(whole) && NormaliseAmount(whole) == 100 * Value(whole)
  {
    NoMarks(whole);
    ReadsWhole(whole);
  }

  /** The first group of a grouped number and what follows its first comma. */
  lemma {:induction false} FirstGroup(n: nat) returns (lead: nat, rest: string)
    requires n >= 1000
    ensures 1 <= lead < 1000 && 1000 * lead <= n
    ensures Grouped(n, ',') == Decimal(lead) + "," + rest
    decreases n
  {
    if n / 1000 < 1000 {
      lead, rest := n / 1000, Pad3(n % 1000);
    } else {
      lead, rest := FirstGroup(n / 1000);
      rest := rest + "," + Pad3(n % 1000);
    }
  }

  lemma Spread(lead: nat, p: nat)
    ensures (100 * lead + 101) * (2 * p) == 200 * (lead * p) + 202 * p
  {
  }

  /** With `p = 10^m`, rounding `lead + v / p` euros to cents stays below the next euro. */
  lemma RoundedBelow(lead: nat, v: nat, p: nat, q: nat)
    requires 0 < p && v < p
    requires q * (2 * p) <= 200 * (lead * p + v) + p
    ensures q <= 100 * lead + 100
  {
    if q > 100 * lead + 100 {
      TimesMonotone(100 * lead + 101, q, 2 * p);
      Spread(lead, p);
    }
  }

  /** Reading the first group as the whole part gives at most one euro more than that group. */
  lemma MisreadBelow(lead: nat, rest: string)
    ensures Decimal(lead) + "." + rest != "" && IsDigit((Decimal(lead) + "." + rest)[0])
    ensures RoundCents(ParseFloat(Decimal(lead) + "." + rest)) <= 100 * lead + 100
  {
    var whole := Decimal(lead);
    var s := whole + "." + rest;
    var m := DigitRun(rest);
    var frac := rest[..m];
    assert s[0] == whole[0];
    assert s == whole + ("." + rest);
    DigitRunOf(whole, "." + rest);
    assert s[..|whole|] == whole && s[|whole| + 1..] == rest;
    ValueConcat(whole, frac);
    ValueBound(frac);
    assert ParseFloat(s) == Number(Value(whole + frac), m);
    RoundedBelow(lead, Value(frac), Pow10(m), RoundCents(ParseFloat(s)));
  }

  /**
   A whole amount grouped with commas is read back exactly when it has no comma: its first comma is
   taken for the decimal mark, so 1,234 becomes 123 cents.
   */
  lemma CommaGroupedWholeReadsBackIff(euros: nat)
    ensures AmountText(Grouped(euros, ','))
    ensures NormaliseAmount(Grouped(euros, ',')) == 100 * euros <==> euros < 1000
  {
    var s := Grouped(euros, ',');
    GroupedShape(euros, ',');
    assert forall i :: 0 <= i < |s| ==> s[i] in s;
    if euros < 1000 {
      WithoutAbsent(s, ',');
      ReadsWhole(s);
    } else {
      var lead, rest := FirstGroup(euros);
      NoMarks(Decimal(lead));
      assert s == Decimal(lead) + "," + rest;
      ReplaceFirstAt(Decimal(lead), ',', '.', rest);
      assert '.' !in s;
      assert Normalised(s) == Decimal(lead) + "." + rest;
      MisreadBelow(lead, rest);
    }
  }
}
