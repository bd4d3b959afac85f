/**
 * `parse_currency_to_milliunits` reads back what `format_balance`
 * writes, both in src/ynab_updater/utils.py: the balance shown in an
 * account row can be typed back in.
 */
module CurrencyRoundTrip {
  import opened Wrappers
  import opened Text
  import opened Config
  import opened CurrencyParse
  import opened CurrencyFormatting

  /**
   * Formats whose text the parser can read: a `.` decimal separator, a
   * group separator that is `,` or holds no currency character, and a
   * symbol that holds no currency character.
   */
  predicate Readable(format: CurrencyFormat)
  {
    && format.decimalSeparator == "."
    && (format.groupSeparator == "," || NoneIn(format.groupSeparator, CURRENCY_CHARS))
    && NoneIn(format.currencySymbol, CURRENCY_CHARS)
  }

  /** The digit groups the parser sees: the chunks when they stay comma-separated, else one run. */
  function ReadGroups(d: string, gs: string): seq<string>
  {
    if gs == "," then Chunks(d) else [d]
  }

  lemma ReadGroupsDigits(d: string, gs: string)
    requires d != [] && AllDigits(d)
    ensures DigitGroups(ReadGroups(d, gs)) && Concat(ReadGroups(d, gs)) == d
  {
    if gs == "," {
      var r := Chunks(d);
      ChunksDigits(d);
      forall i | 0 <= i < |r| ensures r[i] != [] && AllDigits(r[i]) {
        forall j | 0 <= j < |r[i]| ensures IsDigit(r[i][j]) {
          DigitsSet(r[i][j]);
        }
      }
    } else {
      assert [d][..0] == [];
    }
  }

  lemma KeepGroups(d: string, gs: string)
    requires d != [] && AllDigits(d)
    requires gs == "," || NoneIn(gs, CURRENCY_CHARS)
    ensures Keep(Join(Chunks(d), gs), CURRENCY_CHARS) == Join(ReadGroups(d, gs), ",")
  {
    var r := Chunks(d);
    ChunksDigits(d);
    forall i | 0 <= i < |r| ensures AllIn(r[i], CURRENCY_CHARS) {
      assert AllIn(r[i], DIGITS);
    }
    if gs == "," {
      JoinAllIn(r, ",", CURRENCY_CHARS);
      KeepAllIn(Join(r, ","), CURRENCY_CHARS);
    } else {
      KeepJoin(r, gs, CURRENCY_CHARS);
    }
  }

  /** The number part of a readable layout keeps its digits, its points and perhaps its commas. */
  lemma KeepNumber(d: string, gs: string, f: string, dd: nat)
    requires d != [] && AllDigits(d) && AllDigits(f) && |f| == dd
    requires gs == "," || NoneIn(gs, CURRENCY_CHARS)
    ensures Keep(Join(Chunks(d), gs) + (if dd == 0 then "" else "." + f), CURRENCY_CHARS)
            == Join(ReadGroups(d, gs), ",") + (if f == [] then "" else "." + f)
  {
    var tail := if dd == 0 then "" else "." + f;
    KeepGroups(d, gs);
    DigitsInSet(f);
    KeepAllIn(tail, CURRENCY_CHARS);
    KeepAppend(Join(Chunks(d), gs), tail, CURRENCY_CHARS);
  }

  /** Around the number a readable layout holds only a sign and a symbol without currency characters. */
  lemma KeepAround(sign: string, sym: string, number: string, symbolFirst: bool)
    requires sign == "" || sign == "-"
    requires NoneIn(sym, CURRENCY_CHARS)
    ensures Keep(if symbolFirst then sign + sym + number else sign + number + sym, CURRENCY_CHARS)
            == sign + Keep(number, CURRENCY_CHARS)
  {
    KeepAllIn(sign, CURRENCY_CHARS);
    KeepNoneIn(sym, CURRENCY_CHARS);
    if symbolFirst {
      KeepAppend(sign + sym, number, CURRENCY_CHARS);
      KeepAppend(sign, sym, CURRENCY_CHARS);
    } else {
      KeepAppend(sign + number, sym, CURRENCY_CHARS);
      KeepAppend(sign, number, CURRENCY_CHARS);
    }
  }

  /** Readable layouts hold nothing but number text and noise the parser drops. */
  lemma KeepLayout(value: int, format: CurrencyFormat)
    requires Readable(format)
    ensures var dd := format.decimalDigits;
            var n := Scaled(value, dd);
            Keep(Layout(value, format), CURRENCY_CHARS)
            == GroupedText(value < 0 && !(dd == 0 && n == 0), ReadGroups(IntDigits(value, dd), format.groupSeparator),
                           FractionDigits(n, dd))
  {
    var dd, gs, sym := format.decimalDigits, format.groupSeparator, format.currencySymbol;
    var n := Scaled(value, dd);
    var d := IntDigits(value, dd);
    var f := FractionDigits(n, dd);
    var sign := if value < 0 && !(dd == 0 && n == 0) then "-" else "";
    var number := Join(Chunks(d), gs) + (if dd == 0 then "" else "." + f);
    assert Layout(value, format) == if format.symbolFirst then sign + sym + number else sign + number + sym;
    KeepAround(sign, sym, number, format.symbolFirst);
    KeepNumber(d, gs, f, dd);
    var j, tail := Join(ReadGroups(d, gs), ","), if f == [] then "" else "." + f;
    assert Keep(Layout(value, format), CURRENCY_CHARS) == sign + (j + tail);
    Associative(sign, j, tail);
  }

  lemma Associative(a: string, b: string, c: string)
    ensures a + (b + c) == a + b + c
  {
  }

  lemma PointIsNotPlaceholder()
    ensures !Occurs(".", GROUP_PLACEHOLDER)
  {
  }

  /** Parsing a readable display gives the digits it shows, with its sign. */
  lemma ParseFormatted(value: int, format: CurrencyFormat)
    requires Readable(format)
    ensures var dd := format.decimalDigits;
            var n := Scaled(value, dd);
            ParseMilliunits(FormatBalance(value, format))
            == Some(ToMilliunits(Decimal(value < 0 && !(dd == 0 && n == 0), IntDigits(value, dd), FractionDigits(n, dd))))
  {
    var dd := format.decimalDigits;
    var n := Scaled(value, dd);
    var d := IntDigits(value, dd);
    PointIsNotPlaceholder();
    FormatBalanceLayout(value, format);
    ParseIgnoresNoise(FormatBalance(value, format));
    KeepLayout(value, format);
    ReadGroupsDigits(d, format.groupSeparator);
    ParseGroupedText(value < 0 && !(dd == 0 && n == 0), ReadGroups(d, format.groupSeparator), FractionDigits(n, dd));
  }

  lemma MulMono(x: int, y: int, s: int)
    requires x <= y && s >= 0
    ensures x * s <= y * s
  {
  }

  lemma UniqueRounding(m: int, a: int, s: int)
    requires s >= 1
    requires 2 * (m * s) <= 2 * (a * s) + s < 2 * (m * s) + 2 * s
    ensures m == a
  {
    if m > a {
      MulMono(a + 1, m, s);
      assert false;
    } else if m < a {
      MulMono(m + 1, a, s);
      assert false;
    }
  }

  lemma ExactArithmetic(m: int, a: int, vd: int, vf: int, q: int, s: int)
    requires q >= 1 && s == 1000 * q
    requires vd * s + vf == a * q
    requires 2 * (m * s) <= 2 * (1000 * (vd * s + vf)) + s < 2 * (m * s) + 2 * s
    ensures m == a
  {
    assert 1000 * (a * q) == a * s;
    UniqueRounding(m, a, s);
  }

  /** An exact display shows |value| in milliunits, which the parser's conversion recovers. */
  lemma ExactMagnitude(value: int, dd: nat)
    requires dd >= 3
    ensures MilliMagnitude(IntDigits(value, dd), FractionDigits(Scaled(value, dd), dd)) == Abs(value)
  {
    var n := Scaled(value, dd);
    var d := IntDigits(value, dd);
    var f := FractionDigits(n, dd);
    MagnitudeRoundsHalfUp(d, f);
    FormatDigitsExact(value, dd);
    ValAppend(d, f);
    Pow10Add(3, dd - 3);
    assert Pow10(3) == 1000;
    ExactArithmetic(MilliMagnitude(d, f), Abs(value), Val(d), Val(f), Pow10(dd - 3), Pow10(dd));
  }

  lemma RoundedArithmetic(vd: int, vf: int, n: int, p: int, k: int)
    requires n == vd * p + vf && p * k == 1000
    ensures vd * 1000 + vf * k == n * k
  {
    assert n * k == vd * (p * k) + vf * k;
  }

  /** A display with at most three decimals shows the scaled, rounded value. */
  lemma RoundedMagnitude(value: int, dd: nat)
    requires dd <= 3
    ensures MilliMagnitude(IntDigits(value, dd), FractionDigits(Scaled(value, dd), dd)) == Scaled(value, dd) * Pow10(3 - dd)
  {
    var n := Scaled(value, dd);
    var d := IntDigits(value, dd);
    var f := FractionDigits(n, dd);
    var p, k := Pow10(dd), Pow10(3 - dd);
    MagnitudeExact(d, f);
    assert Val(d) == n / p;
    DivMod(n, p);
    Pow10Add(dd, 3 - dd);
    assert Pow10(3) == 1000;
    RoundedArithmetic(Val(d), Val(f), n, p, k);
  }

  /** Fixed-point formatting with at most three decimals rounds to the nearest step of 10^(3 - dd) milliunits. */
  lemma ScaledNearest(value: int, dd: nat)
    requires dd <= 3
    ensures var k := Pow10(3 - dd);
            var r := Scaled(value, dd) * k;
            2 * r <= 2 * Abs(value) + k && 2 * Abs(value) <= 2 * r + k
  {
    if dd == 3 {
      assert Pow10(0) == 1;
    }
  }

  /**
   * With at least three decimal digits the display is exact, so reading
   * it back gives the balance unchanged.
   */
  lemma RoundTrip(value: int, format: CurrencyFormat)
    requires Readable(format) && format.decimalDigits >= 3
    ensures ParseMilliunits(FormatBalance(value, format)) == Some(value)
  {
    ParseFormatted(value, format);
    ExactMagnitude(value, format.decimalDigits);
  }

  /**
   * The balance as a display with `dd <= 3` decimals shows it, in
   * milliunits: the nearest multiple of 10^(3 - dd), with the sign of
   * the balance.
   */
  function RoundedBalance(value: int, dd: nat): (r: int)
    requires dd <= 3
    ensures 2 * Abs(r) <= 2 * Abs(value) + Pow10(3 - dd) && 2 * Abs(value) <= 2 * Abs(r) + Pow10(3 - dd)
    ensures Abs(r) % Pow10(3 - dd) == 0
    ensures r != 0 ==> (r < 0 <==> value < 0)
  {
    ScaledNearest(value, dd);
    var k := Pow10(3 - dd);
    var m := Scaled(value, dd) * k;
    MultipleOfStep(Scaled(value, dd), k);
    SignedStep(value, m, k);
    if value < 0 then -m else m
  }

  lemma MultipleOfStep(a: int, k: int)
    requires k >= 1
    ensures (a * k) % k == 0
  {
    var q, r := (a * k) / k, (a * k) % k;
    assert (a - q) * k == r;
    if a - q >= 1 {
      MulMono(1, a - q, k);
    } else if a - q <= -1 {
      MulMono(a - q, -1, k);
    }
  }

  /** A multiple of `k` within half a step of |value|, given the sign of `value`. */
  lemma SignedStep(value: int, m: int, k: int)
    requires k >= 1 && m >= 0 && m % k == 0
    requires 2 * m <= 2 * Abs(value) + k && 2 * Abs(value) <= 2 * m + k
    ensures var r: int := if value < 0 then -m else m;
            && 2 * Abs(r) <= 2 * Abs(value) + k && 2 * Abs(value) <= 2 * Abs(r) + k
            && Abs(r) % k == 0
            && (r != 0 ==> (r < 0 <==> value < 0))
  {
  }

  /**
   * With fewer decimal digits the display is the balance rounded to
   * them, ties to even, and reading it back gives that rounded balance.
   */
  lemma RoundTripRounded(value: int, format: CurrencyFormat)
    requires Readable(format) && format.decimalDigits <= 3
    ensures ParseMilliunits(FormatBalance(value, format)) == Some(RoundedBalance(value, format.decimalDigits))
  {
    ParseFormatted(value, format);
    RoundedReading(value, format.decimalDigits);
  }

  /** What the parser's conversion makes of a display with at most three decimals: the rounded balance. */
  lemma RoundedReading(value: int, dd: nat)
    requires dd <= 3
    ensures var n := Scaled(value, dd);
            ToMilliunits(Decimal(value < 0 && !(dd == 0 && n == 0), IntDigits(value, dd), FractionDigits(n, dd)))
            == RoundedBalance(value, dd)
  {
    var n := Scaled(value, dd);
    var neg := value < 0 && !(dd == 0 && n == 0);
    var d := Decimal(neg, IntDigits(value, dd), FractionDigits(n, dd));
    var m := Scaled(value, dd) * Pow10(3 - dd);
    RoundedMagnitude(value, dd);
    assert MilliMagnitude(d.intDigits, d.fracDigits) == m;
    assert ToMilliunits(d) == if neg then -m else m;
    assert RoundedBalance(value, dd) == if value < 0 then -m else m;
    if value < 0 && !neg {
      assert n == 0;
      assert m == 0;
    }
  }
}
