/**
 * `format_balance` of src/ynab_updater/utils.py: milliunits to display
 * text for a budget's `CurrencyFormat`. Python's float division and
 * fixed-point formatting are replaced by exact decimal arithmetic.
 */
module CurrencyFormatting {
  import opened Text
  import opened Config

  /** The stand-in for group separators while decimal points are rewritten. */
  const GROUP_PLACEHOLDER: string := "@@grup_placeholder@@"

  /** `n / d` rounded to the nearest integer, ties to the even neighbour. */
  function RoundHalfEven(n: nat, d: nat): (q: nat)
    requires d > 0
    ensures 2 * (q * d) <= 2 * n + d && 2 * n <= 2 * (q * d) + d
    ensures (2 * (q * d) == 2 * n + d || 2 * n == 2 * (q * d) + d) ==> q % 2 == 0
  {
    var q0, r := n / d, n % d;
    DivMod(n, d);
    if 2 * r > d || (2 * r == d && q0 % 2 == 1) then q0 + 1 else q0
  }

  lemma DivMod(n: nat, d: nat)
    requires d > 0
    ensures n == (n / d) * d + n % d && 0 <= n % d < d
    ensures (n / d + 1) * d == (n / d) * d + d
    ensures n / d >= 0
  {
  }

  /** The integer part of `n / 10^dd`. */
  function IntegerPart(n: nat, dd: nat): nat
  {
    DivMod(n, Pow10(dd));
    n / Pow10(dd)
  }

  /** The last `dd` digits of `n`, as fixed-point formatting writes the fraction. */
  function FractionDigits(n: nat, dd: nat): (s: string)
    ensures |s| == dd && AllDigits(s) && Val(s) == n % Pow10(dd)
  {
    var p := Pow10(dd);
    var f := n % p;
    assert f < p;
    FixedDigits(f, dd)
  }

  /**
   * |value| / 1000 scaled by 10^dd and rounded to an integer, as
   * fixed-point formatting with `dd` fractional digits rounds it.
   */
  function Scaled(value: int, dd: nat): nat
  {
    if dd >= 3 then Abs(value) * Pow10(dd - 3) else RoundHalfEven(Abs(value), Pow10(3 - dd))
  }

  /** The digit groups of `d` from the left: one to three digits, then groups of three. */
  function Chunks(d: string): (r: seq<string>)
    ensures |r| >= 1 && Concat(r) == d
    ensures |r[0]| <= 3 && (d != [] ==> |r[0]| >= 1) && |r[0]| <= |d| && r[0] == d[..|r[0]|]
    ensures forall i :: 1 <= i < |r| ==> |r[i]| == 3
    decreases |d|
  {
    if |d| <= 3 then
      assert [d][..0] == [];
      [d]
    else
      var front := Chunks(d[..|d| - 3]);
      var r := front + [d[|d| - 3..]];
      assert r[..|r| - 1] == front;
      assert d[..|d| - 3] + d[|d| - 3..] == d;
      r
  }

  /** `f"{value / 1000:,.{dd}f}"`: sign, comma-grouped integer part, point and `dd` digits. */
  function FixedPoint(value: int, dd: nat): string
  {
    var n := Scaled(value, dd);
    (if value < 0 then "-" else "") + Join(Chunks(NatToDigits(IntegerPart(n, dd))), ",")
      + (if dd == 0 then "" else "." + FractionDigits(n, dd))
  }

  /** The three chained `str.replace` calls of the separator swap. */
  function SwapSeparators(s: string, decimalSeparator: string, groupSeparator: string): string
  {
    ReplaceAll(ReplaceAll(ReplaceAll(s, ",", GROUP_PLACEHOLDER), ".", decimalSeparator),
               GROUP_PLACEHOLDER, groupSeparator)
  }

  /** The `-0` check of `format_balance`: only that exact text loses its sign. */
  function CanonicalZero(s: string): string
  {
    if s == "-0" then "0" else s
  }

  /** The symbol placement of `format_balance`: a leading minus stays in front of a leading symbol. */
  function PlaceSymbol(s: string, format: CurrencyFormat): string
  {
    if format.symbolFirst then
      if |s| > 0 && s[0] == '-' then "-" + format.currencySymbol + s[1..]
      else format.currencySymbol + s
    else s + format.currencySymbol
  }

  /** `format_balance` */
  function FormatBalance(value: int, format: CurrencyFormat): string
  {
    var fixed := FixedPoint(value, format.decimalDigits);
    PlaceSymbol(SwapSeparators(CanonicalZero(fixed), format.decimalSeparator, format.groupSeparator), format)
  }

  // ------------------------------------------------------------ reference layout

  /** Each `,` becomes `gs` and each `.` becomes `ds`, in one simultaneous pass. */
  function MapSeparators(s: string, ds: string, gs: string): string
  {
    if s == [] then []
    else (if s[0] == ',' then gs else if s[0] == '.' then ds else [s[0]]) + MapSeparators(s[1..], ds, gs)
  }

  /**
   * The text `format_balance` is meant to produce: the integer part in
   * groups of three joined by the group separator, the decimal separator
   * and `decimal_digits` digits, a minus before everything (also before a
   * leading symbol) for negative values except a bare `-0`, and the symbol
   * before or after the number.
   */
  function Layout(value: int, format: CurrencyFormat): string
  {
    var dd := format.decimalDigits;
    var n := Scaled(value, dd);
    var negative := value < 0 && !(dd == 0 && n == 0);
    var sign := if negative then "-" else "";
    var number := Join(Chunks(NatToDigits(IntegerPart(n, dd))), format.groupSeparator)
                  + (if dd == 0 then "" else format.decimalSeparator + FractionDigits(n, dd));
    if format.symbolFirst then sign + format.currencySymbol + number
    else sign + number + format.currencySymbol
  }

  // ------------------------------------------------------------ lemmas

  /** Text the separator swap can safely work on: what FixedPoint produces. */
  predicate Separable(s: string)
  {
    && AllIn(s, DIGITS + {'-', ',', '.'})
    && forall i :: 0 <= i < |s| - 1 && s[i] == '.' ==> IsDigit(s[i + 1])
  }

  lemma {:induction false} MapSeparatorsAppend(a: string, b: string, ds: string, gs: string)
    ensures MapSeparators(a + b, ds, gs) == MapSeparators(a, ds, gs) + MapSeparators(b, ds, gs)
  {
    if a == [] {
      assert a + b == b;
    } else {
      assert (a + b)[1..] == a[1..] + b;
      MapSeparatorsAppend(a[1..], b, ds, gs);
    }
  }

  lemma {:induction false} MapSeparatorsPlain(s: string, ds: string, gs: string)
    requires ',' !in s && '.' !in s
    ensures MapSeparators(s, ds, gs) == s
  {
    if s != [] {
      assert s[0] != ',' && s[0] != '.';
      MapSeparatorsPlain(s[1..], ds, gs);
      assert [s[0]] + s[1..] == s;
    }
  }

  /** Mapping the separators of a `,`-joined list re-joins it with `gs`. */
  lemma {:induction false} MapSeparatorsJoin(parts: seq<string>, ds: string, gs: string)
    requires forall i :: 0 <= i < |parts| ==> ',' !in parts[i] && '.' !in parts[i]
    ensures MapSeparators(Join(parts, ","), ds, gs) == Join(parts, gs)
    decreases |parts|
  {
    if |parts| == 1 {
      MapSeparatorsPlain(parts[0], ds, gs);
    } else if |parts| > 1 {
      var front, last := parts[..|parts| - 1], parts[|parts| - 1];
      MapSeparatorsJoin(front, ds, gs);
      MapSeparatorsAppend(Join(front, ",") + ",", last, ds, gs);
      MapSeparatorsAppend(Join(front, ","), ",", ds, gs);
      assert MapSeparators(",", ds, gs) == gs + MapSeparators([], ds, gs);
      MapSeparatorsPlain(last, ds, gs);
    }
  }

  lemma PlaceholderChars()
    ensures forall c :: c in GROUP_PLACEHOLDER ==> c !in DIGITS && c != '-' && c != ',' && c != '.'
  {
    forall c | c in GROUP_PLACEHOLDER ensures '@' <= c {
    }
  }

  /** Rewriting commas to the placeholder and then points to `ds` maps both at once. */
  lemma {:induction false} PlaceholderThenPoint(s: string, ds: string)
    ensures ReplaceChar(ReplaceChar(s, ',', GROUP_PLACEHOLDER), '.', ds)
            == MapSeparators(s, ds, GROUP_PLACEHOLDER)
  {
    if s != [] {
      var head := if s[0] == ',' then GROUP_PLACEHOLDER else [s[0]];
      assert ReplaceChar(s, ',', GROUP_PLACEHOLDER) == head + ReplaceChar(s[1..], ',', GROUP_PLACEHOLDER);
      ReplaceCharAppend(head, ReplaceChar(s[1..], ',', GROUP_PLACEHOLDER), '.', ds);
      PlaceholderThenPoint(s[1..], ds);
      PlaceholderChars();
      if s[0] != ',' {
        assert [s[0]][1..] == [];
        assert ReplaceChar(head, '.', ds) == (if s[0] == '.' then ds else [s[0]]) + ReplaceChar([], '.', ds);
      }
    }
  }

  /** Replacing the placeholder by `gs` afterwards leaves the decimal separators alone. */
  lemma {:induction false} PlaceholderToGroup(s: string, ds: string, gs: string)
    requires Separable(s) && !Occurs(ds, GROUP_PLACEHOLDER)
    ensures ReplaceAll(MapSeparators(s, ds, GROUP_PLACEHOLDER), GROUP_PLACEHOLDER, gs)
            == MapSeparators(s, ds, gs)
  {
    if s != [] {
      var rest := MapSeparators(s[1..], ds, GROUP_PLACEHOLDER);
      assert Separable(s[1..]) by {
        assert forall i :: 0 <= i < |s| - 1 ==> s[1..][i] == s[i + 1];
      }
      PlaceholderToGroup(s[1..], ds, gs);
      PlaceholderChars();
      assert s[0] in DIGITS + {'-', ',', '.'};
      if s[0] == ',' {
        ReplaceAllFront(rest, GROUP_PLACEHOLDER, gs);
      } else if s[0] == '.' {
        if s[1..] != [] {
          assert IsDigit(s[1]);
          DigitsSet(s[1]);
          assert rest[0] == s[1];
        }
        ReplaceAllSkip(ds, rest, GROUP_PLACEHOLDER, gs);
      } else {
        ReplaceAllHead(s[0], rest, GROUP_PLACEHOLDER, gs);
      }
    }
  }

  /**
   * The placeholder makes the three replacements act as one simultaneous
   * substitution: a group separator is never rewritten as a decimal one,
   * as long as the decimal separator does not contain the placeholder.
   */
  lemma SwapIsSimultaneous(s: string, ds: string, gs: string)
    requires Separable(s) && !Occurs(ds, GROUP_PLACEHOLDER)
    ensures SwapSeparators(s, ds, gs) == MapSeparators(s, ds, gs)
  {
    ReplaceAllOneChar(s, ',', GROUP_PLACEHOLDER);
    ReplaceAllOneChar(ReplaceChar(s, ',', GROUP_PLACEHOLDER), '.', ds);
    PlaceholderThenPoint(s, ds);
    PlaceholderToGroup(s, ds, gs);
  }

  lemma ChunksDigits(d: string)
    requires AllDigits(d)
    ensures forall i :: 0 <= i < |Chunks(d)| ==> AllIn(Chunks(d)[i], DIGITS)
  {
    DigitsInSet(d);
    ConcatAllIn(Chunks(d), DIGITS);
  }

  /** Digits grouped with commas: only digits and commas, led by the first digit. */
  lemma GroupedDigits(d: string)
    requires d != [] && AllDigits(d)
    ensures var g := Join(Chunks(d), ",");
            AllIn(g, DIGITS + {','}) && g[0] == d[0] && |g| >= |d|
  {
    var parts := Chunks(d);
    ChunksDigits(d);
    forall i | 0 <= i < |parts| ensures AllIn(parts[i], DIGITS + {','}) {
      assert AllIn(parts[i], DIGITS);
    }
    JoinAllIn(parts, ",", DIGITS + {','});
    JoinFirst(parts, ",");
    JoinLength(parts, ",");
  }

  /** The integer digits of a fixed-point rendering. */
  function IntDigits(value: int, dd: nat): (s: string)
    ensures s != [] && AllDigits(s)
  {
    NatToDigits(IntegerPart(Scaled(value, dd), dd))
  }

  lemma FixedPointParts(value: int, dd: nat)
    ensures FixedPoint(value, dd) == (if value < 0 then "-" else "") + Join(Chunks(IntDigits(value, dd)), ",")
                                     + (if dd == 0 then "" else "." + FractionDigits(Scaled(value, dd), dd))
  {
  }

  /** A fraction as FixedPoint writes it: nothing, or a point and at least one digit. */
  predicate FractionText(frac: string)
  {
    frac == [] || (|frac| >= 2 && frac[0] == '.' && AllDigits(frac[1..]))
  }

  lemma SeparableParts(sign: string, d: string, frac: string)
    requires sign == "" || sign == "-"
    requires d != [] && AllDigits(d) && FractionText(frac)
    ensures Separable(sign + Join(Chunks(d), ",") + frac)
  {
    var g := Join(Chunks(d), ",");
    GroupedDigits(d);
    SignedGroupChars(sign, g);
    SeparableAppend(sign + g, frac);
  }

  lemma SignedGroupChars(sign: string, g: string)
    requires sign == "" || sign == "-"
    requires AllIn(g, DIGITS + {','})
    ensures AllIn(sign + g, DIGITS + {'-', ',', '.'})
    ensures forall k :: 0 <= k < |sign + g| ==> (sign + g)[k] != '.'
  {
    var p := sign + g;
    forall k | 0 <= k < |p| ensures p[k] in DIGITS + {'-', ','} {
      if k >= |sign| {
        assert p[k] == g[k - |sign|];
      }
    }
  }

  lemma SeparableAppend(p: string, frac: string)
    requires AllIn(p, DIGITS + {'-', ',', '.'}) && forall k :: 0 <= k < |p| ==> p[k] != '.'
    requires FractionText(frac)
    ensures Separable(p + frac)
  {
    var s := p + frac;
    if frac != [] {
      DigitsInSet(frac[1..]);
    }
    forall i | 0 <= i < |s| ensures s[i] in DIGITS + {'-', ',', '.'} {
      if i < |p| {
        assert s[i] == p[i];
      } else if i > |p| {
        assert s[i] == frac[1..][i - |p| - 1];
      }
    }
    forall i | 0 <= i < |s| - 1 && s[i] == '.' ensures IsDigit(s[i + 1]) {
      assert i >= |p|;
      assert s[i + 1] == frac[1..][i - |p|];
    }
  }

  lemma MapParts(sign: string, d: string, f: string, dd: nat, ds: string, gs: string)
    requires sign == "" || sign == "-"
    requires d != [] && AllDigits(d) && AllDigits(f)
    ensures MapSeparators(sign + Join(Chunks(d), ",") + (if dd == 0 then "" else "." + f), ds, gs)
            == sign + Join(Chunks(d), gs) + (if dd == 0 then "" else ds + f)
  {
    var g := Join(Chunks(d), ",");
    var frac := if dd == 0 then "" else "." + f;
    MapSeparatorsAppend(sign + g, frac, ds, gs);
    MapSeparatorsAppend(sign, g, ds, gs);
    MapSeparatorsPlain(sign, ds, gs);
    ChunksDigits(d);
    MapSeparatorsJoin(Chunks(d), ds, gs);
    DigitsInSet(f);
    MapSeparatorsPlain(f, ds, gs);
    if dd != 0 {
      MapSeparatorsAppend(".", f, ds, gs);
      assert MapSeparators(".", ds, gs) == ds + MapSeparators([], ds, gs);
    }
  }

  lemma MinusZeroForm(sign: string, d: string, frac: string)
    requires sign == "" || sign == "-"
    requires d != [] && AllDigits(d) && FractionText(frac)
    requires sign + Join(Chunks(d), ",") + frac == "-0"
    ensures sign == "-" && d == "0" && frac == []
  {
    var g := Join(Chunks(d), ",");
    GroupedDigits(d);
    var s := sign + g + frac;
    assert (g + frac)[0] == g[0];
    assert s[1..] == g + frac;
    JoinLength(Chunks(d), ",");
  }

  lemma MinusZeroParts(sign: string, d: string, frac: string)
    requires sign == "" || sign == "-"
    requires d != [] && AllDigits(d) && FractionText(frac)
    ensures sign + Join(Chunks(d), ",") + frac == "-0" <==> sign == "-" && d == "0" && frac == []
  {
    if sign == "-" && d == "0" && frac == [] {
      assert Chunks(d) == ["0"];
    }
    if sign + Join(Chunks(d), ",") + frac == "-0" {
      MinusZeroForm(sign, d, frac);
    }
  }

  lemma IntegerPartZero(n: nat)
    ensures IntegerPart(n, 0) == n
  {
    assert Pow10(0) == 1;
  }

  /** Zero digits at precision 0 show up as `0`. */
  lemma ZeroDigits()
    ensures NatToDigits(0) == "0" && Join(Chunks("0"), ",") == "0"
  {
  }

  lemma FixedPointSeparable(value: int, dd: nat)
    ensures Separable(FixedPoint(value, dd))
  {
    var f := FractionDigits(Scaled(value, dd), dd);
    FixedPointParts(value, dd);
    if dd != 0 {
      assert ("." + f)[1..] == f;
    }
    SeparableParts(if value < 0 then "-" else "", IntDigits(value, dd), if dd == 0 then "" else "." + f);
  }

  lemma MapFixedPoint(value: int, dd: nat, ds: string, gs: string)
    ensures MapSeparators(FixedPoint(value, dd), ds, gs)
            == (if value < 0 then "-" else "") + Join(Chunks(IntDigits(value, dd)), gs)
               + (if dd == 0 then "" else ds + FractionDigits(Scaled(value, dd), dd))
  {
    FixedPointParts(value, dd);
    MapParts(if value < 0 then "-" else "", IntDigits(value, dd), FractionDigits(Scaled(value, dd), dd), dd, ds, gs);
  }

  /** `-0` arises exactly for a negative value that rounds to zero at precision 0. */
  lemma MinusZeroExactly(value: int, dd: nat)
    ensures FixedPoint(value, dd) == "-0" <==> value < 0 && dd == 0 && Scaled(value, dd) == 0
  {
    var f := FractionDigits(Scaled(value, dd), dd);
    var d := IntDigits(value, dd);
    FixedPointParts(value, dd);
    if dd != 0 {
      assert ("." + f)[1..] == f;
    }
    MinusZeroParts(if value < 0 then "-" else "", d, if dd == 0 then "" else "." + f);
    if dd == 0 {
      var n := Scaled(value, dd);
      IntegerPartZero(n);
      if d == "0" {
        ValSingle('0');
      }
      if n == 0 {
        ZeroDigits();
      }
    }
  }

  lemma PlaceSymbolSigned(sign: string, number: string, format: CurrencyFormat)
    requires sign == "" || sign == "-"
    requires number != [] && number[0] != '-'
    ensures PlaceSymbol(sign + number, format)
            == if format.symbolFirst then sign + format.currencySymbol + number
               else sign + number + format.currencySymbol
  {
    if sign == "-" {
      assert (sign + number)[1..] == number;
    } else {
      assert sign + number == number;
    }
  }

  lemma SwappedParts(sign: string, d: string, f: string, dd: nat, ds: string, gs: string)
    requires sign == "" || sign == "-"
    requires d != [] && AllDigits(d) && AllDigits(f) && (dd != 0 ==> f != [])
    requires !Occurs(ds, GROUP_PLACEHOLDER)
    ensures var fixed := sign + Join(Chunks(d), ",") + (if dd == 0 then "" else "." + f);
            SwapSeparators(CanonicalZero(fixed), ds, gs)
            == (if fixed == "-0" then "" else sign) + Join(Chunks(d), gs) + (if dd == 0 then "" else ds + f)
  {
    var frac := if dd == 0 then "" else "." + f;
    var fixed := sign + Join(Chunks(d), ",") + frac;
    if dd != 0 {
      assert frac[1..] == f;
    }
    MinusZeroParts(sign, d, frac);
    if fixed == "-0" {
      assert Chunks("0") == ["0"];
      assert Separable("0");
      SwapIsSimultaneous("0", ds, gs);
      MapSeparatorsPlain("0", ds, gs);
    } else {
      SeparableParts(sign, d, frac);
      SwapIsSimultaneous(fixed, ds, gs);
      MapParts(sign, d, f, dd, ds, gs);
    }
  }

  /** After the `-0` check and the swap: the sign, then the number in the budget's separators. */
  lemma SwappedNumber(value: int, dd: nat, ds: string, gs: string)
    requires !Occurs(ds, GROUP_PLACEHOLDER)
    ensures var n := Scaled(value, dd);
            var negative := value < 0 && !(dd == 0 && n == 0);
            SwapSeparators(CanonicalZero(FixedPoint(value, dd)), ds, gs)
            == (if negative then "-" else "") + Join(Chunks(IntDigits(value, dd)), gs)
               + (if dd == 0 then "" else ds + FractionDigits(n, dd))
  {
    var sign := if value < 0 then "-" else "";
    var d, f := IntDigits(value, dd), FractionDigits(Scaled(value, dd), dd);
    FixedPointParts(value, dd);
    MinusZeroExactly(value, dd);
    SwappedParts(sign, d, f, dd, ds, gs);
  }

  /**
   * `format_balance` produces the reference Layout whenever the decimal
   * separator does not itself contain the placeholder text.
   */
  lemma FormatBalanceLayout(value: int, format: CurrencyFormat)
    requires !Occurs(format.decimalSeparator, GROUP_PLACEHOLDER)
    ensures FormatBalance(value, format) == Layout(value, format)
  {
    var dd, ds, gs := format.decimalDigits, format.decimalSeparator, format.groupSeparator;
    var n := Scaled(value, dd);
    var d := IntDigits(value, dd);
    var grouped, frac := Join(Chunks(d), gs), if dd == 0 then "" else ds + FractionDigits(n, dd);
    var negative := value < 0 && !(dd == 0 && n == 0);
    var sign := if negative then "-" else "";
    SwappedNumber(value, dd, ds, gs);
    AppendAssociates(sign, grouped, frac);
    GroupedLead(d, gs, frac);
    PlaceSymbolSigned(sign, grouped + frac, format);
    LayoutOf(value, format, sign, grouped + frac);
  }

  /** The number part of a layout starts with its first digit, whatever the separators. */
  lemma GroupedLead(d: string, gs: string, frac: string)
    requires d != []
    ensures Join(Chunks(d), gs) + frac != [] && (Join(Chunks(d), gs) + frac)[0] == d[0]
  {
    JoinFirst(Chunks(d), gs);
  }

  /** Layout around its sign and number. */
  lemma LayoutOf(value: int, format: CurrencyFormat, sign: string, number: string)
    requires var dd := format.decimalDigits;
             var n := Scaled(value, dd);
             && sign == (if value < 0 && !(dd == 0 && n == 0) then "-" else "")
             && number == Join(Chunks(IntDigits(value, dd)), format.groupSeparator)
                          + (if dd == 0 then "" else format.decimalSeparator + FractionDigits(n, dd))
    ensures Layout(value, format) == if format.symbolFirst then sign + format.currencySymbol + number
                                     else sign + number + format.currencySymbol
  {
  }

  /**
   * Grouping in threes: counted from the right end, every fourth character
   * is a comma and every other character is a digit.
   */
  ghost predicate CommasEveryFourth(r: string)
  {
    forall i :: 0 <= i < |r| ==> (r[i] == ',' <==> (|r| - i) % 4 == 0) && (r[i] != ',' ==> IsDigit(r[i]))
  }

  lemma {:induction false} GroupedPositions(d: string)
    requires AllDigits(d)
    ensures CommasEveryFourth(Join(Chunks(d), ","))
    decreases |d|
  {
    if |d| <= 3 {
      assert Join(Chunks(d), ",") == d;
    } else {
      var front := d[..|d| - 3];
      GroupedPositions(front);
      GroupedSnoc(d);
      CommaThenGroup(Join(Chunks(front), ","), d[|d| - 3..]);
    }
  }

  /** Past three digits, the grouped text is the grouped front, a comma and the last three digits. */
  lemma GroupedSnoc(d: string)
    requires |d| > 3
    ensures Join(Chunks(d), ",") == Join(Chunks(d[..|d| - 3]), ",") + "," + d[|d| - 3..]
  {
    assert Chunks(d) == Chunks(d[..|d| - 3]) + [d[|d| - 3..]];
    JoinSnoc(Chunks(d[..|d| - 3]), d[|d| - 3..], ",");
  }

  /** Three more digits behind a comma keep every fourth character from the right a comma. */
  lemma CommaThenGroup(rf: string, last: string)
    requires CommasEveryFourth(rf)
    requires |last| == 3 && AllDigits(last)
    ensures CommasEveryFourth(rf + "," + last)
  {
    var r := rf + "," + last;
    forall i | 0 <= i < |r| ensures (r[i] == ',' <==> (|r| - i) % 4 == 0) && (r[i] != ',' ==> IsDigit(r[i])) {
      if i < |rf| {
        assert r[i] == rf[i];
        assert |r| - i == (|rf| - i) + 4;
      } else if i > |rf| {
        assert r[i] == last[i - |rf| - 1];
      }
    }
  }

  /**
   * With at least three fractional digits nothing is rounded: the digits
   * shown, read as one number, are |value| * 10^(dd - 3).
   */
  lemma FormatDigitsExact(value: int, dd: nat)
    requires dd >= 3
    ensures Val(IntDigits(value, dd) + FractionDigits(Scaled(value, dd), dd)) == Abs(value) * Pow10(dd - 3)
  {
    var n := Scaled(value, dd);
    var f := FractionDigits(n, dd);
    ValAppend(IntDigits(value, dd), f);
    DivMod(n, Pow10(dd));
  }
}
