/**
 * The older money codec: `parse_currency_to_milliunits` of
 * src/ynab_updater/screens.py and `format_currency` of
 * src/ynab_updater/widgets.py. Both work in whole cents: the parser
 * truncates the fraction to two digits and the formatter truncates the
 * sub-cent part, and neither groups thousands.
 */
module LegacyCodec {
  import opened Wrappers
  import opened Text

  /** The characters `re.sub(r"[$,]", "", ...)` deletes. */
  const SYMBOL_CHARS: set<char> := {'$', ','}

  // ---------------------------------------------------------------- string pieces

  /** `re.sub("[...]", "", s)`: `s` without the characters of `cs`. */
  function Remove(s: string, cs: set<char>): (r: string)
    ensures |r| <= |s|
    ensures NoneIn(r, cs)
  {
    if s == [] then [] else (if s[0] in cs then [] else [s[0]]) + Remove(s[1..], cs)
  }

  lemma {:induction false} RemoveAppend(a: string, b: string, cs: set<char>)
    ensures Remove(a + b, cs) == Remove(a, cs) + Remove(b, cs)
  {
    if a == [] {
      assert a + b == b;
    } else {
      var head := if a[0] in cs then [] else [a[0]];
      assert (a + b)[0] == a[0] && (a + b)[1..] == a[1..] + b;
      assert Remove(a + b, cs) == head + Remove(a[1..] + b, cs);
      RemoveAppend(a[1..], b, cs);
      assert head + (Remove(a[1..], cs) + Remove(b, cs)) == (head + Remove(a[1..], cs)) + Remove(b, cs);
    }
  }

  lemma {:induction false} RemoveAllIn(s: string, cs: set<char>)
    requires AllIn(s, cs)
    ensures Remove(s, cs) == []
  {
    if s != [] {
      RemoveAllIn(s[1..], cs);
    }
  }

  lemma {:induction false} RemoveNoneIn(s: string, cs: set<char>)
    requires NoneIn(s, cs)
    ensures Remove(s, cs) == s
  {
    if s != [] {
      RemoveNoneIn(s[1..], cs);
    }
  }

  /** `s.split(c)[0]`: the text before the first `c`, or all of `s`. */
  function Before(s: string, c: char): (r: string)
    ensures |r| <= |s| && c !in r && r == s[..|r|]
    ensures |r| < |s| ==> s[|r|] == c
  {
    if c in s then s[..IndexOf(s, c)] else s
  }

  /** `s.ljust(w, c)` */
  function LJust(s: string, w: nat, c: char): (r: string)
    ensures |r| >= w && |r| >= |s| && r[..|s|] == s
    ensures forall i :: |s| <= i < |r| ==> r[i] == c
    decreases w - |s|
  {
    if |s| >= w then s else LJust(s + [c], w, c)
  }

  /** The cents text of a fraction: padded with zeros to two characters, then cut to two. */
  function CentsText(fraction: string): (r: string)
    ensures |r| == 2
  {
    LJust(fraction, 2, '0')[..2]
  }

  /** The text with the whitespace at either end peeled off, one character at a time. */
  function TrimBlanks(s: string): string
    decreases |s|
  {
    if s != [] && s[0] in WHITESPACE then TrimBlanks(s[1..])
    else if s != [] && s[|s| - 1] in WHITESPACE then TrimBlanks(s[..|s| - 1])
    else s
  }

  /**
   * Python's `int()` on a string: whitespace at either end is skipped and
   * the rest is read by `IntLiteral`. `ParseIntStrips` states that this is
   * `IntLiteral` of the stripped text; the lemmas after `IntLiteral` state
   * what it makes of digits, signs and blanks.
   */
  function ParseInt(s: string): Option<int>
  {
    IntLiteral(TrimBlanks(s))
  }

  /**
   * What `int()` accepts once the whitespace around it is gone: one or
   * more ASCII digits after an optional `+` or `-`, read as a signed
   * number. Anything else, whitespace between the sign and the digits
   * included, raises `ValueError`, here `None`.
   */
  function IntLiteral(t: string): (r: Option<int>)
    ensures r.Some? <==> (t != [] && AllDigits(t)) || (|t| >= 2 && (t[0] == '+' || t[0] == '-') && AllDigits(t[1..]))
    ensures t != [] && AllDigits(t) ==> r == Some(Val(t))
    ensures |t| >= 2 && t[0] == '-' && AllDigits(t[1..]) ==> r == Some(-(Val(t[1..]) as int))
    ensures |t| >= 2 && t[0] == '+' && AllDigits(t[1..]) ==> r == Some(Val(t[1..]))
  {
    if t != [] && AllDigits(t) then Some(Val(t))
    else if |t| >= 2 && (t[0] == '+' || t[0] == '-') && AllDigits(t[1..]) then
      var n: int := Val(t[1..]);
      Some(if t[0] == '-' then -n else n)
    else None
  }

  /** `int()` of digits alone is their value. */
  lemma ParseIntDigits(s: string)
    requires s != [] && AllDigits(s)
    ensures ParseInt(s) == Some(Val(s))
  {
    assert IsDigit(s[0]) && IsDigit(s[|s| - 1]);
  }

  /** A leading `-` gives a number no greater than zero, or an error. */
  lemma {:induction false} ParseIntMinus(s: string)
    requires s != [] && s[0] == '-'
    ensures ParseInt(s).Some? ==> ParseInt(s).value <= 0
    decreases |s|
  {
    if s[|s| - 1] in WHITESPACE {
      var front := s[..|s| - 1];
      assert front != [] && front[0] == '-';
      ParseIntMinus(front);
    }
  }

  /** `int()` ignores whitespace on either side of the number. */
  lemma {:induction false} ParseIntPadded(a: string, t: string, b: string)
    requires AllIn(a, WHITESPACE) && AllIn(b, WHITESPACE)
    requires t != [] && t[0] !in WHITESPACE && t[|t| - 1] !in WHITESPACE
    ensures TrimBlanks(a + t + b) == t && ParseInt(a + t + b) == IntLiteral(t)
    decreases |a| + |b|
  {
    var s := a + t + b;
    if a != [] {
      assert s[0] == a[0] && s[1..] == a[1..] + t + b;
      ParseIntPadded(a[1..], t, b);
    } else if b != [] {
      assert s == t + b && s[0] == t[0] && s[|s| - 1] == b[|b| - 1];
      assert s[..|s| - 1] == [] + t + b[..|b| - 1];
      ParseIntPadded([], t, b[..|b| - 1]);
    } else {
      assert s == t;
    }
  }

  /** Text made only of whitespace is not a number. */
  lemma {:induction false} ParseIntBlank(s: string)
    requires AllIn(s, WHITESPACE)
    ensures TrimBlanks(s) == [] && ParseInt(s) == None
    decreases |s|
  {
    if s != [] {
      assert s[0] in WHITESPACE;
      ParseIntBlank(s[1..]);
    }
  }

  /** `int()` reads what `strip()` leaves of its argument. */
  lemma {:induction false} ParseIntStrips(s: string)
    ensures TrimBlanks(s) == Strip(s, WHITESPACE)
    ensures ParseInt(s) == IntLiteral(Strip(s, WHITESPACE))
  {
    var t := Strip(s, WHITESPACE);
    if t == [] {
      ParseIntBlank(s);
    } else {
      var n := LeadingRun(s, WHITESPACE);
      var rest := s[n..];
      var k := TrailingRun(rest, WHITESPACE);
      assert t == rest[..|rest| - k];
      assert s == s[..n] + t + rest[|rest| - k..];
      assert AllIn(s[..n], WHITESPACE);
      assert AllIn(rest[|rest| - k..], WHITESPACE);
      ParseIntPadded(s[..n], t, rest[|rest| - k..]);
    }
  }

  /** `int("- 5")` raises: no whitespace may come between the sign and the digits. */
  lemma {:induction false} ParseIntBlankAfterSign(sign: char, w: string, d: string)
    requires sign == '+' || sign == '-'
    requires w != [] && AllIn(w, WHITESPACE) && d != [] && AllDigits(d)
    ensures ParseInt([sign] + w + d) == None
  {
    var s := [sign] + w + d;
    assert s[0] == sign && s[|s| - 1] == d[|d| - 1] && IsDigit(d[|d| - 1]);
    assert TrimBlanks(s) == s;
    assert s[1] == w[0] && w[0] in WHITESPACE;
  }

  // ---------------------------------------------------------------- parse_currency_to_milliunits

  /** The magnitude a sign-less amount denotes, `None` where `int()` raises; always whole cents. */
  function Magnitude(unsigned: string): (r: Option<int>)
    ensures r.Some? ==> r.value % 10 == 0
  {
    if '.' in unsigned then
      var dot := IndexOf(unsigned, '.');
      var dollars := ParseInt(unsigned[..dot]);
      var cents := ParseInt(CentsText(Before(unsigned[dot + 1..], '.')));
      if dollars.Some? && cents.Some? then
        ThousandsAndTens(dollars.value, cents.value);
        Some(dollars.value * 1000 + cents.value * 10)
      else None
    else
      var dollars := ParseInt(unsigned);
      if dollars.Some? then
        ThousandsAndTens(dollars.value, 0);
        Some(dollars.value * 1000)
      else None
  }

  /**
   * `parse_currency_to_milliunits` (legacy): strip outer whitespace, delete
   * every `$` and `,`, take one leading `-` as the sign, read whole units
   * before the first `.` and two cent digits after it.
   */
  function LegacyParse(value: string): (r: Option<int>)
    ensures r.Some? ==> r.value % 10 == 0
  {
    ParseCleaned(Remove(Strip(value, WHITESPACE), SYMBOL_CHARS))
  }

  /** The parse once whitespace and symbols are gone. */
  function ParseCleaned(cleaned: string): (r: Option<int>)
    ensures r.Some? ==> r.value % 10 == 0
  {
    var isNegative := cleaned != [] && cleaned[0] == '-';
    var unsigned := if isNegative then cleaned[1..] else cleaned;
    match Magnitude(unsigned)
    case None => None
    case Some(m) =>
      NegatedTens(m);
      Some(if isNegative then -m else m)
  }

  lemma NegatedTens(m: int)
    requires m % 10 == 0
    ensures (-m) % 10 == 0
  {
    var q := m / 10;
    assert m == 10 * q;
    assert -m == 10 * -q;
  }

  lemma ThousandsAndTens(units: int, cents: int)
    ensures (units * 1000 + cents * 10) % 10 == 0 && (units * 1000) % 10 == 0
  {
    assert units * 1000 + cents * 10 == (units * 100 + cents) * 10;
    assert units * 1000 == (units * 100) * 10;
  }

  /** The cents the fraction digits after the point denote: two digits, zero padded, the rest dropped. */
  function FractionCents(fraction: string): (c: nat)
    requires AllDigits(fraction)
    ensures c < 100
  {
    if |fraction| >= 2 then DigitVal(fraction[0]) * 10 + DigitVal(fraction[1])
    else if |fraction| == 1 then DigitVal(fraction[0]) * 10
    else 0
  }

  lemma {:induction false} CentsTextValue(fraction: string)
    requires AllDigits(fraction)
    ensures AllDigits(CentsText(fraction)) && Val(CentsText(fraction)) == FractionCents(fraction)
  {
    var t := CentsText(fraction);
    assert t == [t[0]] + [t[1]];
    if |fraction| >= 2 {
      assert t[0] == fraction[0] && t[1] == fraction[1];
    } else if |fraction| == 1 {
      assert t[0] == fraction[0] && t[1] == '0';
    } else {
      assert t[0] == '0' && t[1] == '0';
    }
    ValAppend([t[0]], [t[1]]);
    ValSingle(t[0]);
    ValSingle(t[1]);
  }

  /** A leading `-` negates what the rest denotes; without it the rest is read as it is. */
  lemma {:induction false} CleanedSign(negative: bool, unsigned: string, m: int)
    requires unsigned != [] && unsigned[0] != '-' && Magnitude(unsigned) == Some(m)
    ensures ParseCleaned((if negative then "-" else "") + unsigned) == Some(if negative then -m else m)
  {
    if negative {
      var cleaned := "-" + unsigned;
      assert cleaned[0] == '-' && cleaned[1..] == unsigned;
      ParseCleanedOf(cleaned, true, unsigned, m);
      assert (if negative then "-" else "") + unsigned == cleaned;
    } else {
      ParseCleanedOf(unsigned, false, unsigned, m);
      assert (if negative then "-" else "") + unsigned == unsigned;
    }
  }

  lemma ParseCleanedOf(cleaned: string, negative: bool, unsigned: string, m: int)
    requires negative == (cleaned != [] && cleaned[0] == '-')
    requires unsigned == if negative then cleaned[1..] else cleaned
    requires Magnitude(unsigned) == Some(m)
    ensures ParseCleaned(cleaned) == Some(if negative then -m else m)
  {
  }

  /** The magnitude of whole units `d`, a point, fraction digits `f` and a `tail` behind a second point. */
  lemma {:induction false} MagnitudeDecimal(d: string, f: string, tail: string, m: int)
    requires d != [] && AllDigits(d) && AllDigits(f)
    requires tail == [] || tail[0] == '.'
    requires m == Val(d) * 1000 + FractionCents(f) * 10
    ensures Magnitude(d + "." + (f + tail)) == Some(m)
  {
    DigitsHoldNoPoint(d);
    DigitsHoldNoPoint(f);
    FirstPoint(d, f + tail);
    assert Before(f + tail, '.') == f by {
      if tail != [] {
        assert tail == "." + tail[1..];
        assert f + tail == f + "." + tail[1..];
        FirstPoint(f, tail[1..]);
      } else {
        assert f + tail == f;
      }
    }
    CentsTextValue(f);
    var u := d + "." + (f + tail);
    assert u[..IndexOf(u, '.')] == d;
    ParseIntDigits(d);
    var cents := CentsText(Before(u[IndexOf(u, '.') + 1..], '.'));
    assert cents == CentsText(f);
    ParseIntDigits(cents);
  }

  /** What a cleaned decimal amount parses to, `m` milliunits in magnitude; text behind a second point is ignored. */
  lemma {:induction false} CleanedDecimal(negative: bool, d: string, f: string, tail: string, m: int)
    requires d != [] && AllDigits(d) && AllDigits(f)
    requires tail == [] || tail[0] == '.'
    requires m == Val(d) * 1000 + FractionCents(f) * 10
    ensures ParseCleaned((if negative then "-" else "") + (d + "." + (f + tail))) == Some(if negative then -m else m)
  {
    var u := d + "." + (f + tail);
    MagnitudeDecimal(d, f, tail, m);
    UnsignedDecimal(d, f, tail);
    CleanedSign(negative, u, m);
  }

  /** A decimal amount starts with a digit, not with a sign. */
  lemma {:induction false} UnsignedDecimal(d: string, f: string, tail: string)
    requires d != [] && AllDigits(d)
    ensures (d + "." + (f + tail)) != [] && (d + "." + (f + tail))[0] != '-'
  {
    assert (d + "." + (f + tail))[0] == d[0] && IsDigit(d[0]);
  }

  /** Text with no whitespace and no `$` or `,` is parsed as it stands. */
  lemma {:induction false} ParseCleanText(value: string)
    requires NoneIn(value, WHITESPACE + SYMBOL_CHARS)
    ensures LegacyParse(value) == ParseCleaned(value)
  {
    CleanupKeeps(value);
  }

  /** Text with no whitespace and no `$` or `,` comes out of the cleanup as it went in. */
  lemma {:induction false} CleanupKeeps(value: string)
    requires NoneIn(value, WHITESPACE + SYMBOL_CHARS)
    ensures Remove(Strip(value, WHITESPACE), SYMBOL_CHARS) == value
  {
    if value != [] {
      assert value[0] !in WHITESPACE + SYMBOL_CHARS;
      assert value[|value| - 1] !in WHITESPACE + SYMBOL_CHARS;
    }
    StripUnchanged(value, WHITESPACE);
    assert NoneIn(value, SYMBOL_CHARS) by {
      forall i | 0 <= i < |value| ensures value[i] !in SYMBOL_CHARS {
        assert value[i] !in WHITESPACE + SYMBOL_CHARS;
      }
    }
    RemoveNoneIn(value, SYMBOL_CHARS);
  }

  lemma {:induction false} NoneInAppend(a: string, b: string, cs: set<char>)
    requires NoneIn(a, cs) && NoneIn(b, cs)
    ensures NoneIn(a + b, cs)
  {
    forall i | 0 <= i < |a + b| ensures (a + b)[i] !in cs {
      if i < |a| {
        assert (a + b)[i] == a[i];
      } else {
        assert (a + b)[i] == b[i - |a|];
      }
    }
  }

  /** Digits are neither whitespace nor deleted symbols. */
  lemma {:induction false} DigitsSurviveCleanup(d: string)
    requires AllDigits(d)
    ensures NoneIn(d, WHITESPACE + SYMBOL_CHARS)
  {
    forall i | 0 <= i < |d| ensures d[i] !in WHITESPACE + SYMBOL_CHARS {
      assert IsDigit(d[i]);
    }
  }

  /** `-`, `.` and digits survive the cleanup, so a signed decimal does too. */
  lemma {:induction false} DecimalSurvivesCleanup(negative: bool, d: string, f: string, tail: string)
    requires AllDigits(d) && AllDigits(f) && NoneIn(tail, WHITESPACE + SYMBOL_CHARS)
    ensures NoneIn((if negative then "-" else "") + (d + "." + (f + tail)), WHITESPACE + SYMBOL_CHARS)
  {
    var cs := WHITESPACE + SYMBOL_CHARS;
    DigitsSurviveCleanup(d);
    DigitsSurviveCleanup(f);
    NoneInAppend(f, tail, cs);
    NoneInAppend(d, ".", cs);
    NoneInAppend(d + ".", f + tail, cs);
    assert d + "." + (f + tail) == (d + ".") + (f + tail);
    NoneInAppend(if negative then "-" else "", d + "." + (f + tail), cs);
  }

  /**
   * How a decimal amount parses: whole units `d`, fraction digits `f`,
   * and anything behind a second point (`tail`), which is ignored; `m`
   * is the magnitude, whole units in thousands and truncated cents in tens.
   */
  lemma {:induction false} LegacyParseDecimal(negative: bool, d: string, f: string, tail: string, m: int)
    requires d != [] && AllDigits(d) && AllDigits(f)
    requires tail == [] || tail[0] == '.'
    requires NoneIn(tail, WHITESPACE + SYMBOL_CHARS)
    requires m == Val(d) * 1000 + FractionCents(f) * 10
    ensures LegacyParse((if negative then "-" else "") + (d + "." + (f + tail))) == Some(if negative then -m else m)
  {
    var value := (if negative then "-" else "") + (d + "." + (f + tail));
    DecimalSurvivesCleanup(negative, d, f, tail);
    ParseCleanText(value);
    CleanedDecimal(negative, d, f, tail, m);
  }

  lemma {:induction false} MagnitudeWhole(d: string)
    requires d != [] && AllDigits(d)
    ensures Magnitude(d) == Some(Val(d) * 1000)
  {
    DigitsHoldNoPoint(d);
  }

  /** How a whole amount without a point parses. */
  lemma {:induction false} LegacyParseWhole(negative: bool, d: string, m: int)
    requires d != [] && AllDigits(d)
    requires m == Val(d) * 1000
    ensures LegacyParse((if negative then "-" else "") + d) == Some(if negative then -m else m)
  {
    var value := (if negative then "-" else "") + d;
    DigitsSurviveCleanup(d);
    NoneInAppend(if negative then "-" else "", d, WHITESPACE + SYMBOL_CHARS);
    ParseCleanText(value);
    MagnitudeWhole(d);
    assert IsDigit(d[0]);
    CleanedSign(negative, d, m);
  }

  /** Blank text, the empty text included, does not parse. */
  lemma LegacyParseBlank(value: string)
    requires AllIn(value, WHITESPACE)
    ensures LegacyParse(value) == None
  {
    assert Strip(value, WHITESPACE) == [];
  }

  /** Text made only of `$` and `,` does not parse. */
  lemma LegacyParseSymbolsOnly(value: string)
    requires AllIn(value, SYMBOL_CHARS)
    ensures LegacyParse(value) == None
  {
    if value != [] {
      assert value[0] in SYMBOL_CHARS && value[|value| - 1] in SYMBOL_CHARS;
    }
    StripUnchanged(value, WHITESPACE);
    RemoveAllIn(value, SYMBOL_CHARS);
  }

  /** A sign on its own does not parse. */
  lemma LegacyParseSignOnly(value: string)
    requires value == "-"
    ensures LegacyParse(value) == None
  {
    ParseCleanText(value);
    assert value[1..] == [];
  }

  /** A point with no whole units before it is rejected: `int("")` raises. */
  lemma {:induction false} LeadingPointRejected(negative: bool, rest: string)
    ensures ParseCleaned((if negative then "-" else "") + ("." + rest)) == None
  {
    var unsigned := "." + rest;
    FirstPoint("", rest);
    assert "" + "." + rest == unsigned;
    assert unsigned[..0] == "";
    var cleaned := (if negative then "-" else "") + unsigned;
    assert (if cleaned != [] && cleaned[0] == '-' then cleaned[1..] else cleaned) == unsigned;
  }

  /** Letters are not an amount. */
  lemma {:induction false} LettersRejected()
    ensures ParseCleaned("abc") == None
  {
    assert !IsDigit("abc"[0]);
    assert '.' !in "abc";
  }

  /** The text `1.2.3`, which the parser reads as 1.20 units. */
  lemma {:induction false} SecondPointPieces()
    ensures "1.2.3" == "" + ("1" + "." + ("2" + ".3"))
    ensures AllDigits("1") && AllDigits("2") && NoneIn(".3", WHITESPACE + SYMBOL_CHARS)
    ensures Val("1") * 1000 + FractionCents("2") * 10 == 1200
  {
    assert ".3"[0] == '.' && ".3"[1] == '3';
    ValSingle('1');
  }

  /** A point with no whole units before it is rejected, whatever follows. */
  lemma {:induction false} LegacyParseLeadingPoint(negative: bool, rest: string)
    requires NoneIn(rest, WHITESPACE + SYMBOL_CHARS)
    ensures LegacyParse((if negative then "-" else "") + ("." + rest)) == None
  {
    var cs := WHITESPACE + SYMBOL_CHARS;
    NoneInAppend(".", rest, cs);
    NoneInAppend(if negative then "-" else "", "." + rest, cs);
    ParseCleanText((if negative then "-" else "") + ("." + rest));
    LeadingPointRejected(negative, rest);
  }

  /** Text after a second point is ignored: `1.2.3` reads as 1.20 units. */
  lemma {:induction false} LegacyParseSecondPoint()
    ensures LegacyParse("1.2.3") == Some(1200)
  {
    SecondPointPieces();
    LegacyParseDecimal(false, "1", "2", ".3", 1200);
  }

  /** Letters are rejected. */
  lemma {:induction false} LegacyParseLetters()
    ensures LegacyParse("abc") == None
  {
    assert NoneIn("abc", WHITESPACE + SYMBOL_CHARS) by {
      assert "abc"[0] == 'a' && "abc"[1] == 'b' && "abc"[2] == 'c';
    }
    ParseCleanText("abc");
    LettersRejected();
  }

  /** The magnitude of an amount without a point is its whole units in thousands. */
  lemma MagnitudeNoPoint(u: string, dollars: int)
    requires '.' !in u && ParseInt(u) == Some(dollars)
    ensures Magnitude(u) == Some(dollars * 1000)
  {
  }

  /** Whitespace is neither `$` nor `,`, so the symbol deletion keeps it. */
  lemma BlanksSurviveCleanup(w: string)
    requires AllIn(w, WHITESPACE)
    ensures NoneIn(w, SYMBOL_CHARS) && '.' !in w && '-' !in w
  {
    DisjointNoneIn(w, WHITESPACE, SYMBOL_CHARS);
    assert forall i :: 0 <= i < |w| ==> w[i] != '.' && w[i] != '-';
  }

  /** Whole units after blanks, with an optional sign between: `int()` skips the blanks. */
  lemma {:induction false} MagnitudeAfterBlanks(w: string, negative: bool, d: string)
    requires AllIn(w, WHITESPACE) && d != [] && AllDigits(d)
    ensures var n: int := Val(d);
            Magnitude(w + (if negative then "-" else "") + d) == Some((if negative then -n else n) * 1000)
  {
    var sign := if negative then "-" else "";
    var t := sign + d;
    var n: int := Val(d);
    assert t[0] != ' ' && t[0] !in WHITESPACE by {
      if negative { assert t[0] == '-'; } else { assert t[0] == d[0] && IsDigit(d[0]); }
    }
    assert t[|t| - 1] == d[|d| - 1] && IsDigit(d[|d| - 1]);
    assert w + t + [] == w + sign + d;
    ParseIntPadded(w, t, []);
    assert IntLiteral(t) == Some(if negative then -n else n) by {
      if negative {
        assert t[0] == '-' && t[1..] == d;
      } else {
        assert t == d;
      }
    }
    BlanksSurviveCleanup(w);
    DigitsHoldNoPoint(d);
    assert '.' !in w + sign + d by {
      assert forall i :: 0 <= i < |w + sign + d| ==> (w + sign + d)[i] != '.' by {
        forall i | 0 <= i < |w + sign + d| ensures (w + sign + d)[i] != '.' {
          if i < |w| {
            assert (w + sign + d)[i] == w[i];
          } else if i < |w| + |sign| {
            assert (w + sign + d)[i] == '-';
          } else {
            assert (w + sign + d)[i] == d[i - |w| - |sign|];
          }
        }
      }
    }
    MagnitudeNoPoint(w + sign + d, if negative then -n else n);
  }

  /** A single symbol between text without symbols is all the cleanup deletes. */
  lemma {:induction false} RemoveOneSymbol(a: string, c: char, b: string)
    requires NoneIn(a, SYMBOL_CHARS) && c in SYMBOL_CHARS && NoneIn(b, SYMBOL_CHARS)
    ensures Remove(a + [c] + b, SYMBOL_CHARS) == a + b
  {
    RemoveAppend(a + [c], b, SYMBOL_CHARS);
    RemoveAppend(a, [c], SYMBOL_CHARS);
    RemoveNoneIn(a, SYMBOL_CHARS);
    RemoveNoneIn(b, SYMBOL_CHARS);
    assert Remove([c], SYMBOL_CHARS) == [];
  }

  /** The cleanup deletes the `$` in front of blanks, a sign and digits. */
  lemma {:induction false} SymbolThenBlanksCleaned(w: string, sign: string, d: string)
    requires AllIn(w, WHITESPACE) && (sign == "" || sign == "-") && d != [] && AllDigits(d)
    ensures Remove("$" + w + sign + d, SYMBOL_CHARS) == w + sign + d
  {
    var rest := w + sign + d;
    BlanksSignDigitsKept(w, sign, d);
    RemoveOneSymbol([], '$', rest);
    assert [] + ['$'] + rest == "$" + w + sign + d && [] + rest == rest;
  }

  /** Blanks, an optional `-` and digits hold no symbol. */
  lemma {:induction false} BlanksSignDigitsKept(w: string, sign: string, d: string)
    requires AllIn(w, WHITESPACE) && (sign == "" || sign == "-") && AllDigits(d)
    ensures NoneIn(w + sign + d, SYMBOL_CHARS)
  {
    BlanksSurviveCleanup(w);
    SignDigitsKept(sign, d);
    NoneInAppend(w, sign + d, SYMBOL_CHARS);
    assert w + (sign + d) == w + sign + d;
  }

  /** An optional `-` and digits hold no symbol. */
  lemma {:induction false} SignDigitsKept(sign: string, d: string)
    requires (sign == "" || sign == "-") && AllDigits(d)
    ensures NoneIn(sign + d, SYMBOL_CHARS)
  {
    forall i | 0 <= i < |sign + d| ensures (sign + d)[i] !in SYMBOL_CHARS {
      if i < |sign| {
        assert (sign + d)[i] == '-';
      } else {
        assert (sign + d)[i] == d[i - |sign|] && IsDigit(d[i - |sign|]);
      }
    }
  }

  /** Blanks, an optional `-` and digits, as the cleanup leaves them, read as the signed whole units. */
  lemma {:induction false} CleanedAfterBlanks(w: string, negative: bool, d: string)
    requires AllIn(w, WHITESPACE) && d != [] && AllDigits(d)
    ensures var n: int := Val(d);
            ParseCleaned(w + (if negative then "-" else "") + d) == Some((if negative then -n else n) * 1000)
  {
    var sign := if negative then "-" else "";
    var rest := w + sign + d;
    var n: int := Val(d);
    if w == [] {
      MagnitudeWhole(d);
      assert IsDigit(d[0]);
      CleanedSign(negative, d, n * 1000);
      assert rest == sign + d;
      assert (if negative then -(n * 1000) else n * 1000) == (if negative then -n else n) * 1000;
    } else {
      assert rest[0] == w[0] && w[0] in WHITESPACE;
      MagnitudeAfterBlanks(w, negative, d);
      ParseCleanedOf(rest, false, rest, (if negative then -n else n) * 1000);
    }
  }

  /**
   * Whitespace may follow the symbol: `int()` skips it, so `"$ 5"` reads as
   * 5 units and `"$ -5"` as -5.
   */
  lemma {:induction false} LegacyParseBlankAfterSymbol(w: string, negative: bool, d: string)
    requires AllIn(w, WHITESPACE) && d != [] && AllDigits(d)
    ensures var n: int := Val(d);
            LegacyParse("$" + w + (if negative then "-" else "") + d) == Some((if negative then -n else n) * 1000)
  {
    var sign := if negative then "-" else "";
    var value := "$" + w + sign + d;
    CleanedAfterBlanks(w, negative, d);
    SymbolThenBlanksCleaned(w, sign, d);
    assert value[0] == '$' && value[|value| - 1] == d[|d| - 1] && IsDigit(d[|d| - 1]);
    CleanupOf(value, w + sign + d);
    ParseThroughCleanup(value, w + sign + d);
  }

  /** The cleanup deletes a `$` between a sign, blanks and digits. */
  lemma {:induction false} SignThenSymbolCleaned(w: string, d: string)
    requires AllIn(w, WHITESPACE) && d != [] && AllDigits(d)
    ensures Remove("-" + w + "$" + d, SYMBOL_CHARS) == "-" + (w + d)
  {
    assert NoneIn("-" + w, SYMBOL_CHARS) by {
      BlanksSurviveCleanup(w);
      SignDigitsKept("-", []);
      assert "-" + [] == "-";
      NoneInAppend("-", w, SYMBOL_CHARS);
    }
    SignDigitsKept("", d);
    assert "" + d == d;
    RemoveOneSymbol("-" + w, '$', d);
    assert "-" + w + "$" + d == ("-" + w) + ['$'] + d;
    assert ("-" + w) + d == "-" + (w + d);
  }

  /** A `-`, blanks and digits, as the cleanup leaves them, read as the negated whole units. */
  lemma {:induction false} CleanedSignBlanks(w: string, d: string)
    requires AllIn(w, WHITESPACE) && d != [] && AllDigits(d)
    ensures ParseCleaned("-" + (w + d)) == Some(-(Val(d) * 1000))
  {
    var cleaned := "-" + (w + d);
    assert cleaned[0] == '-' && cleaned[1..] == w + d;
    MagnitudeAfterBlanks(w, false, d);
    assert w + "" + d == w + d;
    ParseCleanedOf(cleaned, true, w + d, Val(d) * 1000);
  }

  /** Whitespace may follow the sign when a symbol stands between: `"- $5"` reads as -5 units. */
  lemma {:induction false} LegacyParseBlankAfterSign(w: string, d: string)
    requires AllIn(w, WHITESPACE) && d != [] && AllDigits(d)
    ensures LegacyParse("-" + w + "$" + d) == Some(-(Val(d) * 1000))
  {
    var value := "-" + w + "$" + d;
    CleanedSignBlanks(w, d);
    SignThenSymbolCleaned(w, d);
    assert value[0] == '-' && value[|value| - 1] == d[|d| - 1] && IsDigit(d[|d| - 1]);
    CleanupOf(value, "-" + (w + d));
    ParseThroughCleanup(value, "-" + (w + d));
  }

  /** Digits, a point, a blank and a digit pass the cleanup unchanged. */
  lemma {:induction false} BlankCentsCleaned(d: string, b: char, c: char)
    requires d != [] && AllDigits(d) && b in WHITESPACE && IsDigit(c)
    ensures Remove(d + "." + [b, c], SYMBOL_CHARS) == d + "." + [b, c]
  {
    var value := d + "." + [b, c];
    assert NoneIn(value, SYMBOL_CHARS) by {
      forall i | 0 <= i < |value| ensures value[i] !in SYMBOL_CHARS {
        if i < |d| {
          assert value[i] == d[i] && IsDigit(d[i]);
        }
      }
    }
    RemoveNoneIn(value, SYMBOL_CHARS);
  }

  /** A blank before the one cents digit is skipped by `int()`. */
  lemma {:induction false} MagnitudeBlankCents(d: string, b: char, c: char)
    requires d != [] && AllDigits(d) && b in WHITESPACE && IsDigit(c)
    ensures Magnitude(d + "." + [b, c]) == Some(Val(d) * 1000 + DigitVal(c) * 10)
  {
    var u := d + "." + [b, c];
    DigitsHoldNoPoint(d);
    FirstPoint(d, [b, c]);
    assert '.' !in [b, c];
    assert ParseInt(u[..IndexOf(u, '.')]) == Some(Val(d));
    var cents := CentsText(Before(u[IndexOf(u, '.') + 1..], '.'));
    assert cents == [b, c];
    assert [b] + [c] + [] == [b, c];
    ParseIntPadded([b], [c], []);
    ValSingle(c);
    assert ParseInt(cents) == Some(DigitVal(c));
  }

  /**
   * One blank may open the cents, as `int(" 5")` allows: `"1. 5"` reads as
   * 1.05 units.
   */
  lemma {:induction false} LegacyParseBlankInCents(d: string, b: char, c: char)
    requires d != [] && AllDigits(d) && b in WHITESPACE && IsDigit(c)
    ensures LegacyParse(d + "." + [b, c]) == Some(Val(d) * 1000 + DigitVal(c) * 10)
  {
    var value := d + "." + [b, c];
    MagnitudeBlankCents(d, b, c);
    assert value[0] == d[0] && IsDigit(d[0]);
    ParseCleanedOf(value, false, value, Val(d) * 1000 + DigitVal(c) * 10);
    BlankCentsCleaned(d, b, c);
    assert value[|value| - 1] == c;
    CleanupOf(value, value);
    ParseThroughCleanup(value, value);
  }

  // ---------------------------------------------------------------- format_currency

  /** `f"{dollars}.{cents:02d}"` for an amount of whole cents. */
  function ValuePart(totalCents: nat): (v: string)
    ensures '.' in v
    ensures var dot := IndexOf(v, '.');
            && v[..dot] != [] && AllDigits(v[..dot]) && AllDigits(v[dot + 1..]) && |v[dot + 1..]| == 2
            && Val(v[..dot]) * 100 + Val(v[dot + 1..]) == totalCents
  {
    var dollars := NatToDigits(totalCents / 100);
    assert totalCents % 100 < Pow10(2);
    var cents := FixedDigits(totalCents % 100, 2);
    DigitsHoldNoPoint(dollars);
    FirstPoint(dollars, cents);
    dollars + "." + cents
  }

  /**
   * `format_currency`: the amount truncated to whole cents, with the
   * symbol before or after it and a `-` in front of both for a negative
   * amount.
   */
  function LegacyFormat(milliunits: int, symbol: string, symbolFirst: bool): string
  {
    var valuePart := ValuePart(Abs(milliunits) / 10);
    var formatted := if symbolFirst then symbol + valuePart else valuePart + symbol;
    if milliunits < 0 then "-" + formatted else formatted
  }

  /** The defaults of `format_currency`. */
  function LegacyFormatDefault(milliunits: int): string
  {
    LegacyFormat(milliunits, "$", true)
  }

  /**
   * The sign and the truncated cents are all a formatted amount depends
   * on, and the `-` comes first whatever the symbol's position.
   */
  lemma {:induction false} LegacyFormatShape(milliunits: int, symbol: string, symbolFirst: bool)
    ensures var s := LegacyFormat(milliunits, symbol, symbolFirst);
            var body := if milliunits < 0 then s[1..] else s;
            var v := if symbolFirst then body[|symbol|..] else body[..|body| - |symbol|];
            && (milliunits < 0 ==> s[0] == '-')
            && |body| >= |symbol|
            && (if symbolFirst then body[..|symbol|] else body[|body| - |symbol|..]) == symbol
            && v == ValuePart(Abs(milliunits) / 10)
  {
    var v := ValuePart(Abs(milliunits) / 10);
    var formatted := if symbolFirst then symbol + v else v + symbol;
    var s := LegacyFormat(milliunits, symbol, symbolFirst);
    assert (if milliunits < 0 then s[1..] else s) == formatted;
    if symbolFirst {
      assert formatted[..|symbol|] == symbol && formatted[|symbol|..] == v;
    } else {
      assert formatted[|formatted| - |symbol|..] == symbol && formatted[..|formatted| - |symbol|] == v;
    }
  }

  /** An amount of less than a cent in magnitude shows as zero but keeps its sign: -5 shows as `-$0.00`. */
  lemma {:induction false} LegacyFormatSubCent(milliunits: int, symbol: string, symbolFirst: bool)
    requires -10 < milliunits < 10
    ensures LegacyFormat(milliunits, symbol, symbolFirst)
         == (if milliunits < 0 then "-" else "") + (if symbolFirst then symbol + "0.00" else "0.00" + symbol)
  {
    assert Abs(milliunits) / 10 == 0;
    ValuePartZero();
    LegacyFormatOf(milliunits, symbol, symbolFirst, "0.00");
  }

  lemma ValuePartZero()
    ensures ValuePart(0) == "0.00"
  {
    ZeroDigits();
    assert 0 / 100 == 0 && 0 % 100 == 0;
  }

  /** The layout of a formatted amount around its value part `v`. */
  lemma LegacyFormatOf(milliunits: int, symbol: string, symbolFirst: bool, v: string)
    requires ValuePart(Abs(milliunits) / 10) == v
    ensures LegacyFormat(milliunits, symbol, symbolFirst)
         == (if milliunits < 0 then "-" else "") + (if symbolFirst then symbol + v else v + symbol)
  {
    var formatted := if symbolFirst then symbol + v else v + symbol;
    if milliunits >= 0 {
      assert "" + formatted == formatted;
    }
  }

  /** Text whose ends are not whitespace loses only its `$` and `,` in the cleanup. */
  lemma {:induction false} CleanupOf(value: string, cleaned: string)
    requires value != [] ==> value[0] !in WHITESPACE && value[|value| - 1] !in WHITESPACE
    requires Remove(value, SYMBOL_CHARS) == cleaned
    ensures Remove(Strip(value, WHITESPACE), SYMBOL_CHARS) == cleaned
  {
    StripUnchanged(value, WHITESPACE);
  }

  /** A formatted amount neither starts nor ends with whitespace. */
  lemma {:induction false} FormattedEnds(negative: bool, symbol: string, v: string, symbolFirst: bool)
    requires AllIn(symbol, SYMBOL_CHARS) && v != [] && NoneIn(v, WHITESPACE + SYMBOL_CHARS)
    ensures var s := (if negative then "-" else "") + (if symbolFirst then symbol + v else v + symbol);
            s[0] !in WHITESPACE && s[|s| - 1] !in WHITESPACE
  {
    var sign := if negative then "-" else "";
    var formatted := if symbolFirst then symbol + v else v + symbol;
    var s := sign + formatted;
    assert s[|s| - 1] == formatted[|formatted| - 1];
    if symbolFirst {
      assert formatted[|formatted| - 1] == v[|v| - 1];
    } else if symbol != [] {
      assert formatted[|formatted| - 1] == symbol[|symbol| - 1];
    }
    if !negative {
      assert s[0] == formatted[0];
      if symbolFirst && symbol != [] {
        assert formatted[0] == symbol[0];
      } else {
        assert formatted[0] == v[0];
      }
    }
  }

  /** Deleting `$` and `,` from a formatted amount leaves its sign and its value part. */
  lemma {:induction false} FormattedSymbolsRemoved(negative: bool, symbol: string, v: string, symbolFirst: bool)
    requires AllIn(symbol, SYMBOL_CHARS) && NoneIn(v, WHITESPACE + SYMBOL_CHARS)
    ensures var sign := if negative then "-" else "";
            Remove(sign + (if symbolFirst then symbol + v else v + symbol), SYMBOL_CHARS) == sign + v
  {
    var sign := if negative then "-" else "";
    RemoveAllIn(symbol, SYMBOL_CHARS);
    assert NoneIn(v, SYMBOL_CHARS) by {
      forall i | 0 <= i < |v| ensures v[i] !in SYMBOL_CHARS {
        assert v[i] !in WHITESPACE + SYMBOL_CHARS;
      }
    }
    RemoveNoneIn(v, SYMBOL_CHARS);
    RemoveNoneIn(sign, SYMBOL_CHARS);
    if symbolFirst {
      RemoveThree(sign, symbol, v, SYMBOL_CHARS);
    } else {
      RemoveThree(sign, v, symbol, SYMBOL_CHARS);
    }
  }

  lemma RemoveThree(a: string, b: string, c: string, cs: set<char>)
    ensures Remove(a + (b + c), cs) == Remove(a, cs) + Remove(b, cs) + Remove(c, cs)
  {
    AppendAssociates(a, b, c);
    RemoveAppend(a + b, c, cs);
    RemoveAppend(a, b, cs);
  }

  /** The cleanup of a formatted amount leaves its sign and its value part. */
  lemma {:induction false} FormattedCleanup(negative: bool, symbol: string, v: string, symbolFirst: bool)
    requires AllIn(symbol, SYMBOL_CHARS) && v != [] && NoneIn(v, WHITESPACE + SYMBOL_CHARS)
    ensures var sign := if negative then "-" else "";
            Remove(Strip(sign + (if symbolFirst then symbol + v else v + symbol), WHITESPACE), SYMBOL_CHARS) == sign + v
  {
    var sign := if negative then "-" else "";
    FormattedEnds(negative, symbol, v, symbolFirst);
    FormattedSymbolsRemoved(negative, symbol, v, symbolFirst);
    CleanupOf(sign + (if symbolFirst then symbol + v else v + symbol), sign + v);
  }

  lemma {:induction false} TwoDigitCents(f: string)
    requires AllDigits(f) && |f| == 2
    ensures FractionCents(f) == Val(f)
  {
    assert f == [f[0]] + [f[1]];
    ValAppend([f[0]], [f[1]]);
    ValSingle(f[0]);
    ValSingle(f[1]);
  }

  lemma ScaleCents(dollars: int, cents: int, total: int)
    requires dollars * 100 + cents == total
    ensures dollars * 1000 + cents * 10 == total * 10
  {
  }

  /** What the parser reads is what the cleanup leaves. */
  lemma {:induction false} ParseThroughCleanup(value: string, cleaned: string)
    requires Remove(Strip(value, WHITESPACE), SYMBOL_CHARS) == cleaned
    ensures LegacyParse(value) == ParseCleaned(cleaned)
  {
  }

  /** The value part of `totalCents` cents reads back as `m`, the same amount in milliunits. */
  lemma {:induction false} ValuePartReadsBack(negative: bool, totalCents: nat, m: int)
    requires m == totalCents * 10
    ensures ParseCleaned((if negative then "-" else "") + ValuePart(totalCents)) == Some(if negative then -m else m)
  {
    var v := ValuePart(totalCents);
    var dot := IndexOf(v, '.');
    var d, f := v[..dot], v[dot + 1..];
    assert v == d + "." + (f + []);
    TwoDigitCents(f);
    ScaleCents(Val(d), Val(f), totalCents);
    CleanedDecimal(negative, d, f, [], m);
  }

  /** The value part holds only digits and a point. */
  lemma {:induction false} ValuePartSurvivesCleanup(totalCents: nat)
    ensures ValuePart(totalCents) != [] && NoneIn(ValuePart(totalCents), WHITESPACE + SYMBOL_CHARS)
  {
    assert totalCents % 100 < Pow10(2);
    var d, f := NatToDigits(totalCents / 100), FixedDigits(totalCents % 100, 2);
    assert ValuePart(totalCents) == "" + (d + "." + (f + []));
    DecimalSurvivesCleanup(false, d, f, []);
  }

  /** A formatted amount of `totalCents` cents, with its sign and symbol, reads back as `m` milliunits. */
  lemma {:induction false} FormattedReadsBack(negative: bool, symbol: string, symbolFirst: bool, totalCents: nat, m: int)
    requires AllIn(symbol, SYMBOL_CHARS) && m == totalCents * 10
    ensures var v := ValuePart(totalCents);
            LegacyParse((if negative then "-" else "") + (if symbolFirst then symbol + v else v + symbol)) == Some(if negative then -m else m)
  {
    var v := ValuePart(totalCents);
    ValuePartSurvivesCleanup(totalCents);
    FormattedCleanup(negative, symbol, v, symbolFirst);
    var sign := if negative then "-" else "";
    ParseThroughCleanup(sign + (if symbolFirst then symbol + v else v + symbol), sign + v);
    ValuePartReadsBack(negative, totalCents, m);
  }

  /** `milliunits` truncated toward zero to whole cents, as `format_currency` shows it. */
  function TruncatedToCents(milliunits: int): (t: int)
    ensures t % 10 == 0
    ensures Abs(t) <= Abs(milliunits) && Abs(milliunits) - Abs(t) < 10
    ensures t < 0 ==> milliunits < 0
    ensures t > 0 ==> milliunits > 0
  {
    if milliunits < 0 then -(Abs(milliunits) / 10 * 10) else Abs(milliunits) / 10 * 10
  }

  /**
   * Round trip: a formatted amount parses back to the amount truncated
   * toward zero to whole cents, for any symbol made of the characters the
   * parser deletes (the default `$` among them).
   */
  lemma {:induction false} LegacyRoundTrip(milliunits: int, symbol: string, symbolFirst: bool)
    requires AllIn(symbol, SYMBOL_CHARS)
    ensures LegacyParse(LegacyFormat(milliunits, symbol, symbolFirst)) == Some(TruncatedToCents(milliunits))
  {
    var totalCents := Abs(milliunits) / 10;
    var m := totalCents * 10;
    FormattedReadsBack(milliunits < 0, symbol, symbolFirst, totalCents, m);
    var v := ValuePart(totalCents);
    var formatted := if symbolFirst then symbol + v else v + symbol;
    assert LegacyFormat(milliunits, symbol, symbolFirst) == (if milliunits < 0 then "-" else "") + formatted;
    assert TruncatedToCents(milliunits) == if milliunits < 0 then -m else m;
  }

  lemma WholeTens(milliunits: int)
    requires milliunits % 10 == 0
    ensures TruncatedToCents(milliunits) == milliunits
  {
    var k := milliunits / 10;
    assert milliunits == 10 * k;
    if milliunits < 0 {
      assert Abs(milliunits) == 10 * -k;
      assert Abs(milliunits) / 10 == -k;
    } else {
      assert Abs(milliunits) / 10 == k;
    }
  }

  /** Amounts in whole cents survive the round trip unchanged. */
  lemma {:induction false} LegacyRoundTripExact(milliunits: int, symbol: string, symbolFirst: bool)
    requires AllIn(symbol, SYMBOL_CHARS) && milliunits % 10 == 0
    ensures LegacyParse(LegacyFormat(milliunits, symbol, symbolFirst)) == Some(milliunits)
  {
    LegacyRoundTrip(milliunits, symbol, symbolFirst);
    WholeTens(milliunits);
  }
}
