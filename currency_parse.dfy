/**
 * `parse_currency_to_milliunits` of src/ynab_updater/utils.py: free text to
 * integer milliunits (1/1000 of a currency unit), through three stages:
 * character cleanup, sign normalisation, and decimal conversion rounded to
 * three fractional digits. Python's binary `float` is replaced by the exact
 * decimal the text denotes.
 */
module CurrencyParse {
  import opened Wrappers
  import opened Text

  /** What `INVALID_CURRENCY_REGEXP` (`[^\d\.,+\-]`) leaves in place. */
  const CURRENCY_CHARS: set<char> := DIGITS + {'.', ',', '+', '-'}

  /** The characters `strip(".,+")` removes from both ends. */
  const EDGE_CHARS: set<char> := {'.', ',', '+'}

  /** The class `[+\-\s]` of `LEADING_PM_SIGNS_REGEXP`. */
  const SIGN_RUN_CHARS: set<char> := {'+', '-'} + WHITESPACE

  /** The two `ValueError`s raised inside the pipeline. */
  datatype ParseError = MixedSigns(value: string) | NotANumber(value: string)

  /** A decimal number as Python's `float()` reads it, before any rounding. */
  datatype Decimal = Decimal(negative: bool, intDigits: string, fracDigits: string)

  // ------------------------------------------------------------ stage 1

  /** `_cleanup_currency_value` */
  function Cleanup(value: string): (r: string)
    ensures AllIn(r, CURRENCY_CHARS)
    ensures r != [] ==> r[0] !in EDGE_CHARS && r[|r| - 1] !in EDGE_CHARS
    ensures var kept := Keep(value, CURRENCY_CHARS);
            kept != [] && kept[0] == '.' ==> r != [] && r[0] == '0'
  {
    var fixed := RepairLeadingPoint(Keep(value, CURRENCY_CHARS));
    StripAllIn(fixed, EDGE_CHARS, CURRENCY_CHARS);
    StripKeepsZero(fixed);
    Strip(fixed, EDGE_CHARS)
  }

  /** The `0` put in front of a leading point. */
  function RepairLeadingPoint(cleaned: string): (fixed: string)
    requires AllIn(cleaned, CURRENCY_CHARS)
    ensures AllIn(fixed, CURRENCY_CHARS)
    ensures cleaned != [] && cleaned[0] == '.' ==> fixed != [] && fixed[0] == '0'
  {
    if cleaned != [] && cleaned[0] == '.' then
      var once := LStrip(cleaned, {'.'});
      SuffixAllIn(cleaned, LeadingRun(cleaned, {'.'}), CURRENCY_CHARS);
      SuffixAllIn(once, LeadingRun(once, {','}), CURRENCY_CHARS);
      var rest := LStrip(once, {','});
      PointZeroAllIn(rest);
      "0." + rest
    else cleaned
  }

  lemma PointZeroAllIn(rest: string)
    requires AllIn(rest, CURRENCY_CHARS)
    ensures AllIn("0." + rest, CURRENCY_CHARS)
  {
    var fixed := "0." + rest;
    forall i | 0 <= i < |fixed| ensures fixed[i] in CURRENCY_CHARS {
      if i >= 2 {
        assert fixed[i] == rest[i - 2];
      }
    }
  }

  lemma StripKeepsZero(fixed: string)
    ensures fixed != [] && fixed[0] == '0' ==> Strip(fixed, EDGE_CHARS) != [] && Strip(fixed, EDGE_CHARS)[0] == '0'
  {
    if fixed != [] && fixed[0] == '0' {
      LeadingRunIs(fixed, EDGE_CHARS, 0);
    }
  }

  lemma SuffixAllIn(s: string, k: nat, cs: set<char>)
    requires AllIn(s, cs) && k <= |s|
    ensures AllIn(s[k..], cs)
  {
    forall i | 0 <= i < |s[k..]| ensures s[k..][i] in cs {
      assert s[k..][i] == s[k + i];
    }
  }

  lemma StripAllIn(s: string, cs: set<char>, keep: set<char>)
    requires AllIn(s, keep)
    ensures AllIn(Strip(s, cs), keep)
  {
    var r := Strip(s, cs);
    var n := LeadingRun(s, cs);
    forall i | 0 <= i < |r| ensures r[i] in keep {
      assert r[i] == s[n + i];
    }
  }

  /** Cleaning a cleaned value changes nothing. */
  lemma CleanupIdempotent(value: string)
    ensures Cleanup(Cleanup(value)) == Cleanup(value)
  {
    var r := Cleanup(value);
    KeepAllIn(r, CURRENCY_CHARS);
    StripUnchanged(r, EDGE_CHARS);
  }

  /** Only the characters in CURRENCY_CHARS influence the cleaned value. */
  lemma CleanupIgnoresOtherChars(value: string)
    ensures Cleanup(value) == Cleanup(Keep(value, CURRENCY_CHARS))
  {
    KeepAllIn(Keep(value, CURRENCY_CHARS), CURRENCY_CHARS);
  }

  /** Values that keep the same characters of CURRENCY_CHARS are cleaned alike. */
  lemma CleanupReadsKept(a: string, b: string)
    requires Keep(a, CURRENCY_CHARS) == Keep(b, CURRENCY_CHARS)
    ensures Cleanup(a) == Cleanup(b)
  {
  }

  /**
   * The repair of a leading point: the points that open the text, and
   * any commas right behind them, become `0.`, so `.5` and `..,5` clean
   * to `0.5`.
   */
  lemma {:induction false} CleanupLeadingPoint(points: string, commas: string, d: string)
    requires points != [] && AllIn(points, {'.'}) && AllIn(commas, {','})
    requires d != [] && AllDigits(d)
    ensures Cleanup(points + commas + d) == "0." + d
  {
    var s := points + commas + d;
    LeadingPointChars(points, commas, d);
    CleanupOfCurrencyText(s);
    RepairPoints(points, commas, d);
    ZeroPointKept(d);
  }

  /** `0.` and digits have nothing for the strip to remove. */
  lemma {:induction false} ZeroPointKept(d: string)
    requires d != [] && AllDigits(d)
    ensures Strip("0." + d, EDGE_CHARS) == "0." + d
  {
    var fixed := "0." + d;
    assert fixed[|fixed| - 1] == d[|d| - 1] && IsDigit(d[|d| - 1]);
    StripUnchanged(fixed, EDGE_CHARS);
  }

  /** On text of CURRENCY_CHARS the cleanup is the repair of a leading point, then the strip. */
  lemma CleanupOfCurrencyText(x: string)
    requires AllIn(x, CURRENCY_CHARS)
    ensures Cleanup(x) == Strip(RepairLeadingPoint(x), EDGE_CHARS)
  {
    KeepAllIn(x, CURRENCY_CHARS);
  }

  lemma {:induction false} LeadingPointChars(points: string, commas: string, d: string)
    requires AllIn(points, {'.'}) && AllIn(commas, {','}) && AllDigits(d)
    ensures AllIn(points + commas + d, CURRENCY_CHARS)
  {
    var s := points + commas + d;
    forall i | 0 <= i < |s| ensures s[i] in CURRENCY_CHARS {
      if i < |points| {
        assert s[i] == points[i];
      } else if i < |points| + |commas| {
        assert s[i] == commas[i - |points|];
      } else {
        assert s[i] == d[i - |points| - |commas|];
        DigitsSet(d[i - |points| - |commas|]);
      }
    }
  }

  /** The points and then the commas are peeled off, and `0.` takes their place. */
  lemma {:induction false} RepairPoints(points: string, commas: string, d: string)
    requires points != [] && AllIn(points, {'.'}) && AllIn(commas, {','})
    requires d != [] && AllDigits(d)
    requires AllIn(points + commas + d, CURRENCY_CHARS)
    ensures RepairLeadingPoint(points + commas + d) == "0." + d
  {
    var s := points + commas + d;
    var rest := commas + d;
    assert s == points + rest;
    PointsRun(points, rest);
    CommasRun(commas, d);
  }

  lemma {:induction false} PointsRun(points: string, rest: string)
    requires points != [] && AllIn(points, {'.'})
    requires rest != [] && rest[0] != '.'
    ensures (points + rest)[0] == '.' && LStrip(points + rest, {'.'}) == rest
  {
    var s := points + rest;
    forall i | 0 <= i < |points| ensures s[i] in {'.'} {
      assert s[i] == points[i];
    }
    assert s[|points|] == rest[0];
    LeadingRunIs(s, {'.'}, |points|);
    assert s[|points|..] == rest;
  }

  lemma {:induction false} CommasRun(commas: string, d: string)
    requires AllIn(commas, {','}) && d != [] && AllDigits(d)
    ensures (commas + d)[0] != '.' && LStrip(commas + d, {','}) == d
  {
    var rest := commas + d;
    forall i | 0 <= i < |commas| ensures rest[i] in {','} {
      assert rest[i] == commas[i];
    }
    assert rest[|commas|] == d[0] && IsDigit(d[0]);
    if commas != [] {
      assert rest[0] == commas[0];
    }
    LeadingRunIs(rest, {','}, |commas|);
    assert rest[|commas|..] == d;
  }

  /**
   * Points, commas and pluses trailing number text are stripped, so
   * `5.`, `5,` and `1.5.` clean to `5`, `5` and `1.5`.
   */
  lemma {:induction false} CleanupTrailingEdge(negative: bool, groups: seq<string>, fracDigits: string, edge: string)
    requires DigitGroups(groups) && AllDigits(fracDigits) && AllIn(edge, EDGE_CHARS)
    ensures var v := GroupedText(negative, groups, fracDigits);
            Cleanup(v + edge) == v
  {
    var v := GroupedText(negative, groups, fracDigits);
    GroupedTextChars(negative, groups, fracDigits);
    DigitsSet(v[0]);
    DigitsSet(v[|v| - 1]);
    EdgeAfterClean(v, edge);
  }

  /** Clean text that opens and ends with a kept character sheds the edge characters behind it. */
  lemma {:induction false} EdgeAfterClean(v: string, edge: string)
    requires AllIn(v, CURRENCY_CHARS) && v != [] && v[0] !in EDGE_CHARS && v[|v| - 1] !in EDGE_CHARS
    requires AllIn(edge, EDGE_CHARS)
    ensures Cleanup(v + edge) == v
  {
    var x := v + edge;
    forall i | 0 <= i < |x| ensures x[i] in CURRENCY_CHARS {
      if i < |v| {
        assert x[i] == v[i];
      } else {
        assert x[i] == edge[i - |v|];
      }
    }
    assert x[0] == v[0];
    CleanupOfClean(x);
    StripPadded([], v, edge, EDGE_CHARS);
    assert [] + v + edge == x;
  }

  // ------------------------------------------------------------ stage 2

  /** `_remove_plus_minus_signs_beginning` */
  function RemoveSigns(value: string): (r: Result<string, ParseError>)
    ensures r.Failure? <==> '+' in value && '-' in value
    ensures r.Success? ==> forall k :: 0 <= k < |r.value| ==> r.value[k] in value
    ensures r.Success? ==> '\n' !in r.value
    ensures r.Success? && r.value != [] ==> r.value[0] != '+' && r.value[0] !in WHITESPACE
    ensures r.Success? && |r.value| >= 2 && r.value[0] == '-' ==> r.value[1] !in SIGN_RUN_CHARS
  {
    if '+' in value && '-' in value then Failure(MixedSigns(value))
    else
      var stripped := LStrip(value, WHITESPACE);
      var n := LeadingRun(stripped, SIGN_RUN_CHARS);
      // the regex always matches, so its `if not match` branch is dead
      var leadingSign := if n > 0 && stripped[0] == '-' then "-" else "";
      var remaining := TakeLine(stripped[n..]);
      SignsKeptChars(value, stripped, n, leadingSign, remaining);
      SignsKeptFront(stripped, n, leadingSign, remaining);
      Success(leadingSign + remaining)
  }

  /** Sign normalisation only keeps characters of its input. */
  lemma SignsKeptChars(value: string, stripped: string, n: nat, sign: string, remaining: string)
    requires stripped == LStrip(value, WHITESPACE) && n <= |stripped|
    requires sign == "" || (n > 0 && sign == [stripped[0]])
    requires remaining == TakeLine(stripped[n..])
    ensures forall k :: 0 <= k < |sign + remaining| ==> (sign + remaining)[k] in value
  {
    var w := LeadingRun(value, WHITESPACE);
    var r := sign + remaining;
    forall k | 0 <= k < |r| ensures r[k] in value {
      if k < |sign| {
        assert r[k] == value[w];
      } else {
        assert r[k] == remaining[k - |sign|] == stripped[n + k - |sign|] == value[w + n + k - |sign|];
      }
    }
  }

  /** What sign normalisation leaves at the front: no `+`, no blank, no second sign. */
  lemma SignsKeptFront(stripped: string, n: nat, sign: string, remaining: string)
    requires n == LeadingRun(stripped, SIGN_RUN_CHARS)
    requires sign == if n > 0 && stripped[0] == '-' then "-" else ""
    requires remaining == TakeLine(stripped[n..])
    ensures '\n' !in sign + remaining
    ensures sign + remaining != [] ==> (sign + remaining)[0] != '+' && (sign + remaining)[0] !in WHITESPACE
    ensures |sign + remaining| >= 2 && (sign + remaining)[0] == '-' ==> (sign + remaining)[1] !in SIGN_RUN_CHARS
  {
    var r := sign + remaining;
    if remaining != [] {
      assert remaining[0] == stripped[n];
    }
    if sign == [] && remaining != [] {
      assert r[0] == stripped[n];
    }
    if sign != [] && remaining != [] {
      assert r[1] == stripped[n];
    }
  }

  /** Blanks stripped first extend the run of signs and blanks by exactly their count. */
  lemma LeadingRunAfterBlanks(value: string)
    ensures var w := LeadingRun(value, WHITESPACE);
            LeadingRun(value, SIGN_RUN_CHARS) == w + LeadingRun(value[w..], SIGN_RUN_CHARS)
  {
    var w := LeadingRun(value, WHITESPACE);
    var stripped := value[w..];
    var m := LeadingRun(stripped, SIGN_RUN_CHARS);
    forall i | 0 <= i < w + m ensures value[i] in SIGN_RUN_CHARS {
      if i >= w {
        assert value[i] == stripped[i - w];
      }
    }
    if w + m < |value| {
      assert value[w + m] == stripped[m];
    }
    LeadingRunIs(value, SIGN_RUN_CHARS, w + m);
  }

  /** Which sign the leading run of signs and blanks carries, when the value has only one kind. */
  lemma SignOfRun(value: string, w: nat, n: nat)
    requires !('+' in value && '-' in value)
    requires w <= n <= |value|
    requires forall i :: 0 <= i < w ==> value[i] in WHITESPACE
    requires w < n ==> value[w] in {'+', '-'}
    ensures (w < n && value[w] == '-') <==> '-' in value[..n]
  {
    if w < n && value[w] == '-' {
      assert value[..n][w] == '-';
    }
  }

  /**
   * Without mixed signs, the result is one `-` when the leading run of signs
   * and blanks holds a minus (nothing otherwise), then the rest of the line.
   */
  lemma RemoveSignsShape(value: string)
    requires !('+' in value && '-' in value)
    ensures var n := LeadingRun(value, SIGN_RUN_CHARS);
            RemoveSigns(value) == Success((if '-' in value[..n] then "-" else "") + TakeLine(value[n..]))
  {
    var n := LeadingRun(value, SIGN_RUN_CHARS);
    var stripped := LStrip(value, WHITESPACE);
    var m := LeadingRun(stripped, SIGN_RUN_CHARS);
    SignRunPieces(value);
    var sign := if m > 0 && stripped[0] == '-' then "-" else "";
    assert sign == if '-' in value[..n] then "-" else "";
    RemoveSignsOf(value, m, sign, TakeLine(stripped[m..]));
  }

  /** The run of signs and blanks seen from the value and from the value without its leading blanks. */
  lemma SignRunPieces(value: string)
    requires !('+' in value && '-' in value)
    ensures var n := LeadingRun(value, SIGN_RUN_CHARS);
            var stripped := LStrip(value, WHITESPACE);
            var m := LeadingRun(stripped, SIGN_RUN_CHARS);
            value[n..] == stripped[m..] && ((m > 0 && stripped[0] == '-') <==> '-' in value[..n])
  {
    var w := LeadingRun(value, WHITESPACE);
    var stripped := LStrip(value, WHITESPACE);
    var m := LeadingRun(stripped, SIGN_RUN_CHARS);
    LeadingRunAfterBlanks(value);
    assert LeadingRun(value, SIGN_RUN_CHARS) == w + m;
    if m > 0 {
      assert stripped[0] == value[w];
    }
    SignRunOf(value, w, stripped, m);
  }

  /** The run of blanks and signs read as blanks, then signs after them. */
  lemma SignRunOf(value: string, w: nat, stripped: string, m: nat)
    requires !('+' in value && '-' in value)
    requires w <= |value| && stripped == value[w..] && m <= |stripped|
    requires forall i :: 0 <= i < w ==> value[i] in WHITESPACE
    requires m > 0 ==> stripped[0] in {'+', '-'}
    ensures value[w + m..] == stripped[m..]
    ensures (m > 0 && stripped[0] == '-') <==> '-' in value[..w + m]
  {
    if m > 0 {
      assert value[w] == stripped[0];
    }
    SignOfRun(value, w, w + m);
  }

  /** The result of sign normalisation, named piece by piece. */
  lemma RemoveSignsOf(value: string, n: nat, sign: string, rest: string)
    requires !('+' in value && '-' in value)
    requires var stripped := LStrip(value, WHITESPACE);
             && n == LeadingRun(stripped, SIGN_RUN_CHARS)
             && sign == (if n > 0 && stripped[0] == '-' then "-" else "")
             && rest == TakeLine(stripped[n..])
    ensures RemoveSigns(value) == Success(sign + rest)
  {
  }

  /** Sign normalisation is a normal form: applying it to its result changes nothing. */
  lemma RemoveSignsIdempotent(value: string)
    requires RemoveSigns(value).Success?
    ensures RemoveSigns(RemoveSigns(value).value) == RemoveSigns(value)
  {
    var r := RemoveSigns(value).value;
    var stripped := LStrip(value, WHITESPACE);
    var n := LeadingRun(stripped, SIGN_RUN_CHARS);
    var sign := if n > 0 && stripped[0] == '-' then "-" else "";
    var rest := TakeLine(stripped[n..]);
    assert r == sign + rest;
    assert rest != [] ==> rest[0] == stripped[n];
    NoMixedSigns(value, r);
    LeadingRunIs(r, SIGN_RUN_CHARS, |sign|);
    RemoveSignsShape(r);
    assert r[..|sign|] == sign;
    assert r[|sign|..] == rest;
    TakeLineNoNewline(rest);
  }

  lemma NoMixedSigns(value: string, r: string)
    requires !('+' in value && '-' in value)
    requires forall k :: 0 <= k < |r| ==> r[k] in value
    ensures !('+' in r && '-' in r)
  {
    if '+' in r {
      var k :| 0 <= k < |r| && r[k] == '+';
      assert r[k] in value;
    }
  }

  // ------------------------------------------------------------ stage 3

  /**
   * A PEP 515 digit group as `float()` accepts it: digits, with single
   * underscores allowed only between two digits.
   */
  predicate IsDigitPart(t: string)
  {
    && |t| > 0 && IsDigit(t[0]) && IsDigit(t[|t| - 1])
    && forall i :: 0 <= i < |t| ==> IsDigit(t[i]) || (t[i] == '_' && i + 1 < |t| && IsDigit(t[i + 1]))
  }

  predicate UnderscoresBetweenDigits(t: string)
  {
    forall i :: 0 <= i < |t| && t[i] == '_' ==> 0 < i < |t| - 1 && IsDigit(t[i - 1]) && IsDigit(t[i + 1])
  }

  lemma DigitPartUnderscores(t: string)
    requires t == [] || IsDigitPart(t)
    ensures UnderscoresBetweenDigits(t)
  {
    forall i | 0 <= i < |t| && t[i] == '_'
      ensures 0 < i < |t| - 1 && IsDigit(t[i - 1]) && IsDigit(t[i + 1])
    {
      assert i != 0;
      assert t[i - 1] != '_';
    }
  }

  lemma KeepDigits(s: string)
    ensures AllDigits(Keep(s, DIGITS))
  {
    var r := Keep(s, DIGITS);
    forall i | 0 <= i < |r| ensures IsDigit(r[i]) {
      DigitsSet(r[i]);
    }
  }

  /**
   * The digit groups of an unsigned literal as `float()` reads it: digits
   * with at most one point and digits on at least one side of it.
   */
  function UnsignedFloat(body: string): (r: Option<(string, string)>)
    ensures r.Some? ==> AllDigits(r.value.0) && AllDigits(r.value.1)
  {
    if '.' !in body then
      if IsDigitPart(body) then
        KeepDigits(body);
        KeepDigits([]);
        Some((Keep(body, DIGITS), Keep([], DIGITS)))
      else None
    else
      var k := IndexOf(body, '.');
      var ip, fp := body[..k], body[k + 1..];
      if '.' !in fp && ((ip == [] && IsDigitPart(fp)) || (IsDigitPart(ip) && (fp == [] || IsDigitPart(fp)))) then
        KeepDigits(ip);
        KeepDigits(fp);
        Some((Keep(ip, DIGITS), Keep(fp, DIGITS)))
      else None
  }

  /**
   * The decimal Python's `float()` reads from `t`, for text over digits,
   * `.`, `_`, `+` and `-` (the only characters that reach it here): an
   * optional sign, then an unsigned literal.
   */
  function FloatLiteral(t: string): (r: Option<Decimal>)
    ensures r.Some? ==> AllDigits(r.value.intDigits) && AllDigits(r.value.fracDigits)
    ensures r.Some? ==> (r.value.negative <==> t != [] && t[0] == '-')
  {
    var signed := t != [] && (t[0] == '-' || t[0] == '+');
    var body := if signed then t[1..] else t;
    match UnsignedFloat(body)
    case None => None
    case Some((ip, fp)) => Some(Decimal(t != [] && t[0] == '-', ip, fp))
  }

  lemma UnderscoresCons(c: char, s: string)
    requires c != '_' && UnderscoresBetweenDigits(s)
    ensures UnderscoresBetweenDigits([c] + s)
  {
    var t := [c] + s;
    forall i | 0 <= i < |t| && t[i] == '_'
      ensures 0 < i < |t| - 1 && IsDigit(t[i - 1]) && IsDigit(t[i + 1])
    {
      assert t[i] == s[i - 1];
    }
  }

  lemma UnderscoresAroundDot(a: string, b: string)
    requires UnderscoresBetweenDigits(a) && UnderscoresBetweenDigits(b)
    ensures UnderscoresBetweenDigits(a + "." + b)
  {
    var t := a + "." + b;
    forall i | 0 <= i < |t| && t[i] == '_'
      ensures 0 < i < |t| - 1 && IsDigit(t[i - 1]) && IsDigit(t[i + 1])
    {
      if i < |a| {
        assert t[i] == a[i] && t[i - 1] == a[i - 1] && t[i + 1] == a[i + 1];
      } else {
        assert i > |a|;
        assert t[i] == b[i - |a| - 1] && t[i - 1] == b[i - |a| - 2] && t[i + 1] == b[i - |a|];
      }
    }
  }

  lemma UnsignedFloatUnderscores(body: string)
    requires UnsignedFloat(body).Some?
    ensures UnderscoresBetweenDigits(body)
  {
    if '.' !in body {
      DigitPartUnderscores(body);
    } else {
      var k := IndexOf(body, '.');
      var ip, fp := body[..k], body[k + 1..];
      DigitPartUnderscores(ip);
      DigitPartUnderscores(fp);
      UnderscoresAroundDot(ip, fp);
      assert body == ip + "." + fp;
    }
  }

  /** Whatever `float()` accepts has its underscores between two digits. */
  lemma FloatLiteralUnderscores(t: string)
    ensures FloatLiteral(t).Some? ==> UnderscoresBetweenDigits(t)
  {
    var signed := t != [] && (t[0] == '-' || t[0] == '+');
    var body := if signed then t[1..] else t;
    if UnsignedFloat(body).Some? {
      UnsignedFloatUnderscores(body);
      if signed {
        UnderscoresCons(t[0], body);
        assert t == [t[0]] + body;
      }
    }
  }

  lemma CommasBetweenDigits(value: string)
    requires AllIn(value, CURRENCY_CHARS)
    requires UnderscoresBetweenDigits(ReplaceChar(value, ',', "_"))
    ensures forall i :: 0 <= i < |value| && value[i] == ',' ==>
              0 < i < |value| - 1 && IsDigit(value[i - 1]) && IsDigit(value[i + 1])
  {
    var t := ReplaceChar(value, ',', "_");
    ReplaceCommas(value);
    forall i | 0 <= i < |value| && value[i] == ','
      ensures 0 < i < |value| - 1 && IsDigit(value[i - 1]) && IsDigit(value[i + 1])
    {
      assert t[i] == '_';
      assert t[i - 1] == value[i - 1] && t[i + 1] == value[i + 1];
    }
  }

  /** `_string_value_to_float`: commas become `_` digit separators before `float()`. */
  function StringValueToFloat(value: string): (r: Result<Decimal, ParseError>)
    requires AllIn(value, CURRENCY_CHARS)
    ensures r.Success? ==> forall i :: 0 <= i < |value| && value[i] == ',' ==>
                             0 < i < |value| - 1 && IsDigit(value[i - 1]) && IsDigit(value[i + 1])
    ensures r.Success? ==> AllDigits(r.value.intDigits) && AllDigits(r.value.fracDigits)
    ensures r.Success? ==> (r.value.negative <==> value != [] && value[0] == '-')
  {
    var t := ReplaceChar(value, ',', "_");
    ReplaceCommas(value);
    FloatLiteralUnderscores(t);
    match FloatLiteral(t)
    case None => Failure(NotANumber(value))
    case Some(d) =>
      CommasBetweenDigits(value);
      Success(d)
  }

  lemma {:induction false} ReplaceCommas(value: string)
    requires AllIn(value, CURRENCY_CHARS)
    ensures var t := ReplaceChar(value, ',', "_");
            |t| == |value| && forall i :: 0 <= i < |value| ==> t[i] == (if value[i] == ',' then '_' else value[i])
  {
    if value != [] {
      ReplaceCommas(value[1..]);
    }
  }

  /** Milliunits of an unsigned decimal: `f"{x:.3f}"` rounds half up on the fourth digit. */
  function MilliMagnitude(intDigits: string, fracDigits: string): nat
    requires AllDigits(intDigits) && AllDigits(fracDigits)
  {
    var frac3 := (fracDigits + "000")[..3];
    assert AllDigits(frac3);
    var roundUp := |fracDigits| > 3 && DigitVal(fracDigits[3]) >= 5;
    Val(intDigits) * 1000 + Val(frac3) + (if roundUp then 1 else 0)
  }

  /** `int(f"{x:.3f}".replace(".", ""))` */
  function ToMilliunits(d: Decimal): int
    requires AllDigits(d.intDigits) && AllDigits(d.fracDigits)
  {
    var m: int := MilliMagnitude(d.intDigits, d.fracDigits);
    if d.negative then -m else m
  }

  /** With at most three fractional digits the conversion is exact. */
  lemma MagnitudeExact(intDigits: string, fracDigits: string)
    requires AllDigits(intDigits) && AllDigits(fracDigits) && |fracDigits| <= 3
    ensures MilliMagnitude(intDigits, fracDigits) == Val(intDigits) * 1000 + Val(fracDigits) * Pow10(3 - |fracDigits|)
  {
    var z := "000"[..3 - |fracDigits|];
    assert (fracDigits + "000")[..3] == fracDigits + z;
    ValZeros(z);
    ValAppend(fracDigits, z);
  }

  /** The arithmetic of rounding on the fourth fractional digit `c`, with `q` = 10 * `q1`. */
  lemma HalfUpStep(c: nat, rest: nat, q1: nat)
    requires c < 10 && rest < q1
    ensures var up := if c >= 5 then 1 else 0;
            var t := c * q1 + rest;
            2 * up * (10 * q1) <= 2 * t + 10 * q1 < 2 * up * (10 * q1) + 2 * (10 * q1)
  {
    if c >= 5 {
      assert c * q1 >= 5 * q1;
    } else {
      assert c * q1 <= 4 * q1;
    }
    assert c * q1 <= 9 * q1;
  }

  lemma ScaleBounds(b: int, up: int, q: int, t: int, s: int)
    requires s == 1000 * q
    requires 2 * up * q <= 2 * t + q < 2 * up * q + 2 * q
    ensures 2 * ((b + up) * s) <= 2 * (1000 * (b * q + t)) + s < 2 * ((b + up) * s) + 2 * s
  {
    assert (b + up) * s == 1000 * (b * q) + 1000 * (up * q);
  }

  /**
   * The conversion rounds to the nearest milliunit, halves away from zero:
   * `exact` is the value times 1000 * 10^|fracDigits|, so the bounds say
   * m - 1/2 <= 1000 * value < m + 1/2 for the magnitude `m`.
   */
  lemma MagnitudeRoundsHalfUp(intDigits: string, fracDigits: string)
    requires AllDigits(intDigits) && AllDigits(fracDigits)
    ensures var scale := Pow10(|fracDigits|);
            var exact := 1000 * (Val(intDigits) * scale + Val(fracDigits));
            var m := MilliMagnitude(intDigits, fracDigits);
            2 * (m * scale) <= 2 * exact + scale < 2 * (m * scale) + 2 * scale
  {
    if |fracDigits| <= 3 {
      ShortFractionScaled(intDigits, fracDigits);
    } else {
      LongFractionRounded(intDigits, fracDigits);
    }
  }

  lemma ShortFractionScaled(intDigits: string, fracDigits: string)
    requires AllDigits(intDigits) && AllDigits(fracDigits) && |fracDigits| <= 3
    ensures MilliMagnitude(intDigits, fracDigits) * Pow10(|fracDigits|)
            == 1000 * (Val(intDigits) * Pow10(|fracDigits|) + Val(fracDigits))
  {
    var k := |fracDigits|;
    MagnitudeExact(intDigits, fracDigits);
    Pow10Add(3 - k, k);
    assert Pow10(3) == 1000;
    ShortAlgebra(Val(intDigits), Val(fracDigits), Pow10(3 - k), Pow10(k));
  }

  lemma ShortAlgebra(i: int, f: int, p: int, s: int)
    requires p * s == 1000
    ensures (i * 1000 + f * p) * s == 1000 * (i * s + f)
  {
    calc {
      (i * 1000 + f * p) * s;
      i * 1000 * s + f * (p * s);
      1000 * (i * s + f);
    }
  }

  lemma LongAlgebra(i: int, v3: int, t: int, q: int, s: int)
    requires s == 1000 * q
    ensures i * s + (v3 * q + t) == (i * 1000 + v3) * q + t
  {
  }

  /** A long fraction read as its first three digits, the fourth digit and the rest. */
  lemma LongFractionSplit(fracDigits: string)
    requires AllDigits(fracDigits) && |fracDigits| > 3
    ensures var k := |fracDigits|;
            && Val(fracDigits) == Val(fracDigits[..3]) * Pow10(k - 3) + (DigitVal(fracDigits[3]) * Pow10(k - 4) + Val(fracDigits[4..]))
            && Val(fracDigits[4..]) < Pow10(k - 4)
            && Pow10(k - 3) == 10 * Pow10(k - 4)
            && Pow10(k) == 1000 * Pow10(k - 3)
  {
    var k := |fracDigits|;
    LongFractionDigits(fracDigits);
    LongFractionPowers(k);
  }

  lemma {:induction false} LongFractionDigits(fracDigits: string)
    requires AllDigits(fracDigits) && |fracDigits| > 3
    ensures var k := |fracDigits|;
            && Val(fracDigits) == Val(fracDigits[..3]) * Pow10(k - 3) + (DigitVal(fracDigits[3]) * Pow10(k - 4) + Val(fracDigits[4..]))
            && Val(fracDigits[4..]) < Pow10(k - 4)
  {
    var f3, tail, rest := fracDigits[..3], fracDigits[3..], fracDigits[4..];
    var c := fracDigits[3];
    assert fracDigits == f3 + tail;
    ValAppend(f3, tail);
    assert tail == [c] + rest;
    ValAppend([c], rest);
    ValSingle(c);
  }

  lemma LongFractionPowers(k: nat)
    requires k > 3
    ensures Pow10(k - 3) == 10 * Pow10(k - 4) && Pow10(k) == 1000 * Pow10(k - 3)
  {
    Pow10Add(3, k - 3);
    assert Pow10(3) == 1000;
  }

  lemma LongFractionRounded(intDigits: string, fracDigits: string)
    requires AllDigits(intDigits) && AllDigits(fracDigits) && |fracDigits| > 3
    ensures var scale := Pow10(|fracDigits|);
            var exact := 1000 * (Val(intDigits) * scale + Val(fracDigits));
            var m := MilliMagnitude(intDigits, fracDigits);
            2 * (m * scale) <= 2 * exact + scale < 2 * (m * scale) + 2 * scale
  {
    var k := |fracDigits|;
    LongFractionSplit(fracDigits);
    MilliMagnitudeLong(intDigits, fracDigits);
    LongRoundingBounds(Val(intDigits), Val(fracDigits[..3]), DigitVal(fracDigits[3]), Val(fracDigits[4..]),
                       Pow10(k - 4), Pow10(k - 3), Pow10(k), Val(fracDigits), MilliMagnitude(intDigits, fracDigits));
  }

  lemma MilliMagnitudeLong(intDigits: string, fracDigits: string)
    requires AllDigits(intDigits) && AllDigits(fracDigits) && |fracDigits| > 3
    ensures MilliMagnitude(intDigits, fracDigits)
            == Val(intDigits) * 1000 + Val(fracDigits[..3]) + (if DigitVal(fracDigits[3]) >= 5 then 1 else 0)
  {
    assert (fracDigits + "000")[..3] == fracDigits[..3];
  }

  /**
   * The arithmetic of rounding on the fourth fraction digit: `v` is the
   * fraction as `v3` thousandths, then digit `c` and a remainder below `q1`.
   */
  lemma LongRoundingBounds(i: int, v3: int, c: nat, rest: nat, q1: nat, q: int, scale: int, v: int, m: int)
    requires c < 10 && rest < q1
    requires q == 10 * q1 && scale == 1000 * q
    requires v == v3 * q + (c * q1 + rest)
    requires m == i * 1000 + v3 + (if c >= 5 then 1 else 0)
    ensures 2 * (m * scale) <= 2 * (1000 * (i * scale + v)) + scale < 2 * (m * scale) + 2 * scale
  {
    var t := c * q1 + rest;
    HalfUpStep(c, rest, q1);
    var up := if c >= 5 then 1 else 0;
    var b := i * 1000 + v3;
    LongAlgebra(i, v3, t, q, scale);
    ScaleBounds(b, up, q, t, scale);
  }

  /** `parse_currency_to_milliunits`: `None` where `parse_currency_to_milliunits` logs a warning. */
  function ParseMilliunits(value: string): Option<int>
  {
    var cleaned := Cleanup(value);
    if cleaned == [] then None
    else match RemoveSigns(cleaned)
      case Failure(_) => None
      case Success(unsigned) =>
        assert AllIn(unsigned, CURRENCY_CHARS);
        match StringValueToFloat(unsigned)
        case Failure(_) => None
        case Success(d) => Some(ToMilliunits(d))
  }

  // ------------------------------------------------------------ the whole pipeline

  /** Non-empty strings of digits: the groups of a number written with separators. */
  predicate DigitGroups(groups: seq<string>)
  {
    |groups| >= 1 && forall i :: 0 <= i < |groups| ==> groups[i] != [] && AllDigits(groups[i])
  }

  /**
   * The text of a decimal: an optional minus, digit groups joined by
   * commas, and a point before any fraction.
   */
  function GroupedText(negative: bool, groups: seq<string>, fracDigits: string): string
  {
    (if negative then "-" else "") + Join(groups, ",") + (if fracDigits == [] then "" else "." + fracDigits)
  }

  lemma DigitsAreDigitPart(s: string)
    requires s != [] && AllDigits(s)
    ensures IsDigitPart(s) && Keep(s, DIGITS) == s
  {
    DigitsInSet(s);
    KeepAllIn(s, DIGITS);
  }

  /** Groups joined by `_` form one PEP 515 digit part. */
  lemma {:induction false} JoinedDigitPart(groups: seq<string>)
    requires DigitGroups(groups)
    ensures IsDigitPart(Join(groups, "_"))
    decreases |groups|
  {
    if |groups| == 1 {
      DigitsAreDigitPart(groups[0]);
    } else {
      var front, last := groups[..|groups| - 1], groups[|groups| - 1];
      assert DigitGroups(front) by {
        assert forall i :: 0 <= i < |front| ==> front[i] == groups[i];
      }
      JoinedDigitPart(front);
      var j := Join(front, "_");
      var t := Join(groups, "_");
      assert t == j + "_" + last;
      JoinFirst(groups, "_");
      assert groups[0] == front[0];
      forall i | 0 <= i < |t| ensures IsDigit(t[i]) || (t[i] == '_' && i + 1 < |t| && IsDigit(t[i + 1])) {
        if i < |j| {
          assert t[i] == j[i];
          if i + 1 < |j| {
            assert t[i + 1] == j[i + 1];
          }
        } else if i == |j| {
          assert t[i + 1] == last[0];
        } else {
          assert t[i] == last[i - |j| - 1];
        }
      }
      assert t[|t| - 1] == last[|last| - 1];
    }
  }

  lemma JoinedDigits(groups: seq<string>)
    requires DigitGroups(groups)
    ensures Keep(Join(groups, "_"), DIGITS) == Concat(groups)
    ensures AllDigits(Concat(groups)) && Concat(groups) != []
    ensures '.' !in Join(groups, "_")
  {
    forall i | 0 <= i < |groups| ensures AllIn(groups[i], DIGITS) {
      DigitsInSet(groups[i]);
    }
    KeepJoin(groups, "_", DIGITS);
    KeepDigits(Join(groups, "_"));
    JoinedDigitPart(groups);
    JoinLength(groups, "_");
    assert |Concat(groups)| >= |groups[0]| by {
      JoinFirst(groups, "_");
      ConcatLength(groups);
    }
  }

  lemma {:induction false} ConcatLength(parts: seq<string>)
    requires parts != []
    ensures |Concat(parts)| >= |parts[0]|
  {
    if |parts| > 1 {
      ConcatLength(parts[..|parts| - 1]);
    } else {
      assert parts[..0] == [];
    }
  }

  lemma GroupedTextChars(negative: bool, groups: seq<string>, fracDigits: string)
    requires DigitGroups(groups) && AllDigits(fracDigits)
    ensures var v := GroupedText(negative, groups, fracDigits);
            && AllIn(v, CURRENCY_CHARS)
            && v[0] in {'-'} + DIGITS && IsDigit(v[|v| - 1])
            && '+' !in v && '\n' !in v
  {
    var j := Join(groups, ",");
    var jc := DIGITS + {','};
    forall i | 0 <= i < |groups| ensures AllIn(groups[i], jc) {
      DigitsInSet(groups[i]);
    }
    JoinAllIn(groups, ",", jc);
    JoinFirst(groups, ",");
    LastOfGroups(groups);
    DigitsSet(j[0]);
    DigitsInSet(fracDigits);
    SignedPiecesChars(negative, j, fracDigits);
  }

  /** A sign, grouped digits and a fraction, seen through the characters of each piece. */
  lemma SignedPiecesChars(negative: bool, j: string, fracDigits: string)
    requires AllIn(j, DIGITS + {','}) && j != [] && j[0] in DIGITS && IsDigit(j[|j| - 1])
    requires AllIn(fracDigits, DIGITS) && AllDigits(fracDigits)
    ensures var v := (if negative then "-" else "") + j + (if fracDigits == [] then "" else "." + fracDigits);
            && AllIn(v, CURRENCY_CHARS)
            && v[0] in {'-'} + DIGITS && IsDigit(v[|v| - 1])
            && '+' !in v && '\n' !in v
  {
    var sign := if negative then "-" else "";
    var tail := if fracDigits == [] then "" else "." + fracDigits;
    var v := sign + j + tail;
    forall i | 0 <= i < |v| ensures v[i] in CURRENCY_CHARS && v[i] != '+' && v[i] != '\n' {
      if i < |sign| {
      } else if i < |sign| + |j| {
        assert v[i] == j[i - |sign|];
      } else {
        assert v[i] == tail[i - |sign| - |j|];
      }
    }
    assert v[0] == (sign + j)[0];
    if fracDigits == [] {
      assert v[|v| - 1] == j[|j| - 1];
    } else {
      assert v[|v| - 1] == fracDigits[|fracDigits| - 1];
    }
  }

  lemma {:induction false} LastOfGroups(groups: seq<string>)
    requires DigitGroups(groups)
    ensures var j := Join(groups, ",");
            j != [] && IsDigit(j[|j| - 1])
  {
    if |groups| == 1 {
    } else {
      var front := groups[..|groups| - 1];
      assert DigitGroups(front) by {
        assert forall i :: 0 <= i < |front| ==> front[i] == groups[i];
      }
      LastOfGroups(front);
    }
  }

  /** Number text is its own cleaned form. */
  lemma CleanupGroupedText(negative: bool, groups: seq<string>, fracDigits: string)
    requires DigitGroups(groups) && AllDigits(fracDigits)
    ensures var v := GroupedText(negative, groups, fracDigits);
            Cleanup(v) == v
  {
    GroupedTextChars(negative, groups, fracDigits);
    CleanupUnchanged(GroupedText(negative, groups, fracDigits));
  }

  /** Text of CURRENCY_CHARS with no point, comma or plus at either end is already clean. */
  lemma CleanupUnchanged(v: string)
    requires AllIn(v, CURRENCY_CHARS)
    requires v != [] ==> v[0] !in EDGE_CHARS && v[|v| - 1] !in EDGE_CHARS
    ensures Cleanup(v) == v
  {
    KeepAllIn(v, CURRENCY_CHARS);
    StripUnchanged(v, EDGE_CHARS);
  }

  /** Number text is its own sign-normalised form. */
  lemma RemoveSignsGroupedText(negative: bool, groups: seq<string>, fracDigits: string)
    requires DigitGroups(groups) && AllDigits(fracDigits)
    ensures var v := GroupedText(negative, groups, fracDigits);
            RemoveSigns(v) == Success(v)
  {
    var v := GroupedText(negative, groups, fracDigits);
    GroupedTextChars(negative, groups, fracDigits);
    GroupedTextFront(negative, groups, fracDigits);
    RemoveSignsNumber(v, negative);
  }

  /** Number text starts with its sign, then a digit. */
  lemma GroupedTextFront(negative: bool, groups: seq<string>, fracDigits: string)
    requires DigitGroups(groups)
    ensures var v := GroupedText(negative, groups, fracDigits);
            var k := if negative then 1 else 0;
            |v| > k && v[..k] == (if negative then "-" else "") && IsDigit(v[k])
  {
    var v := GroupedText(negative, groups, fracDigits);
    var k := if negative then 1 else 0;
    JoinFirst(groups, ",");
    assert v[k] == groups[0][0];
  }

  /** A sign, if any, then a digit, and neither `+` nor a line break: already sign-normalised. */
  lemma RemoveSignsNumber(v: string, negative: bool)
    requires '+' !in v && '\n' !in v
    requires var k := if negative then 1 else 0;
             |v| > k && v[..k] == (if negative then "-" else "") && IsDigit(v[k])
    ensures RemoveSigns(v) == Success(v)
  {
    var k := if negative then 1 else 0;
    LeadingRunIs(v, SIGN_RUN_CHARS, k);
    if negative {
      assert v[0] == v[..k][0];
    }
    RemoveSignsFixed(v, k);
  }

  /** A value with at most one leading `-`, no `+`, no leading blank and no line break is left as it is. */
  lemma RemoveSignsFixed(v: string, k: nat)
    requires '+' !in v && '\n' !in v && (v == [] || v[0] !in WHITESPACE)
    requires k <= |v| && LeadingRun(v, SIGN_RUN_CHARS) == k
    requires v[..k] == "" || v[..k] == "-"
    ensures RemoveSigns(v) == Success(v)
  {
    LStripNone(v, WHITESPACE);
    TakeLineOfSuffix(v, k);
    var sign := if k > 0 && v[0] == '-' then "-" else "";
    assert sign == v[..k];
    RemoveSignsOf(v, k, sign, v[k..]);
    assert sign + v[k..] == v;
  }

  lemma LStripNone(v: string, cs: set<char>)
    requires v == [] || v[0] !in cs
    ensures LStrip(v, cs) == v
  {
    LeadingRunIs(v, cs, 0);
  }

  lemma TakeLineOfSuffix(v: string, k: nat)
    requires '\n' !in v && k <= |v|
    ensures TakeLine(v[k..]) == v[k..]
  {
    var rest := v[k..];
    assert '\n' !in rest by {
      forall i | 0 <= i < |rest| ensures rest[i] != '\n' {
        assert rest[i] == v[k + i];
      }
    }
    TakeLineNoNewline(rest);
  }

  lemma UnsignedFloatOfGroups(groups: seq<string>, fracDigits: string)
    requires DigitGroups(groups) && AllDigits(fracDigits)
    ensures UnsignedFloat(Join(groups, "_") + (if fracDigits == [] then "" else "." + fracDigits))
            == Some((Concat(groups), fracDigits))
  {
    JoinedDigitPart(groups);
    JoinedDigits(groups);
    UnsignedFloatNumber(Join(groups, "_"), fracDigits, Concat(groups));
  }

  /** A digit part, and a point before any fraction digits, reads as the digits on either side. */
  lemma UnsignedFloatNumber(j: string, f: string, digits: string)
    requires '.' !in j && IsDigitPart(j) && Keep(j, DIGITS) == digits && AllDigits(f)
    ensures UnsignedFloat(j + (if f == [] then "" else "." + f)) == Some((digits, f))
  {
    var body := j + (if f == [] then "" else "." + f);
    if f == [] {
      assert body == j;
      UnsignedFloatWhole(j, digits);
    } else {
      assert body == j + "." + f;
      UnsignedFloatPoint(j, f, digits);
    }
  }

  /** A digit part without a point reads as its digits. */
  lemma UnsignedFloatWhole(j: string, digits: string)
    requires '.' !in j && IsDigitPart(j) && Keep(j, DIGITS) == digits
    ensures UnsignedFloat(j) == Some((digits, ""))
  {
  }

  /** A digit part, a point and fraction digits read as the two digit strings. */
  lemma UnsignedFloatPoint(j: string, f: string, digits: string)
    requires '.' !in j && IsDigitPart(j) && Keep(j, DIGITS) == digits
    requires f != [] && AllDigits(f)
    ensures UnsignedFloat(j + "." + f) == Some((digits, f))
  {
    DigitsAreDigitPart(f);
    DigitsHoldNoPoint(f);
    FirstPoint(j, f);
  }

  lemma FloatLiteralMinus(body: string)
    ensures FloatLiteral("-" + body) == match UnsignedFloat(body)
                                        case None => None
                                        case Some((i, f)) => Some(Decimal(true, i, f))
  {
    assert ("-" + body)[1..] == body;
  }

  lemma FloatLiteralUnsigned(body: string)
    requires body != [] && IsDigit(body[0])
    ensures FloatLiteral(body) == match UnsignedFloat(body)
                                  case None => None
                                  case Some((i, f)) => Some(Decimal(false, i, f))
  {
  }

  /** In number text, the commas that `_string_value_to_float` turns into `_` are the group separators. */
  lemma UnderscoredGroupedText(negative: bool, groups: seq<string>, fracDigits: string)
    requires DigitGroups(groups) && AllDigits(fracDigits)
    ensures ReplaceChar(GroupedText(negative, groups, fracDigits), ',', "_")
            == (if negative then "-" else "") + (Join(groups, "_") + (if fracDigits == [] then "" else "." + fracDigits))
  {
    var sign := if negative then "-" else "";
    var tail := if fracDigits == [] then "" else "." + fracDigits;
    forall i | 0 <= i < |groups| ensures ',' !in groups[i] {
      DigitsInSet(groups[i]);
    }
    ReplaceCharJoin(groups, ',', "_");
    FractionHasNoComma(fracDigits);
    SignHasNoComma(negative);
    ReplaceCommaPieces(sign, Join(groups, ","), tail, Join(groups, "_"));
    AppendAssociates(sign, Join(groups, "_"), tail);
  }

  lemma FractionHasNoComma(fracDigits: string)
    requires AllDigits(fracDigits)
    ensures var tail := if fracDigits == [] then "" else "." + fracDigits;
            ReplaceChar(tail, ',', "_") == tail
  {
    DigitsInSet(fracDigits);
  }

  lemma SignHasNoComma(negative: bool)
    ensures var sign := if negative then "-" else "";
            ReplaceChar(sign, ',', "_") == sign
  {
  }

  lemma {:induction false} ReplaceCommaPieces(sign: string, j: string, tail: string, underscored: string)
    requires ReplaceChar(sign, ',', "_") == sign && ReplaceChar(tail, ',', "_") == tail
    requires ReplaceChar(j, ',', "_") == underscored
    ensures ReplaceChar(sign + j + tail, ',', "_") == sign + underscored + tail
  {
    ReplaceCharAppend(sign + j, tail, ',', "_");
    ReplaceCharAppend(sign, j, ',', "_");
  }

  lemma FloatLiteralGrouped(negative: bool, groups: seq<string>, fracDigits: string)
    requires DigitGroups(groups) && AllDigits(fracDigits)
    ensures var body := Join(groups, "_") + (if fracDigits == [] then "" else "." + fracDigits);
            FloatLiteral((if negative then "-" else "") + body) == Some(Decimal(negative, Concat(groups), fracDigits))
  {
    var body := Join(groups, "_") + (if fracDigits == [] then "" else "." + fracDigits);
    UnsignedFloatOfGroups(groups, fracDigits);
    if negative {
      FloatLiteralMinus(body);
    } else {
      JoinedDigitPart(groups);
      assert body[0] == Join(groups, "_")[0];
      FloatLiteralUnsigned(body);
      assert "" + body == body;
    }
  }

  /** `float()` reads number text, commas turned into `_`, as the digits it is written with. */
  lemma FloatOfGroupedText(negative: bool, groups: seq<string>, fracDigits: string)
    requires DigitGroups(groups) && AllDigits(fracDigits)
    ensures var v := GroupedText(negative, groups, fracDigits);
            AllIn(v, CURRENCY_CHARS) && StringValueToFloat(v) == Success(Decimal(negative, Concat(groups), fracDigits))
  {
    GroupedTextChars(negative, groups, fracDigits);
    UnderscoredGroupedText(negative, groups, fracDigits);
    FloatLiteralGrouped(negative, groups, fracDigits);
  }

  /**
   * Number text parses to its value in milliunits, rounded half up on the
   * fourth fractional digit (MagnitudeRoundsHalfUp, MagnitudeExact);
   * commas between digit groups are ignored.
   */
  lemma ParseGroupedText(negative: bool, groups: seq<string>, fracDigits: string)
    requires DigitGroups(groups) && AllDigits(fracDigits)
    ensures AllDigits(Concat(groups))
    ensures ParseMilliunits(GroupedText(negative, groups, fracDigits))
            == Some(ToMilliunits(Decimal(negative, Concat(groups), fracDigits)))
  {
    var v := GroupedText(negative, groups, fracDigits);
    JoinedDigits(groups);
    CleanupGroupedText(negative, groups, fracDigits);
    assert Cleanup(v) == v && v != [];
    RemoveSignsGroupedText(negative, groups, fracDigits);
    assert RemoveSigns(v) == Success(v);
    FloatOfGroupedText(negative, groups, fracDigits);
  }

  /**
   * Text beyond the currency characters never changes the outcome:
   * `$`, letters, spaces and other currency symbols are noise.
   */
  lemma ParseIgnoresNoise(value: string)
    ensures ParseMilliunits(value) == ParseMilliunits(Keep(value, CURRENCY_CHARS))
  {
    CleanupIgnoresOtherChars(value);
  }

  /** Both signs in the cleaned text make the parse fail. */
  lemma ParseRejectsMixedSigns(value: string)
    requires '+' in Cleanup(value) && '-' in Cleanup(value)
    ensures ParseMilliunits(value) == None
  {
  }

  /**
   * Text without a digit or a point does not parse: `abc`, `$`, `-`
   * and the empty text all give None. (A lone point is not covered: the
   * cleanup reads it as `0.`.)
   */
  lemma ParseNeedsDigit(value: string)
    requires NoneIn(value, DIGITS + {'.'})
    ensures ParseMilliunits(value) == None
  {
    var kept := Keep(value, CURRENCY_CHARS);
    KeepKeepsNoneIn(value, CURRENCY_CHARS, DIGITS + {'.'});
    assert AllIn(kept, NON_DIGITS);
    StripAllIn(kept, EDGE_CHARS, NON_DIGITS);
    var c := Cleanup(value);
    assert c == Strip(kept, EDGE_CHARS);
    if c != [] && !('+' in c && '-' in c) {
      var u := RemoveSigns(c).value;
      assert AllIn(u, NON_DIGITS);
      StringValueToFloatNeedsDigit(u);
    }
  }

  /** The characters of CURRENCY_CHARS other than digits and the point. */
  const NON_DIGITS: set<char> := {',', '+', '-'}

  lemma StringValueToFloatNeedsDigit(value: string)
    requires AllIn(value, NON_DIGITS)
    ensures StringValueToFloat(value).Failure?
  {
    var t := ReplaceChar(value, ',', "_");
    ReplaceCommas(value);
    assert AllIn(t, {'_', '+', '-'});
    FloatLiteralNeedsDigit(t);
  }

  lemma FloatLiteralNeedsDigit(t: string)
    requires AllIn(t, {'_', '+', '-'})
    ensures FloatLiteral(t).None?
  {
    if t != [] {
      SuffixAllIn(t, 1, {'_', '+', '-'});
      UnsignedFloatNeedsDigit(t[1..]);
    }
    UnsignedFloatNeedsDigit(t);
  }

  lemma UnsignedFloatNeedsDigit(body: string)
    requires AllIn(body, {'_', '+', '-'})
    ensures UnsignedFloat(body).None?
  {
    assert '.' !in body;
  }

  /** Two points in the cleaned text make the parse fail: `1.2.3` is not a number. */
  lemma ParseRejectsTwoPoints(value: string, i: nat, j: nat)
    requires i < j < |Cleanup(value)| && Cleanup(value)[i] == '.' && Cleanup(value)[j] == '.'
    ensures ParseMilliunits(value) == None
  {
    var c := Cleanup(value);
    CleanTextTwoPoints(c, i, j);
    ParseFailsOnCleanup(value);
  }

  /** Cleaned text that is empty, has mixed signs, or that `float()` refuses. */
  predicate Unreadable(c: string)
    requires AllIn(c, CURRENCY_CHARS)
  {
    c == [] || RemoveSigns(c).Failure? || StringValueToFloat(RemoveSigns(c).value).Failure?
  }

  lemma ParseFailsOnCleanup(value: string)
    requires Unreadable(Cleanup(value))
    ensures ParseMilliunits(value) == None
  {
  }

  lemma CleanTextTwoPoints(c: string, i: nat, j: nat)
    requires AllIn(c, CURRENCY_CHARS)
    requires i < j < |c| && c[i] == '.' && c[j] == '.'
    ensures Unreadable(c)
  {
    if !('+' in c && '-' in c) {
      var i2, j2 := SignsKeepTwoPoints(c, i, j);
      StringValueToFloatTwoPoints(RemoveSigns(c).value, i2, j2);
    }
  }

  /** Sign normalisation of cleaned text keeps its points. */
  lemma SignsKeepTwoPoints(c: string, i: nat, j: nat) returns (i2: nat, j2: nat)
    requires AllIn(c, CURRENCY_CHARS) && !('+' in c && '-' in c)
    requires i < j < |c| && c[i] == '.' && c[j] == '.'
    ensures RemoveSigns(c).Success?
    ensures var u := RemoveSigns(c).value; i2 < j2 < |u| && u[i2] == '.' && u[j2] == '.'
  {
    var n := LeadingRun(c, SIGN_RUN_CHARS);
    assert n <= i by {
      assert c[i] !in SIGN_RUN_CHARS;
    }
    RemoveSignsShape(c);
    CurrencyTextHasNoNewline(c);
    TakeLineOfSuffix(c, n);
    var sign := if '-' in c[..n] then "-" else "";
    i2, j2 := PointsAfterPrefix(sign, c, n, i, j);
  }

  lemma PointsAfterPrefix(sign: string, c: string, n: nat, i: nat, j: nat) returns (i2: nat, j2: nat)
    requires n <= i < j < |c| && c[i] == '.' && c[j] == '.'
    ensures var u := sign + c[n..]; i2 < j2 < |u| && u[i2] == '.' && u[j2] == '.'
  {
    var rest := c[n..];
    assert rest[i - n] == c[i] && rest[j - n] == c[j];
    i2, j2 := |sign| + (i - n), |sign| + (j - n);
  }

  lemma CurrencyTextHasNoNewline(c: string)
    requires AllIn(c, CURRENCY_CHARS)
    ensures '\n' !in c
  {
  }

  lemma StringValueToFloatTwoPoints(value: string, i: nat, j: nat)
    requires AllIn(value, CURRENCY_CHARS)
    requires i < j < |value| && value[i] == '.' && value[j] == '.'
    ensures StringValueToFloat(value).Failure?
  {
    var t := ReplaceChar(value, ',', "_");
    ReplaceCommas(value);
    FloatLiteralTwoPoints(t, i, j);
  }

  lemma FloatLiteralTwoPoints(t: string, i: nat, j: nat)
    requires i < j < |t| && t[i] == '.' && t[j] == '.'
    ensures FloatLiteral(t).None?
  {
    if t[0] == '-' || t[0] == '+' {
      assert t[1..][i - 1] == '.' && t[1..][j - 1] == '.';
      UnsignedFloatTwoPoints(t[1..], i - 1, j - 1);
    } else {
      UnsignedFloatTwoPoints(t, i, j);
    }
  }

  lemma UnsignedFloatTwoPoints(body: string, i: nat, j: nat)
    requires i < j < |body| && body[i] == '.' && body[j] == '.'
    ensures UnsignedFloat(body).None?
  {
    var k := IndexOf(body, '.');
    IndexOfAtMost(body, '.', i);
    assert body[k + 1..][j - k - 1] == '.';
  }

  /**
   * A plus in front of a negative number is stripped before signs are
   * checked, so `+-10` reads as `-10`.
   */
  lemma ParseLeadingPlusDropped(groups: seq<string>, fracDigits: string)
    requires DigitGroups(groups) && AllDigits(fracDigits)
    ensures var v := GroupedText(true, groups, fracDigits);
            ParseMilliunits("+" + v) == ParseMilliunits(v)
  {
    GroupedTextChars(true, groups, fracDigits);
    var v := GroupedText(true, groups, fracDigits);
    CleanupDropsPlus(v);
    ParseReadsCleanup("+" + v, v);
  }

  /** A plus in front of clean text that starts with a minus is stripped by the cleanup. */
  lemma CleanupDropsPlus(v: string)
    requires AllIn(v, CURRENCY_CHARS) && v != [] && v[0] == '-' && v[|v| - 1] !in EDGE_CHARS
    ensures Cleanup("+" + v) == Cleanup(v)
  {
    PlusAllIn(v);
    CleanupOfClean("+" + v);
    CleanupOfClean(v);
    StripDropsFirst('+', v, EDGE_CHARS);
  }

  lemma PlusAllIn(v: string)
    requires AllIn(v, CURRENCY_CHARS)
    ensures AllIn("+" + v, CURRENCY_CHARS)
  {
    var p := "+" + v;
    forall i | 0 <= i < |p| ensures p[i] in CURRENCY_CHARS {
      if i > 0 {
        assert p[i] == v[i - 1];
      }
    }
  }

  /** On text of CURRENCY_CHARS that does not start with a point, the cleanup only strips the ends. */
  lemma CleanupOfClean(x: string)
    requires AllIn(x, CURRENCY_CHARS) && (x != [] ==> x[0] != '.')
    ensures Cleanup(x) == Strip(x, EDGE_CHARS)
  {
    KeepAllIn(x, CURRENCY_CHARS);
  }

  /** The parse depends on nothing but the cleaned text. */
  lemma ParseReadsCleanup(a: string, b: string)
    requires Cleanup(a) == Cleanup(b)
    ensures ParseMilliunits(a) == ParseMilliunits(b)
  {
  }

  /**
   * A number that opens with a point reads as if a `0` stood before it:
   * `.5` is half a unit, 500 milliunits.
   */
  lemma {:induction false} ParseLeadingPoint(points: string, commas: string, d: string)
    requires points != [] && AllIn(points, {'.'}) && AllIn(commas, {','})
    requires d != [] && AllDigits(d)
    ensures ParseMilliunits(points + commas + d) == ParseMilliunits("0." + d)
    ensures ParseMilliunits(points + commas + d) == Some(ToMilliunits(Decimal(false, "0", d)))
  {
    ZeroGroup(d);
    CleanupLeadingPoint(points, commas, d);
    CleanupGroupedText(false, ["0"], d);
    ParseReadsCleanup(points + commas + d, "0." + d);
    ParseGroupedText(false, ["0"], d);
  }

  /** `0.` and digits is the number text of the single group `0`. */
  lemma ZeroGroup(d: string)
    ensures DigitGroups(["0"]) && Concat(["0"]) == "0"
    ensures GroupedText(false, ["0"], d) == if d == [] then "0" else "0." + d
  {
    assert Join(["0"], ",") == "0";
    assert ["0"][..0] == [];
  }

  /**
   * Points, commas and pluses after a number do not change what it reads
   * as: `5.` and `5,` are five units.
   */
  lemma {:induction false} ParseTrailingEdge(negative: bool, groups: seq<string>, fracDigits: string, edge: string)
    requires DigitGroups(groups) && AllDigits(fracDigits) && AllIn(edge, EDGE_CHARS)
    ensures var v := GroupedText(negative, groups, fracDigits);
            ParseMilliunits(v + edge) == ParseMilliunits(v)
    ensures AllDigits(Concat(groups))
    ensures var v := GroupedText(negative, groups, fracDigits);
            ParseMilliunits(v + edge) == Some(ToMilliunits(Decimal(negative, Concat(groups), fracDigits)))
  {
    var v := GroupedText(negative, groups, fracDigits);
    CleanupTrailingEdge(negative, groups, fracDigits, edge);
    CleanupGroupedText(negative, groups, fracDigits);
    ParseReadsCleanup(v + edge, v);
    ParseGroupedText(negative, groups, fracDigits);
  }
}
