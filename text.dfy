/**
 * The Python string operations the codecs rely on (`str.strip`, `str.replace`,
 * `re.sub` with a character class, `int`/`str` on ASCII digits), written over
 * `seq<char>`. Whitespace is ASCII whitespace as `str.isspace` sees it.
 */
module Text {

  const DIGITS: set<char> := {'0', '1', '2', '3', '4', '5', '6', '7', '8', '9'}

  /**
   * The ASCII characters for which Python's `str.isspace()` (and regex `\s`)
   * hold: tab through carriage return, and the four separators up to the
   * space. `WhitespaceChars` lists them.
   */
  const WHITESPACE: set<char> := set c: char | '\t' <= c <= '\r' || '\U{1C}' <= c <= ' '

  lemma WhitespaceChars()
    ensures WHITESPACE == {' ', '\t', '\n', '\r', '\U{0B}', '\U{0C}', '\U{1C}', '\U{1D}', '\U{1E}', '\U{1F}'}
  {
  }

  predicate IsDigit(c: char) { '0' <= c <= '9' }

  predicate AllDigits(s: string) { forall i :: 0 <= i < |s| ==> IsDigit(s[i]) }

  predicate NoneIn(s: string, cs: set<char>) { forall i :: 0 <= i < |s| ==> s[i] !in cs }

  predicate AllIn(s: string, cs: set<char>) { forall i :: 0 <= i < |s| ==> s[i] in cs }

  lemma DigitsSet(c: char)
    ensures c in DIGITS <==> IsDigit(c)
  {
  }

  lemma DigitsInSet(s: string)
    requires AllDigits(s)
    ensures AllIn(s, DIGITS)
  {
    forall i | 0 <= i < |s| ensures s[i] in DIGITS {
      DigitsSet(s[i]);
    }
  }

  // ---------------------------------------------------------------- filtering

  /** `re.sub("[^...]", "", s)`: keeps exactly the characters of `s` that are in `cs`, in order. */
  function Keep(s: string, cs: set<char>): (r: string)
    ensures |r| <= |s|
    ensures AllIn(r, cs)
  {
    if s == [] then [] else (if s[0] in cs then [s[0]] else []) + Keep(s[1..], cs)
  }

  lemma {:induction false} KeepAppend(a: string, b: string, cs: set<char>)
    ensures Keep(a + b, cs) == Keep(a, cs) + Keep(b, cs)
  {
    if a == [] {
      assert a + b == b;
    } else {
      var head := if a[0] in cs then [a[0]] else [];
      assert (a + b)[0] == a[0] && (a + b)[1..] == a[1..] + b;
      assert Keep(a + b, cs) == head + Keep(a[1..] + b, cs);
      KeepAppend(a[1..], b, cs);
      assert head + (Keep(a[1..], cs) + Keep(b, cs)) == (head + Keep(a[1..], cs)) + Keep(b, cs);
    }
  }

  lemma {:induction false} KeepAllIn(s: string, cs: set<char>)
    requires AllIn(s, cs)
    ensures Keep(s, cs) == s
  {
    if s != [] {
      KeepAllIn(s[1..], cs);
    }
  }

  /** Keeping characters never brings in one the text did not have. */
  lemma {:induction false} KeepKeepsNoneIn(s: string, cs: set<char>, absent: set<char>)
    requires NoneIn(s, absent)
    ensures NoneIn(Keep(s, cs), absent)
  {
    if s != [] {
      KeepKeepsNoneIn(s[1..], cs, absent);
      var head := if s[0] in cs then [s[0]] else [];
      var r := Keep(s, cs);
      assert r == head + Keep(s[1..], cs);
      forall i | 0 <= i < |r| ensures r[i] !in absent {
        if i >= |head| {
          assert r[i] == Keep(s[1..], cs)[i - |head|];
        }
      }
    }
  }

  lemma {:induction false} KeepNoneIn(s: string, cs: set<char>)
    requires NoneIn(s, cs)
    ensures Keep(s, cs) == []
  {
    if s != [] {
      KeepNoneIn(s[1..], cs);
    }
  }

  // ---------------------------------------------------------------- stripping

  /** Length of the longest prefix of `s` made of characters of `cs`. */
  function LeadingRun(s: string, cs: set<char>): (n: nat)
    ensures n <= |s|
    ensures forall i :: 0 <= i < n ==> s[i] in cs
    ensures n < |s| ==> s[n] !in cs
  {
    if s != [] && s[0] in cs then 1 + LeadingRun(s[1..], cs) else 0
  }

  /** Length of the longest suffix of `s` made of characters of `cs`. */
  function TrailingRun(s: string, cs: set<char>): (n: nat)
    ensures n <= |s|
    ensures forall i :: |s| - n <= i < |s| ==> s[i] in cs
    ensures n < |s| ==> s[|s| - 1 - n] !in cs
  {
    if s != [] && s[|s| - 1] in cs then 1 + TrailingRun(s[..|s| - 1], cs) else 0
  }

  /** `s.lstrip(chars)` */
  function LStrip(s: string, cs: set<char>): (r: string)
    ensures r == s[LeadingRun(s, cs)..]
  {
    s[LeadingRun(s, cs)..]
  }

  /** `s.rstrip(chars)` */
  function RStrip(s: string, cs: set<char>): (r: string)
    ensures r == s[..|s| - TrailingRun(s, cs)]
  {
    s[..|s| - TrailingRun(s, cs)]
  }

  /** `s.strip(chars)`: the middle slice of `s` whose ends are not in `cs`. */
  function Strip(s: string, cs: set<char>): (r: string)
    ensures |r| <= |s| - LeadingRun(s, cs)
    ensures r == s[LeadingRun(s, cs)..LeadingRun(s, cs) + |r|]
    ensures r != [] ==> r[0] !in cs && r[|r| - 1] !in cs
    ensures r == [] ==> AllIn(s, cs)
  {
    var t := LStrip(s, cs);
    var r := RStrip(t, cs);
    assert r == s[LeadingRun(s, cs)..LeadingRun(s, cs) + |r|];
    r
  }

  /** A prefix of known extent is the leading run. */
  lemma LeadingRunIs(s: string, cs: set<char>, k: nat)
    requires k <= |s| && (forall i :: 0 <= i < k ==> s[i] in cs) && (k < |s| ==> s[k] !in cs)
    ensures LeadingRun(s, cs) == k
  {
  }

  /** A suffix of known extent is the trailing run. */
  lemma {:induction false} TrailingRunIs(s: string, cs: set<char>, k: nat)
    requires k <= |s| && (forall i :: |s| - k <= i < |s| ==> s[i] in cs) && (k < |s| ==> s[|s| - 1 - k] !in cs)
    ensures TrailingRun(s, cs) == k
  {
    if k > 0 {
      var front := s[..|s| - 1];
      assert forall i :: |front| - (k - 1) <= i < |front| ==> front[i] == s[i];
      TrailingRunIs(front, cs, k - 1);
    }
  }

  /** `strip` removes padding made of its characters from both ends. */
  lemma StripPadded(a: string, t: string, b: string, cs: set<char>)
    requires AllIn(a, cs) && AllIn(b, cs)
    requires t != [] && t[0] !in cs && t[|t| - 1] !in cs
    ensures Strip(a + t + b, cs) == t
  {
    var s := a + t + b;
    assert s[|a|] == t[0];
    LeadingRunIs(s, cs, |a|);
    var rest := s[|a|..];
    assert rest == t + b;
    assert rest[|rest| - 1 - |b|] == t[|t| - 1];
    TrailingRunIs(rest, cs, |b|);
    assert rest[..|rest| - |b|] == t;
  }

  /** A first character that `strip` keeps stays first. */
  lemma StripKeepsFirst(s: string, cs: set<char>)
    requires s != [] && s[0] !in cs
    ensures Strip(s, cs) != [] && Strip(s, cs)[0] == s[0]
  {
    LeadingRunIs(s, cs, 0);
  }

  /** A leading character that `strip` removes makes no difference. */
  lemma StripDropsFirst(c: char, s: string, cs: set<char>)
    requires c in cs
    ensures Strip([c] + s, cs) == Strip(s, cs)
  {
    assert ([c] + s)[1..] == s;
  }

  lemma StripUnchanged(s: string, cs: set<char>)
    requires s != [] ==> s[0] !in cs && s[|s| - 1] !in cs
    ensures Strip(s, cs) == s
  {
  }

  /** Characters of `cs` are none of `keep` when the two sets are disjoint. */
  lemma DisjointNoneIn(s: string, cs: set<char>, keep: set<char>)
    requires cs * keep == {} && AllIn(s, cs)
    ensures NoneIn(s, keep)
  {
    forall i | 0 <= i < |s| ensures s[i] !in keep {
      assert s[i] !in cs * keep;
    }
  }

  lemma {:induction false} LStripThenKeep(s: string, cs: set<char>, keep: set<char>)
    requires cs * keep == {}
    ensures Keep(LStrip(s, cs), keep) == Keep(s, keep)
  {
    var a := LeadingRun(s, cs);
    var head := s[..a];
    assert s == head + LStrip(s, cs);
    assert AllIn(head, cs) by {
      forall i | 0 <= i < a ensures head[i] in cs {
        assert head[i] == s[i];
      }
    }
    DisjointNoneIn(head, cs, keep);
    KeepAppend(head, LStrip(s, cs), keep);
    KeepNoneIn(head, keep);
  }

  lemma {:induction false} RStripThenKeep(t: string, cs: set<char>, keep: set<char>)
    requires cs * keep == {}
    ensures Keep(RStrip(t, cs), keep) == Keep(t, keep)
  {
    var n := TrailingRun(t, cs);
    var tail := t[|t| - n..];
    assert t == RStrip(t, cs) + tail;
    assert AllIn(tail, cs) by {
      forall i | 0 <= i < n ensures tail[i] in cs {
        assert tail[i] == t[|t| - n + i];
      }
    }
    DisjointNoneIn(tail, cs, keep);
    KeepAppend(RStrip(t, cs), tail, keep);
    KeepNoneIn(tail, keep);
  }

  /** Stripping characters that a filter drops anyway does not change what it keeps. */
  lemma {:induction false} StripThenKeep(s: string, cs: set<char>, keep: set<char>)
    requires cs * keep == {}
    ensures Keep(Strip(s, cs), keep) == Keep(s, keep)
  {
    assert Strip(s, cs) == RStrip(LStrip(s, cs), cs);
    RStripThenKeep(LStrip(s, cs), cs, keep);
    LStripThenKeep(s, cs, keep);
  }

  // ---------------------------------------------------------------- search

  /** Index of the first occurrence of `c` in `s`. */
  function IndexOf(s: string, c: char): (k: nat)
    requires c in s
    ensures k < |s| && s[k] == c && c !in s[..k]
  {
    if s[0] == c then 0 else 1 + IndexOf(s[1..], c)
  }

  /** The first occurrence comes no later than any occurrence. */
  lemma {:induction false} IndexOfAtMost(s: string, c: char, i: nat)
    requires i < |s| && s[i] == c
    ensures IndexOf(s, c) <= i
  {
    if s[0] != c {
      assert s[1..][i - 1] == c;
      IndexOfAtMost(s[1..], c, i - 1);
    }
  }

  /** Where the first point of `d + "." + rest` is, when `d` has none. */
  lemma {:induction false} FirstPoint(d: string, rest: string)
    requires '.' !in d
    ensures '.' in d + "." + rest && IndexOf(d + "." + rest, '.') == |d|
    ensures (d + "." + rest)[..|d|] == d && (d + "." + rest)[|d| + 1..] == rest
  {
    var s := d + "." + rest;
    assert s[|d|] == '.';
    assert s[..|d|] == d;
    var k := IndexOf(s, '.');
  }

  /** Digits hold no point. */
  lemma {:induction false} DigitsHoldNoPoint(d: string)
    requires AllDigits(d)
    ensures '.' !in d
  {
  }

  /** Does `sub` occur anywhere in `s`? */
  predicate Occurs(s: string, sub: string)
  {
    exists i :: 0 <= i <= |s| - |sub| && OccursAt(s, sub, i)
  }

  /** Does `sub` occur in `s` starting at index `i`? */
  predicate OccursAt(s: string, sub: string, i: int)
  {
    0 <= i <= |s| - |sub| && s[i..i + |sub|] == sub
  }

  /** Concatenation regrouped; stated apart so that proofs can use it without unfolding anything else. */
  lemma AppendAssociates(a: string, b: string, c: string)
    ensures a + b + c == a + (b + c)
  {
  }

  /** The text before the first line feed: what a regex `.*` matches. */
  function TakeLine(s: string): (r: string)
    ensures '\n' !in r
    ensures |r| <= |s| && r == s[..|r|]
    ensures |r| < |s| ==> s[|r|] == '\n'
  {
    if s == [] || s[0] == '\n' then [] else [s[0]] + TakeLine(s[1..])
  }

  lemma {:induction false} TakeLineNoNewline(s: string)
    requires '\n' !in s
    ensures TakeLine(s) == s
  {
    if s != [] {
      TakeLineNoNewline(s[1..]);
    }
  }

  // ---------------------------------------------------------------- replacing

  /** Replaces every character `c` by `t`, leaving the others. */
  function ReplaceChar(s: string, c: char, t: string): (r: string)
    ensures c !in s ==> r == s
  {
    if s == [] then [] else (if s[0] == c then t else [s[0]]) + ReplaceChar(s[1..], c, t)
  }

  lemma {:induction false} ReplaceCharAppend(a: string, b: string, c: char, t: string)
    ensures ReplaceChar(a + b, c, t) == ReplaceChar(a, c, t) + ReplaceChar(b, c, t)
  {
    if a == [] {
      assert a + b == b;
    } else {
      assert (a + b)[1..] == a[1..] + b;
      ReplaceCharAppend(a[1..], b, c, t);
    }
  }

  /**
   * `s.replace(pat, rep)`: scans left to right and replaces each
   * non-overlapping occurrence of `pat`; the inserted text is not rescanned.
   */
  function ReplaceAll(s: string, pat: string, rep: string): string
    requires pat != []
    decreases |s|
  {
    if |s| < |pat| then s
    else if s[..|pat|] == pat then rep + ReplaceAll(s[|pat|..], pat, rep)
    else [s[0]] + ReplaceAll(s[1..], pat, rep)
  }

  /** Replacing a one-character string is replacing that character. */
  lemma {:induction false} ReplaceAllOneChar(s: string, c: char, t: string)
    ensures ReplaceAll(s, [c], t) == ReplaceChar(s, c, t)
  {
    if s != [] {
      ReplaceAllOneChar(s[1..], c, t);
    }
  }

  /** A first character that cannot start `pat` is copied. */
  lemma ReplaceAllHead(c: char, s: string, pat: string, rep: string)
    requires pat != [] && c != pat[0]
    ensures ReplaceAll([c] + s, pat, rep) == [c] + ReplaceAll(s, pat, rep)
  {
    assert ([c] + s)[1..] == s;
    if |[c] + s| >= |pat| {
      assert ([c] + s)[..|pat|][0] == c;
    } else {
      assert ReplaceAll(s, pat, rep) == s;
    }
  }

  /** An occurrence of `pat` at the front is replaced. */
  lemma ReplaceAllFront(s: string, pat: string, rep: string)
    requires pat != []
    ensures ReplaceAll(pat + s, pat, rep) == rep + ReplaceAll(s, pat, rep)
  {
    assert (pat + s)[..|pat|] == pat;
    assert (pat + s)[|pat|..] == s;
  }

  /** Text not containing `pat` is left as it is. */
  lemma {:induction false} ReplaceAllAbsent(s: string, pat: string, rep: string)
    requires pat != [] && !Occurs(s, pat)
    ensures ReplaceAll(s, pat, rep) == s
    decreases |s|
  {
    if |s| >= |pat| {
      if s[..|pat|] == pat {
        assert OccursAt(s, pat, 0);
        assert false;
      }
      assert !Occurs(s[1..], pat) by {
        forall i | 0 <= i <= |s[1..]| - |pat|
          ensures !OccursAt(s[1..], pat, i)
        {
          assert s[1..][i..i + |pat|] == s[i + 1..i + 1 + |pat|];
          assert !OccursAt(s, pat, i + 1);
        }
      }
      ReplaceAllAbsent(s[1..], pat, rep);
    }
  }

  /**
   * A prefix in which no occurrence of `pat` can start is copied through,
   * provided the text after it does not begin with a character of `pat`.
   */
  lemma {:induction false} ReplaceAllSkip(a: string, x: string, pat: string, rep: string)
    requires pat != [] && !Occurs(a, pat)
    requires x == [] || x[0] !in pat
    ensures ReplaceAll(a + x, pat, rep) == a + ReplaceAll(x, pat, rep)
    decreases |a|
  {
    if a != [] {
      var s := a + x;
      if |s| >= |pat| {
        if |pat| <= |a| {
          assert s[..|pat|] == a[..|pat|];
          if s[..|pat|] == pat {
            assert OccursAt(a, pat, 0);
          }
        } else {
          assert s[|a|] == x[0];
        }
        assert s[1..] == a[1..] + x;
        NoOccurrenceInTail(a, pat);
        ReplaceAllSkip(a[1..], x, pat, rep);
        assert ReplaceAll(s, pat, rep) == [s[0]] + ReplaceAll(s[1..], pat, rep);
        assert [a[0]] + a[1..] == a;
      } else {
        assert |x| < |pat|;
        assert ReplaceAll(x, pat, rep) == x;
      }
    } else {
      assert a + x == x;
    }
  }

  lemma NoOccurrenceInTail(a: string, pat: string)
    requires a != [] && !Occurs(a, pat)
    ensures !Occurs(a[1..], pat)
  {
    if Occurs(a[1..], pat) {
      var i :| 0 <= i <= |a[1..]| - |pat| && OccursAt(a[1..], pat, i);
      assert a[i + 1..i + 1 + |pat|] == a[1..][i..i + |pat|];
      assert OccursAt(a, pat, i + 1);
    }
  }

  // ---------------------------------------------------------------- digits

  /** Python's `abs` on integers. */
  function Abs(x: int): nat { if x < 0 then -x else x }

  function DigitVal(c: char): (d: nat)
    requires IsDigit(c)
    ensures d < 10
  {
    (c as int - '0' as int) as nat
  }

  function DigitChar(d: nat): (c: char)
    requires d < 10
    ensures IsDigit(c) && DigitVal(c) == d
  {
    ('0' as int + d) as char
  }

  function Pow10(n: nat): (p: nat)
    ensures p >= 1
  {
    if n == 0 then 1 else 10 * Pow10(n - 1)
  }

  lemma {:induction false} Pow10Add(a: nat, b: nat)
    ensures Pow10(a + b) == Pow10(a) * Pow10(b)
  {
    if b != 0 {
      Pow10Add(a, b - 1);
      assert Pow10(a + b) == 10 * Pow10(a + b - 1);
    }
  }

  /** The number a string of ASCII digits denotes, as Python's `int()` reads it. */
  function Val(s: string): (v: nat)
    requires AllDigits(s)
    ensures v < Pow10(|s|)
  {
    if s == [] then 0 else Val(s[..|s| - 1]) * 10 + DigitVal(s[|s| - 1])
  }

  lemma {:induction false} ValAppend(a: string, b: string)
    requires AllDigits(a) && AllDigits(b)
    ensures AllDigits(a + b)
    ensures Val(a + b) == Val(a) * Pow10(|b|) + Val(b)
    decreases |b|
  {
    if b == [] {
      assert a + b == a;
    } else {
      var b' := b[..|b| - 1];
      assert (a + b)[..|a + b| - 1] == a + b';
      ValAppend(a, b');
      var x, p, y, d := Val(a), Pow10(|b'|), Val(b'), DigitVal(b[|b| - 1]);
      assert (a + b)[|a + b| - 1] == b[|b| - 1];
      assert Val(a + b) == Val(a + b') * 10 + d;
      assert Val(b) == y * 10 + d;
      assert Pow10(|b|) == p * 10;
      ShiftDigit(x, p, y, d);
    }
  }

  lemma {:induction false} ValZeros(s: string)
    requires forall i :: 0 <= i < |s| ==> s[i] == '0'
    ensures AllDigits(s) && Val(s) == 0
  {
    if s != [] {
      ValZeros(s[..|s| - 1]);
    }
  }

  lemma ValSingle(c: char)
    requires IsDigit(c)
    ensures Val([c]) == DigitVal(c)
  {
    assert [c][..0] == [];
  }

  lemma ShiftDigit(x: int, p: int, y: int, d: int)
    ensures (x * p + y) * 10 + d == x * (p * 10) + (y * 10 + d)
  {
  }

  /** Python's `str(n)` for a non-negative integer: no leading zeros, "0" for zero. */
  function NatToDigits(n: nat): (s: string)
    ensures s != [] && AllDigits(s) && Val(s) == n
    ensures |s| > 1 ==> s[0] != '0'
  {
    if n < 10 then [DigitChar(n)]
    else
      var s := NatToDigits(n / 10) + [DigitChar(n % 10)];
      assert s[..|s| - 1] == NatToDigits(n / 10);
      s
  }

  /** Python's `f"{n:0{w}d}"` for `n < 10^w`: exactly `w` digits with leading zeros. */
  function FixedDigits(n: nat, w: nat): (s: string)
    requires n < Pow10(w)
    ensures |s| == w && AllDigits(s) && Val(s) == n
  {
    if w == 0 then []
    else
      var s := FixedDigits(n / 10, w - 1) + [DigitChar(n % 10)];
      assert s[..|s| - 1] == FixedDigits(n / 10, w - 1);
      s
  }

  /** Zero is written `0`, and `00` in two places. */
  lemma ZeroDigits()
    ensures NatToDigits(0) == "0" && FixedDigits(0, 2) == "00"
  {
    assert DigitChar(0) == '0';
    assert NatToDigits(0) == [DigitChar(0)];
    assert FixedDigits(0, 1) == FixedDigits(0, 0) + [DigitChar(0)];
    assert FixedDigits(0, 2) == FixedDigits(0, 1) + [DigitChar(0)];
  }

  // ---------------------------------------------------------------- joining

  /** `sep.join(parts)` */
  function Join(parts: seq<string>, sep: string): string
  {
    if parts == [] then []
    else if |parts| == 1 then parts[0]
    else Join(parts[..|parts| - 1], sep) + sep + parts[|parts| - 1]
  }

  lemma JoinSnoc(parts: seq<string>, p: string, sep: string)
    requires parts != []
    ensures Join(parts + [p], sep) == Join(parts, sep) + sep + p
  {
    assert (parts + [p])[..|parts|] == parts;
  }

  lemma {:induction false} JoinLength(parts: seq<string>, sep: string)
    requires parts != []
    ensures |Join(parts, sep)| == |Concat(parts)| + (|parts| - 1) * |sep|
  {
    if |parts| > 1 {
      var front := parts[..|parts| - 1];
      JoinLength(front, sep);
      var k := |parts|;
      assert (k - 1) * |sep| == (k - 2) * |sep| + |sep|;
      assert Concat(parts) == Concat(front) + parts[k - 1];
      assert Join(parts, sep) == Join(front, sep) + sep + parts[k - 1];
    }
  }

  lemma {:induction false} JoinFirst(parts: seq<string>, sep: string)
    requires parts != [] && parts[0] != []
    ensures Join(parts, sep) != [] && Join(parts, sep)[0] == parts[0][0]
  {
    if |parts| > 1 {
      var front := parts[..|parts| - 1];
      JoinFirst(front, sep);
    }
  }

  lemma {:induction false} JoinAllIn(parts: seq<string>, sep: string, cs: set<char>)
    requires forall i :: 0 <= i < |parts| ==> AllIn(parts[i], cs)
    requires AllIn(sep, cs)
    ensures AllIn(Join(parts, sep), cs)
  {
    if |parts| > 1 {
      var front := parts[..|parts| - 1];
      JoinAllIn(front, sep, cs);
      var j, last := Join(front, sep), parts[|parts| - 1];
      assert AllIn(last, cs);
      assert forall i :: 0 <= i < |j + sep + last| ==>
        (j + sep + last)[i] == (if i < |j| then j[i] else if i < |j| + |sep| then sep[i - |j|] else last[i - |j| - |sep|]);
    }
  }

  lemma {:induction false} ConcatAllIn(parts: seq<string>, cs: set<char>)
    requires AllIn(Concat(parts), cs)
    ensures forall i :: 0 <= i < |parts| ==> AllIn(parts[i], cs)
  {
    if parts != [] {
      var front, last := parts[..|parts| - 1], parts[|parts| - 1];
      var c := Concat(front);
      assert Concat(parts) == c + last;
      assert forall k :: 0 <= k < |c| ==> Concat(parts)[k] == c[k];
      assert forall k :: 0 <= k < |last| ==> Concat(parts)[|c| + k] == last[k];
      ConcatAllIn(front, cs);
      forall i | 0 <= i < |parts| ensures AllIn(parts[i], cs) {
        if i < |parts| - 1 {
          assert parts[i] == front[i];
        }
      }
    }
  }

  lemma {:induction false} ReplaceCharJoin(parts: seq<string>, c: char, t: string)
    requires forall i :: 0 <= i < |parts| ==> c !in parts[i]
    ensures ReplaceChar(Join(parts, [c]), c, t) == Join(parts, t)
  {
    if |parts| == 1 {
    } else if |parts| > 1 {
      var front, last := parts[..|parts| - 1], parts[|parts| - 1];
      ReplaceCharJoin(front, c, t);
      ReplaceCharAppend(Join(front, [c]) + [c], last, c, t);
      ReplaceCharAppend(Join(front, [c]), [c], c, t);
      assert [c][1..] == [];
      assert ReplaceChar([c], c, t) == t + ReplaceChar([], c, t);
    }
  }

  lemma {:induction false} KeepJoin(parts: seq<string>, sep: string, cs: set<char>)
    requires forall i :: 0 <= i < |parts| ==> AllIn(parts[i], cs)
    requires NoneIn(sep, cs)
    ensures Keep(Join(parts, sep), cs) == Concat(parts)
  {
    if |parts| == 1 {
      KeepAllIn(parts[0], cs);
      assert parts == [] + [parts[0]];
      assert Concat(parts) == Concat([]) + parts[0];
    } else if |parts| > 1 {
      var front, last := parts[..|parts| - 1], parts[|parts| - 1];
      KeepJoin(front, sep, cs);
      KeepAppend(Join(front, sep) + sep, last, cs);
      KeepAppend(Join(front, sep), sep, cs);
      KeepNoneIn(sep, cs);
      KeepAllIn(last, cs);
    }
  }

  /** The concatenation of `parts`. */
  function Concat(parts: seq<string>): string
  {
    if parts == [] then [] else Concat(parts[..|parts| - 1]) + parts[|parts| - 1]
  }

  // ------------------------------------------------------------ ordering

  /** Python's `<=` on strings: lexicographic by code point. */
  predicate LexLe(a: string, b: string)
    decreases |a|
  {
    a == [] || (b != [] && (a[0] < b[0] || (a[0] == b[0] && LexLe(a[1..], b[1..]))))
  }

  lemma {:induction false} LexLeTotal(a: string, b: string)
    ensures LexLe(a, b) || LexLe(b, a)
    decreases |a|
  {
    if a != [] && b != [] && a[0] == b[0] {
      LexLeTotal(a[1..], b[1..]);
    }
  }

  lemma {:induction false} LexLeTransitive(a: string, b: string, c: string)
    requires LexLe(a, b) && LexLe(b, c)
    ensures LexLe(a, c)
    decreases |a|
  {
    if a != [] && b != [] && c != [] && a[0] == b[0] && b[0] == c[0] {
      LexLeTransitive(a[1..], b[1..], c[1..]);
    }
  }

  lemma {:induction false} LexLeAntisymmetric(a: string, b: string)
    requires LexLe(a, b) && LexLe(b, a)
    ensures a == b
    decreases |a|
  {
    if a != [] && b != [] {
      LexLeAntisymmetric(a[1..], b[1..]);
      assert a == [a[0]] + a[1..] && b == [b[0]] + b[1..];
    }
  }
}
