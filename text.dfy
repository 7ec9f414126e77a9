/** String and integer helpers standing for the Python built-ins the patient
    registry relies on: `str.lower`, `str.strip`, the `<=` order on `str`,
    `str(int)` and `int(str)`. */
module Text {

  datatype Option<T> = None | Some(value: T)

  datatype Result<T, E> = Ok(value: T) | Err(error: E)

  // ---------------------------------------------------------------------
  // Lower-casing (ASCII letters only)
  // ---------------------------------------------------------------------

  function LowerChar(c: char): char
  {
    if IsUpper(c) then (c as int + 32) as char else c
  }

  predicate IsUpper(c: char)
  {
    'A' <= c <= 'Z'
  }

  /** `s.lower()`, restricted to the ASCII letters: each upper-case letter
      becomes its lower-case letter, every other character stays. */
  function Lower(s: string): (r: string)
    ensures |r| == |s|
    ensures forall i :: 0 <= i < |r| ==> !IsUpper(r[i])
    ensures forall i :: 0 <= i < |s| && IsUpper(s[i]) ==> r[i] as int == s[i] as int + 32
    ensures forall i :: 0 <= i < |s| && !IsUpper(s[i]) ==> r[i] == s[i]
  {
    seq(|s|, i requires 0 <= i < |s| => LowerChar(s[i]))
  }

  /** `c` and `d` are the same character, or the same letter in upper and in
      lower case. */
  predicate SameLetterUpToCase(c: char, d: char)
  {
    c == d || (IsUpper(c) && d as int == c as int + 32) || (IsUpper(d) && c as int == d as int + 32)
  }

  /** `s` and `t` differ at most in the case of ASCII letters. */
  predicate SameUpToCase(s: string, t: string)
  {
    |s| == |t| && forall i :: 0 <= i < |s| ==> SameLetterUpToCase(s[i], t[i])
  }

  lemma LowerCharEq(c: char, d: char)
    ensures LowerChar(c) == LowerChar(d) <==> SameLetterUpToCase(c, d)
  {
  }

  /** Lower-casing makes two strings equal exactly when they differ only in
      the case of ASCII letters: "Bob" and "bob" are one sort key. */
  lemma LowerEqIff(s: string, t: string)
    ensures Lower(s) == Lower(t) <==> SameUpToCase(s, t)
  {
    if |s| == |t| {
      forall i | 0 <= i < |s|
        ensures Lower(s)[i] == Lower(t)[i] <==> SameLetterUpToCase(s[i], t[i])
      {
        LowerCharEq(s[i], t[i]);
      }
      if SameUpToCase(s, t) {
        assert forall i :: 0 <= i < |s| ==> Lower(s)[i] == Lower(t)[i];
      }
    }
  }

  // ---------------------------------------------------------------------
  // Python's order on str: lexicographic by code point, a proper prefix
  // comes first.
  // ---------------------------------------------------------------------

  /** `a <= b` on Python strings. */
  predicate LexLe(a: string, b: string)
  {
    if a == [] then true
    else if b == [] then false
    else if a[0] != b[0] then a[0] < b[0]
    else LexLe(a[1..], b[1..])
  }

  /** `a < b` on Python strings. */
  predicate LexLess(a: string, b: string)
  {
    LexLe(a, b) && a != b
  }

  lemma {:induction false} LexLeRefl(a: string)
    ensures LexLe(a, a)
  {
    if a != [] {
      LexLeRefl(a[1..]);
    }
  }

  lemma {:induction false} LexLeTotal(a: string, b: string)
    ensures LexLe(a, b) || LexLe(b, a)
  {
    if a != [] && b != [] && a[0] == b[0] {
      LexLeTotal(a[1..], b[1..]);
    }
  }

  lemma {:induction false} LexLeAntisym(a: string, b: string)
    ensures LexLe(a, b) && LexLe(b, a) ==> a == b
  {
    if a != [] && b != [] && a[0] == b[0] {
      LexLeAntisym(a[1..], b[1..]);
      assert a == [a[0]] + a[1..];
      assert b == [b[0]] + b[1..];
    }
  }

  lemma {:induction false} LexLeTrans(a: string, b: string, c: string)
    ensures LexLe(a, b) && LexLe(b, c) ==> LexLe(a, c)
  {
    if a != [] && b != [] && c != [] {
      LexLeTrans(a[1..], b[1..], c[1..]);
    }
  }

  /** `a > b` is exactly "not `a <= b`": the exchange sort's swap test and
      the merge's "take the left element" test are complementary. */
  lemma LexLessIffNotLe(a: string, b: string)
    ensures LexLess(b, a) <==> !LexLe(a, b)
  {
    LexLeTotal(a, b);
    LexLeAntisym(a, b);
    LexLeRefl(a);
  }

  // ---------------------------------------------------------------------
  // str.strip()
  // ---------------------------------------------------------------------

  /** The characters Python's `str.isspace` accepts: what `strip()` removes
      from both ends. */
  predicate IsSpace(c: char)
  {
    ('\t' <= c <= '\r') || ('\U{1C}' <= c <= ' ') || c == '\U{85}' || c == '\U{A0}'
    || c == '\U{1680}' || ('\U{2000}' <= c <= '\U{200A}') || c == '\U{2028}'
    || c == '\U{2029}' || c == '\U{202F}' || c == '\U{205F}' || c == '\U{3000}'
  }

  /** The whitespace `int()` skips around a numeral: the same set without the
      four separators U+001C..U+001F, which it treats as ordinary
      characters. */
  predicate IsIntSpace(c: char)
  {
    IsSpace(c) && !('\U{1C}' <= c <= '\U{1F}')
  }

  /** Drops the leading characters that `sp` accepts, and nothing else. */
  function TrimStart(s: string, sp: char -> bool): (r: string)
    ensures |r| <= |s| && r == s[|s| - |r|..]
    ensures r == [] || !sp(r[0])
    ensures forall i :: 0 <= i < |s| - |r| ==> sp(s[i])
  {
    if s != [] && sp(s[0]) then
      var r := TrimStart(s[1..], sp);
      assert s[1..][|s| - 1 - |r|..] == s[|s| - |r|..];
      assert forall i :: 1 <= i < |s| ==> s[i] == s[1..][i - 1];
      r
    else s
  }

  /** Drops the trailing characters that `sp` accepts, and nothing else. */
  function TrimEnd(s: string, sp: char -> bool): (r: string)
    ensures |r| <= |s| && r == s[..|r|]
    ensures r == [] || !sp(r[|r| - 1])
    ensures forall i :: |r| <= i < |s| ==> sp(s[i])
  {
    if s != [] && sp(s[|s| - 1]) then TrimEnd(s[..|s| - 1], sp) else s
  }

  /** `s.strip()`: it is empty exactly when `s` is whitespace only. */
  function Strip(s: string): (r: string)
    ensures |r| <= |s|
    ensures r == [] <==> forall i :: 0 <= i < |s| ==> IsSpace(s[i])
  {
    TrimEnd(TrimStart(s, IsSpace), IsSpace)
  }

  /** The trimming `int()` applies before it reads the numeral. */
  function IntStrip(s: string): (r: string)
    ensures |r| <= |s|
    ensures r == [] <==> forall i :: 0 <= i < |s| ==> IsIntSpace(s[i])
  {
    TrimEnd(TrimStart(s, IsIntSpace), IsIntSpace)
  }

  // ---------------------------------------------------------------------
  // str(n) for an int n
  // ---------------------------------------------------------------------

  predicate IsDigit(c: char)
  {
    '0' <= c <= '9'
  }

  function DigitValue(c: char): nat
    requires IsDigit(c)
  {
    c as int - '0' as int
  }

  function DigitChar(d: nat): (c: char)
    requires d < 10
    ensures IsDigit(c) && DigitValue(c) == d
  {
    ('0' as int + d) as char
  }

  function Pow10(n: nat): (r: nat)
    ensures r >= 1
  {
    if n == 0 then 1 else 10 * Pow10(n - 1)
  }

  /** Decimal digits of a natural number, without leading zeros. */
  function NatToString(n: nat): (r: string)
    ensures 1 <= |r|
    ensures forall i :: 0 <= i < |r| ==> IsDigit(r[i])
  {
    if n < 10 then [DigitChar(n)] else NatToString(n / 10) + [DigitChar(n % 10)]
  }

  /** `str(n)`: a minus sign before the digits of a negative number. */
  function IntToString(n: int): (r: string)
  {
    if n < 0 then "-" + NatToString(-n) else NatToString(n)
  }

  // ---------------------------------------------------------------------
  // int(s) for a string s (base 10)
  // ---------------------------------------------------------------------

  /** A run of ASCII digits in which single underscores may separate digits,
      as `int()` accepts: it starts and ends with a digit and no two
      underscores are adjacent. */
  predicate DigitRun(t: string)
  {
    1 <= |t| && DigitsOrUnderscores(t) && IsDigit(t[0]) && IsDigit(t[|t| - 1]) &&
    forall i, j :: 0 <= i < |t| && j == i + 1 < |t| ==> IsDigit(t[i]) || IsDigit(t[j])
  }

  predicate DigitsOrUnderscores(t: string)
  {
    forall i :: 0 <= i < |t| ==> IsDigit(t[i]) || t[i] == '_'
  }

  /** The value of a digit run; underscores contribute nothing. */
  function DigitsValue(t: string): (v: nat)
    requires DigitsOrUnderscores(t)
  {
    if t == [] then 0
    else if t[|t| - 1] == '_' then DigitsValue(t[..|t| - 1])
    else 10 * DigitsValue(t[..|t| - 1]) + DigitValue(t[|t| - 1])
  }

  /** `int(s)`: surrounding whitespace is ignored, one optional sign, then a
      digit run; anything else is a ValueError (None). A blank answer is
      refused, and an accepted answer holds at least one digit. */
  function ParseInt(s: string): (r: Option<int>)
    ensures IntStrip(s) == [] ==> r == None
    ensures r.Some? ==> exists i :: 0 <= i < |s| && IsDigit(s[i])
  {
    var t := IntStrip(s);
    if t != [] && (t[0] == '+' || t[0] == '-') then
      if DigitRun(t[1..]) then
        var v: int := DigitsValue(t[1..]);
        assert IsDigit(s[|s| - |TrimStart(s, IsIntSpace)| + 1]);
        Some(if t[0] == '-' then -v else v)
      else None
    else if DigitRun(t) then
      assert IsDigit(s[|s| - |TrimStart(s, IsIntSpace)|]);
      Some(DigitsValue(t))
    else None
  }

  lemma {:induction false} NatToStringValue(n: nat)
    ensures DigitsValue(NatToString(n)) == n
  {
    var r := NatToString(n);
    if n >= 10 {
      NatToStringValue(n / 10);
      assert r[..|r| - 1] == NatToString(n / 10);
    }
  }

  /** `int(str(n)) == n` for every integer. */
  lemma ParseIntRoundTrip(n: int)
    ensures ParseInt(IntToString(n)) == Some(n)
  {
    if n < 0 {
      NegativeRoundTrip(n);
    } else {
      NatRoundTrip(n);
    }
  }

  lemma NatRoundTrip(n: nat)
    ensures ParseInt(NatToString(n)) == Some(n)
  {
    var d := NatToString(n);
    NatToStringValue(n);
    StripUnchanged(d);
    assert DigitRun(d);
  }

  lemma NegativeRoundTrip(n: int)
    requires n < 0
    ensures ParseInt(IntToString(n)) == Some(n)
  {
    var d := NatToString(-n);
    NatToStringValue(-n);
    var s := IntToString(n);
    assert s == "-" + d;
    assert s[0] == '-' && s[1..] == d;
    assert s[|s| - 1] == d[|d| - 1];
    assert IsDigit(s[|s| - 1]);
    StripUnchanged(s);
    assert DigitRun(d);
    var t := IntStrip(s);
    assert t[1..] == d;
    var v: int := DigitsValue(t[1..]);
    assert v == -n;
  }

  /** The trimming of `int()` leaves a string alone when neither end is
      whitespace. */
  lemma StripUnchanged(s: string)
    requires s != [] && !IsIntSpace(s[0]) && !IsIntSpace(s[|s| - 1])
    ensures IntStrip(s) == s
  {
  }

  /** A numeral below 1000 takes at most three characters. */
  lemma NatToStringShort(n: nat)
    requires n < 1000
    ensures |NatToString(n)| <= 3
  {
    if n >= 10 {
      assert |NatToString(n / 10)| <= 2 by {
        if n / 10 >= 10 {
          assert |NatToString(n / 100)| == 1;
        }
      }
    }
  }

  lemma {:induction false} DigitsValueBound(t: string)
    requires DigitsOrUnderscores(t)
    ensures DigitsValue(t) < Pow10(|t|)
  {
    if t != [] {
      var init := t[..|t| - 1];
      DigitsValueBound(init);
      assert Pow10(|t|) == 10 * Pow10(|init|);
    }
  }

  /** A string of at most `m` characters parses to a value below `10^m`. */
  lemma ParseIntBound(s: string, m: nat)
    requires |s| <= m
    ensures ParseInt(s).Some? ==> ParseInt(s).value < Pow10(m)
  {
    var t := IntStrip(s);
    if t != [] && (t[0] == '+' || t[0] == '-') {
      if DigitRun(t[1..]) {
        DigitsValueBound(t[1..]);
        Pow10Mono(|t| - 1, m);
      }
    } else if DigitRun(t) {
      DigitsValueBound(t);
      Pow10Mono(|t|, m);
    }
  }

  lemma {:induction false} Pow10Mono(a: nat, b: nat)
    ensures a <= b ==> Pow10(a) <= Pow10(b)
  {
    if a < b {
      Pow10Mono(a, b - 1);
    }
  }
}
