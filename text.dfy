/** String primitives the handlers rely on: the case-insensitive substring
    match of the database's `contains ... mode: 'insensitive'` filter (over
    ASCII letters) and JavaScript's `parseInt` without a radix. */
module Text {
  import opened Base

  predicate IsUpper(c: char) {
    'A' <= c <= 'Z'
  }

  /** ASCII lower-casing of one character. */
  function LowerChar(c: char): (d: char)
    ensures !IsUpper(d)
    ensures !IsUpper(c) ==> d == c
    ensures IsUpper(c) ==> 'a' <= d <= 'z' && d as int - c as int == 'a' as int - 'A' as int
  {
    if IsUpper(c) then (c as int - 'A' as int + 'a' as int) as char else c
  }

  function Lower(s: string): (t: string)
    ensures |t| == |s|
  {
    seq(|s|, i requires 0 <= i < |s| => LowerChar(s[i]))
  }

  /** `pat` occurs in `s` starting at position `i`. */
  predicate OccursAt(pat: string, s: string, i: nat) {
    i + |pat| <= |s| && s[i..i + |pat|] == pat
  }

  /** `pat` occurs in `s` at some position. */
  predicate IsSubstring(pat: string, s: string) {
    exists i: nat :: i <= |s| && OccursAt(pat, s, i)
  }

  /** The database's case-insensitive `contains` filter. A pattern longer
      than the text never matches. */
  predicate ContainsIgnoreCase(text: string, pat: string)
    ensures ContainsIgnoreCase(text, pat) ==> |pat| <= |text|
  {
    IsSubstring(Lower(pat), Lower(text))
  }

  lemma LowerIdempotent(s: string)
    ensures Lower(Lower(s)) == Lower(s)
  {
  }

  /** An empty filter restricts nothing. */
  lemma EmptyPatternMatches(text: string)
    ensures ContainsIgnoreCase(text, "")
  {
    assert OccursAt(Lower(""), Lower(text), 0);
  }

  /** Every string contains itself, whatever the case of either side. */
  lemma ContainsItself(s: string, t: string)
    requires Lower(s) == Lower(t)
    ensures ContainsIgnoreCase(s, t)
  {
    assert Lower(s)[0..|Lower(t)|] == Lower(t);
    assert OccursAt(Lower(t), Lower(s), 0);
  }

  /** A match found in a text survives text added on either side. */
  lemma {:induction false} ContainsInLongerText(pre: string, text: string, post: string, pat: string)
    requires ContainsIgnoreCase(text, pat)
    ensures ContainsIgnoreCase(pre + text + post, pat)
  {
    var lp, lt := Lower(pat), Lower(text);
    var i: nat :| i <= |lt| && OccursAt(lp, lt, i);
    var big := Lower(pre + text + post);
    assert big == Lower(pre) + lt + Lower(post);
    var j := |pre| + i;
    assert big[j..j + |lp|] == lt[i..i + |lp|];
    assert OccursAt(lp, big, j);
  }

  // ---------------------------------------------------------------------
  // parseInt(s) with no radix: leading white space, an optional sign, an
  // optional 0x/0X prefix selecting base 16, then the longest run of digits
  // of that base. No digits at all is NaN, modelled as None.

  predicate IsSpace(c: char) {
    c == ' ' || c == '\t' || c == '\n' || c == '\r' || c as int == 11 || c as int == 12
  }

  function DigitValue(c: char, radix: nat): (v: Option<nat>)
    requires radix == 10 || radix == 16
    ensures v.Some? ==> v.value < radix
  {
    if '0' <= c <= '9' then Some(c as int - '0' as int)
    else if radix == 16 && 'a' <= c <= 'f' then Some(c as int - 'a' as int + 10)
    else if radix == 16 && 'A' <= c <= 'F' then Some(c as int - 'A' as int + 10)
    else None
  }

  /** Length of the longest prefix of `s` made of digits of `radix`. */
  function DigitRun(s: string, radix: nat): (n: nat)
    requires radix == 10 || radix == 16
    ensures n <= |s|
    ensures forall i :: 0 <= i < n ==> DigitValue(s[i], radix).Some?
    ensures n < |s| ==> DigitValue(s[n], radix).None?
  {
    if |s| == 0 || DigitValue(s[0], radix).None? then 0
    else 1 + DigitRun(s[1..], radix)
  }

  /** Value of a string of digits, most significant first. */
  function DigitsValue(ds: string, radix: nat): nat
    requires radix == 10 || radix == 16
    requires forall i :: 0 <= i < |ds| ==> DigitValue(ds[i], radix).Some?
  {
    if |ds| == 0 then 0
    else DigitsValue(ds[..|ds| - 1], radix) * radix + DigitValue(ds[|ds| - 1], radix).value
  }

  function SkipSpaces(s: string): (t: string)
    ensures |t| <= |s| && t == s[|s| - |t|..]
    ensures forall i :: 0 <= i < |s| - |t| ==> IsSpace(s[i])
    ensures |t| > 0 ==> !IsSpace(t[0])
  {
    if |s| > 0 && IsSpace(s[0]) then
      var t := SkipSpaces(s[1..]);
      assert forall i :: 1 <= i < |s| ==> s[1..][i - 1] == s[i];
      t
    else s
  }

  /** parseInt after the sign: base prefix and digit run. */
  function ParseMagnitude(s: string): Option<nat> {
    var hex := |s| >= 2 && s[0] == '0' && (s[1] == 'x' || s[1] == 'X');
    var radix := if hex then 16 else 10;
    var body := if hex then s[2..] else s;
    var n := DigitRun(body, radix);
    if n == 0 then None else Some(DigitsValue(body[..n], radix))
  }

  /** The text after an optional leading sign. */
  function Unsigned(t: string): string {
    if |t| > 0 && (t[0] == '-' || t[0] == '+') then t[1..] else t
  }

  /** The text starts with a decimal digit. */
  predicate StartsWithDigit(s: string) {
    |s| > 0 && DigitValue(s[0], 10).Some?
  }

  /** A number is read only when, after the blanks and an optional sign, the
      text starts with a decimal digit (a base prefix starts with `0`). */
  function ParseInt(s: string): (r: Option<int>)
    ensures r.Some? ==> StartsWithDigit(Unsigned(SkipSpaces(s)))
  {
    ParseSigned(SkipSpaces(s))
  }

  /** parseInt after the leading white space: an optional sign, then the
      magnitude. */
  function ParseSigned(t: string): Option<int> {
    var negative := |t| > 0 && t[0] == '-';
    match ParseMagnitude(Unsigned(t))
    case None => None
    case Some(m) =>
      var v: int := m;
      Some(if negative then -v else v)
  }

  // ---------------------------------------------------------------------
  // The decimal rendering of an integer, the partner of ParseInt.

  function DigitChar(d: nat): (c: char)
    requires d < 10
    ensures DigitValue(c, 10) == Some(d)
  {
    ('0' as int + d) as char
  }

  function ShowNat(n: nat): (s: string)
    ensures |s| > 0
    ensures forall i :: 0 <= i < |s| ==> DigitValue(s[i], 10).Some?
    ensures n > 0 ==> s[0] != '0'
    ensures |s| == 1 <==> n < 10
  {
    if n < 10 then [DigitChar(n)] else ShowNat(n / 10) + [DigitChar(n % 10)]
  }

  function Show(n: int): string {
    if n < 0 then "-" + ShowNat(-n) else ShowNat(n)
  }

  lemma {:induction false} DigitsOfShowNat(n: nat)
    ensures DigitsValue(ShowNat(n), 10) == n
  {
    var s := ShowNat(n);
    if n >= 10 {
      DigitsOfShowNat(n / 10);
      assert s[..|s| - 1] == ShowNat(n / 10);
    }
  }

  /** The digit run ends where the digits end. */
  lemma {:induction false} DigitRunStops(ds: string, rest: string, radix: nat)
    requires radix == 10 || radix == 16
    requires forall i :: 0 <= i < |ds| ==> DigitValue(ds[i], radix).Some?
    requires |rest| == 0 || DigitValue(rest[0], radix).None?
    ensures DigitRun(ds + rest, radix) == |ds|
  {
    if |ds| == 0 {
      assert ds + rest == rest;
    } else {
      assert (ds + rest)[1..] == ds[1..] + rest;
      DigitRunStops(ds[1..], rest, radix);
    }
  }

  /** Leading white space is skipped up to the first other character. */
  lemma {:induction false} SkipBlanks(ws: string, t: string)
    requires forall i :: 0 <= i < |ws| ==> IsSpace(ws[i])
    requires |t| == 0 || !IsSpace(t[0])
    ensures SkipSpaces(ws + t) == t
  {
    if |ws| == 0 {
      assert ws + t == t;
    } else {
      assert (ws + t)[1..] == ws[1..] + t;
      SkipBlanks(ws[1..], t);
    }
  }

  /** A rendered magnitude reads back, whatever follows it that is not a
      further digit (and, after a lone zero, not an `x` that would make it a
      base prefix). */
  lemma ParseMagnitudeShowNat(m: nat, rest: string)
    requires |rest| == 0 || DigitValue(rest[0], 10).None?
    requires m == 0 && |rest| > 0 ==> rest[0] != 'x' && rest[0] != 'X'
    ensures ParseMagnitude(ShowNat(m) + rest) == Some(m)
  {
    var digits := ShowNat(m);
    var s := digits + rest;
    assert s[0] == digits[0];
    if |digits| >= 2 {
      assert s[1] == digits[1];
    } else if |rest| > 0 {
      assert s[1] == rest[0];
    }
    DigitRunStops(digits, rest, 10);
    assert s[..|digits|] == digits;
    DigitsOfShowNat(m);
  }

  /** A `0x` or `0X` prefix reads the digits after it in base 16, up to the
      first character that is not a hexadecimal digit. */
  lemma ParseMagnitudeHex(prefix: string, digits: string, rest: string)
    requires prefix == "0x" || prefix == "0X"
    requires |digits| > 0 && forall i :: 0 <= i < |digits| ==> DigitValue(digits[i], 16).Some?
    requires |rest| == 0 || DigitValue(rest[0], 16).None?
    ensures ParseMagnitude(prefix + (digits + rest)) == Some(DigitsValue(digits, 16))
  {
    var body := digits + rest;
    var t := prefix + body;
    assert t[0] == '0' && t[2..] == body;
    DigitRunStops(digits, rest, 16);
    assert body[..|digits|] == digits;
  }

  /** After the blanks, a text with no sign reads as its magnitude. */
  lemma ParseIntUnsigned(s: string, t: string, m: nat)
    requires SkipSpaces(s) == t
    requires |t| > 0 && t[0] != '-' && t[0] != '+' && ParseMagnitude(t) == Some(m)
    ensures ParseInt(s) == Some(m)
  {
    SignedPlain(t, m);
  }

  lemma SignedPlain(t: string, m: nat)
    requires |t| > 0 && t[0] != '-' && t[0] != '+' && ParseMagnitude(t) == Some(m)
    ensures ParseSigned(t) == Some(m)
  {
    assert Unsigned(t) == t;
  }

  /** After the blanks, a text with a minus sign reads as the negated
      magnitude. */
  lemma ParseIntNegative(s: string, t: string, u: string, m: nat)
    requires SkipSpaces(s) == t && t == "-" + u
    requires ParseMagnitude(u) == Some(m)
    ensures ParseInt(s) == Some(-(m as int))
  {
    SignedMinus(t, u, m);
  }

  lemma SignedMinus(t: string, u: string, m: nat)
    requires t == "-" + u && ParseMagnitude(u) == Some(m)
    ensures ParseSigned(t) == Some(-(m as int))
  {
    assert t[0] == '-' && Unsigned(t) == u;
  }

  /** A rendered magnitude starts with a digit: no blank and no sign. */
  lemma ShowNatStartsWithDigit(m: nat, rest: string)
    ensures var t := ShowNat(m) + rest; |t| > 0 && !IsSpace(t[0]) && t[0] != '-' && t[0] != '+'
  {
    var t := ShowNat(m) + rest;
    assert t[0] == ShowNat(m)[0];
    assert DigitValue(t[0], 10).Some?;
  }

  lemma ParseIntOfDigits(ws: string, m: nat, rest: string)
    requires forall i :: 0 <= i < |ws| ==> IsSpace(ws[i])
    requires |rest| == 0 || DigitValue(rest[0], 10).None?
    requires m == 0 && |rest| > 0 ==> rest[0] != 'x' && rest[0] != 'X'
    ensures ParseInt(ws + (ShowNat(m) + rest)) == Some(m)
  {
    var t := ShowNat(m) + rest;
    ShowNatStartsWithDigit(m, rest);
    SkipBlanks(ws, t);
    ParseMagnitudeShowNat(m, rest);
    ParseIntUnsigned(ws + t, t, m);
  }

  lemma ParseIntOfMinus(ws: string, m: nat, rest: string)
    requires forall i :: 0 <= i < |ws| ==> IsSpace(ws[i])
    requires |rest| == 0 || DigitValue(rest[0], 10).None?
    requires m == 0 && |rest| > 0 ==> rest[0] != 'x' && rest[0] != 'X'
    ensures ParseInt(ws + ("-" + (ShowNat(m) + rest))) == Some(-(m as int))
  {
    var u := ShowNat(m) + rest;
    var t := "-" + u;
    assert t[0] == '-' && t[1..] == u;
    SkipBlanks(ws, t);
    ParseMagnitudeShowNat(m, rest);
    ParseIntNegative(ws + t, t, u, m);
  }

  /** parseInt skips leading white space, reads a rendered integer and
      ignores whatever follows it that does not continue the number. */
  lemma ParseIntOfText(ws: string, n: int, rest: string)
    requires forall i :: 0 <= i < |ws| ==> IsSpace(ws[i])
    requires |rest| == 0 || DigitValue(rest[0], 10).None?
    requires n == 0 && |rest| > 0 ==> rest[0] != 'x' && rest[0] != 'X'
    ensures ParseInt(ws + Show(n) + rest) == Some(n)
  {
    ShowAmidText(ws, n, rest);
    if n < 0 {
      ParseIntOfMinus(ws, -n, rest);
    } else {
      ParseIntOfDigits(ws, n, rest);
    }
  }

  lemma ShowAmidText(ws: string, n: int, rest: string)
    ensures n < 0 ==> ws + Show(n) + rest == ws + ("-" + (ShowNat(-n) + rest))
    ensures n >= 0 ==> ws + Show(n) + rest == ws + (ShowNat(n) + rest)
  {
    var u := Show(n);
    Regroup(ws, u, rest);
    if n < 0 {
      assert u == "-" + ShowNat(-n);
      Regroup("-", ShowNat(-n), rest);
    }
  }

  lemma NothingAround<T>(a: seq<T>)
    ensures [] + a + [] == a
  {
  }

  lemma Regroup<T>(a: seq<T>, b: seq<T>, c: seq<T>)
    ensures a + b + c == a + (b + c)
  {
  }

  /** parseInt reads back every integer from its decimal rendering. */
  lemma ParseIntShow(n: int)
    ensures ParseInt(Show(n)) == Some(n)
  {
    ParseIntOfText("", n, "");
    NothingAround(Show(n));
  }
}
