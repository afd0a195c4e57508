/**
 * String helpers that stand for the JavaScript built-ins the core calls:
 * `String.prototype.trim`, `replace(/[^0-9]/g, '')`, `replace(/,/g, '')`,
 * `parseInt`/`Number` on a digit string, `toLocaleString` on a whole number
 * (comma grouping every three digits) and the "is there a numeric prefix"
 * test behind `!isNaN(parseFloat(x))`.
 */
module Text {

  /** The characters `trim` removes: WhiteSpace and LineTerminator of ECMA-262 (sections 12.2 and 12.3). */
  predicate IsSpace(c: char) {
    || c == '\t' || c == '\U{000B}' || c == '\U{000C}' || c == ' ' || c == '\U{00A0}' || c == '\U{FEFF}'
    || c == '\n' || c == '\r' || c == '\U{2028}' || c == '\U{2029}'
    || c == '\U{1680}' || ('\U{2000}' <= c <= '\U{200A}') || c == '\U{202F}' || c == '\U{205F}' || c == '\U{3000}'
  }

  predicate AllSpace(s: string) {
    forall i :: 0 <= i < |s| ==> IsSpace(s[i])
  }

  /** No white space at either end. */
  predicate Trimmed(s: string) {
    s == [] || (!IsSpace(s[0]) && !IsSpace(s[|s| - 1]))
  }

  /** Drops leading white space (see TrimStartFacts). */
  function TrimStart(s: string): string {
    if s != [] && IsSpace(s[0]) then TrimStart(s[1..]) else s
  }

  /** The result of TrimStart is a suffix of `s`, what it dropped is all white space, and it starts with no white space. */
  lemma {:induction false} TrimStartFacts(s: string)
    ensures var r := TrimStart(s);
      && |r| <= |s| && r == s[|s| - |r|..]
      && AllSpace(s[..|s| - |r|])
      && (r == [] || !IsSpace(r[0]))
  {
    if s != [] && IsSpace(s[0]) {
      TrimStartFacts(s[1..]);
      var r := TrimStart(s[1..]);
      assert s[..|s| - |r|] == [s[0]] + s[1..][..|s| - 1 - |r|];
    }
  }

  /** Drops trailing white space (see TrimEndFacts). */
  function TrimEnd(s: string): string {
    if s != [] && IsSpace(s[|s| - 1]) then TrimEnd(s[..|s| - 1]) else s
  }

  /** The result of TrimEnd is a prefix of `s`, what it dropped is all white space, and it ends with no white space. */
  lemma {:induction false} TrimEndFacts(s: string)
    ensures var r := TrimEnd(s);
      && |r| <= |s| && r == s[..|r|]
      && AllSpace(s[|r|..])
      && (r == [] || !IsSpace(r[|r| - 1]))
  {
    if s != [] && IsSpace(s[|s| - 1]) {
      TrimEndFacts(s[..|s| - 1]);
      var r := TrimEnd(s[..|s| - 1]);
      assert s[|r|..] == s[..|s| - 1][|r|..] + [s[|s| - 1]];
    }
  }

  /** `String.prototype.trim` (see TrimFacts and TrimSurrounds). */
  function Trim(s: string): string {
    TrimEnd(TrimStart(s))
  }

  /** The result of Trim is no longer than `s` and has no white space at either end. */
  lemma TrimFacts(s: string)
    ensures Trimmed(Trim(s)) && |Trim(s)| <= |s|
  {
    TrimStartFacts(s);
    TrimEndFacts(TrimStart(s));
    var t := TrimStart(s);
    var r := TrimEnd(t);
    if r != [] {
      assert r[0] == t[0];
    }
  }

  /** What `Trim` removes is white space: `s` is white space, then `Trim(s)`, then white space. */
  lemma TrimSurrounds(s: string)
    ensures exists i :: 0 <= i <= |s| - |Trim(s)| && Trim(s) == s[i..i + |Trim(s)|] && AllSpace(s[..i]) && AllSpace(s[i + |Trim(s)|..])
  {
    TrimStartFacts(s);
    TrimEndFacts(TrimStart(s));
    var t := TrimStart(s);
    var r := TrimEnd(t);
    var i := |s| - |t|;
    assert r == s[i..i + |r|];
    assert s[i + |r|..] == t[|r|..];
  }

  lemma {:induction false} TrimStartSkips(a: string, t: string)
    requires AllSpace(a) && (t == [] || !IsSpace(t[0]))
    ensures TrimStart(a + t) == t
  {
    if a != [] {
      assert (a + t)[1..] == a[1..] + t;
      TrimStartSkips(a[1..], t);
    }
  }

  lemma {:induction false} TrimEndSkips(t: string, b: string)
    requires AllSpace(b) && (t == [] || !IsSpace(t[|t| - 1]))
    ensures TrimEnd(t + b) == t
  {
    if b != [] {
      assert (t + b)[..|t + b| - 1] == t + b[..|b| - 1];
      TrimEndSkips(t, b[..|b| - 1]);
    }
  }

  /** Trim is determined by its specification: white space around a trimmed core trims to that core. */
  lemma TrimUnique(a: string, m: string, b: string)
    requires AllSpace(a) && AllSpace(b) && Trimmed(m)
    ensures Trim(a + m + b) == m
  {
    if m == [] {
      assert a + m + b == a + b;
      assert AllSpace(a + b);
      TrimStartSkips(a + b, []);
      assert a + b + [] == a + b;
    } else {
      assert a + m + b == a + (m + b);
      TrimStartSkips(a, m + b);
      TrimEndSkips(m, b);
    }
  }

  /** Trimming twice is trimming once. */
  lemma TrimIdempotent(s: string)
    ensures Trim(Trim(s)) == Trim(s)
  {
    var m := Trim(s);
    TrimFacts(s);
    assert [] + m + [] == m;
    TrimUnique([], m, []);
  }

  /** Trimming gives the empty string exactly when the input is all white space. */
  lemma TrimEmptyIff(s: string)
    ensures Trim(s) == [] <==> AllSpace(s)
  {
    if AllSpace(s) {
      assert [] + [] + s == s;
      TrimUnique([], [], s);
    } else {
      TrimSurrounds(s);
    }
  }

  predicate IsDigit(c: char) {
    '0' <= c <= '9'
  }

  predicate AllDigits(s: string) {
    forall i :: 0 <= i < |s| ==> IsDigit(s[i])
  }

  /** `s.replace(/[^0-9]/g, '')`: every digit of the input is kept and nothing else. */
  function KeepDigits(s: string): (r: string)
    ensures AllDigits(r) && |r| <= |s|
    ensures forall c :: c in r <==> c in s && IsDigit(c)
  {
    if s == [] then [] else (if IsDigit(s[0]) then [s[0]] else []) + KeepDigits(s[1..])
  }

  lemma {:induction false} KeepDigitsAppend(a: string, b: string)
    ensures KeepDigits(a + b) == KeepDigits(a) + KeepDigits(b)
  {
    if a != [] {
      var h := if IsDigit(a[0]) then [a[0]] else [];
      var t := a[1..];
      assert a == [a[0]] + t && a + b == [a[0]] + (t + b);
      KeepDigitsAppend(t, b);
      KeepDigitsCons(a[0], t + b);
      KeepDigitsCons(a[0], t);
    } else {
      assert a + b == b;
    }
  }

  lemma KeepDigitsCons(c: char, t: string)
    ensures KeepDigits([c] + t) == (if IsDigit(c) then [c] else []) + KeepDigits(t)
  {
    assert ([c] + t)[0] == c && ([c] + t)[1..] == t;
  }

  /** The digits are kept in order: scanning left to right, a character is appended to the result exactly when it is a digit. */
  lemma KeepDigitsScan(s: string, c: char)
    ensures KeepDigits(s + [c]) == KeepDigits(s) + (if IsDigit(c) then [c] else [])
  {
    KeepDigitsAppend(s, [c]);
    assert [c][1..] == [];
  }

  /** A string of digits is left as it is. */
  lemma {:induction false} KeepDigitsOfDigits(s: string)
    requires AllDigits(s)
    ensures KeepDigits(s) == s
  {
    if s != [] {
      KeepDigitsOfDigits(s[1..]);
    }
  }

  /** `s.replace(/,/g, '')`: every character but the comma is kept. */
  function RemoveCommas(s: string): (r: string)
    ensures ',' !in r && |r| <= |s|
    ensures forall c :: c in r <==> c in s && c != ','
  {
    if s == [] then [] else (if s[0] == ',' then [] else [s[0]]) + RemoveCommas(s[1..])
  }

  lemma {:induction false} RemoveCommasAppend(a: string, b: string)
    ensures RemoveCommas(a + b) == RemoveCommas(a) + RemoveCommas(b)
  {
    if a != [] {
      var h := if a[0] == ',' then [] else [a[0]];
      var t := a[1..];
      assert a == [a[0]] + t && a + b == [a[0]] + (t + b);
      RemoveCommasAppend(t, b);
      RemoveCommasCons(a[0], t + b);
      RemoveCommasCons(a[0], t);
    } else {
      assert a + b == b;
    }
  }

  lemma RemoveCommasCons(c: char, t: string)
    ensures RemoveCommas([c] + t) == (if c == ',' then [] else [c]) + RemoveCommas(t)
  {
    assert ([c] + t)[0] == c && ([c] + t)[1..] == t;
  }

  /** The other characters are kept in order: scanning left to right, a character is appended to the result exactly when it is not a comma. */
  lemma RemoveCommasScan(s: string, c: char)
    ensures RemoveCommas(s + [c]) == RemoveCommas(s) + (if c == ',' then [] else [c])
  {
    RemoveCommasAppend(s, [c]);
    assert [c][1..] == [];
  }

  lemma {:induction false} RemoveCommasNoCommas(s: string)
    requires ',' !in s
    ensures RemoveCommas(s) == s
  {
    if s != [] {
      RemoveCommasNoCommas(s[1..]);
    }
  }

  function DigitValue(c: char): (d: nat)
    requires IsDigit(c)
    ensures d < 10
  {
    (c as int) - ('0' as int)
  }

  function DigitChar(d: nat): (c: char)
    requires d < 10
    ensures IsDigit(c) && DigitValue(c) == d
  {
    (('0' as int) + d) as char
  }

  /** The decimal value of a digit string, as `parseInt` or `Number` computes it (0 for the empty string). */
  function DigitsValue(s: string): nat
    requires AllDigits(s)
  {
    if s == [] then 0 else 10 * DigitsValue(s[..|s| - 1]) + DigitValue(s[|s| - 1])
  }

  /** The decimal spelling of a whole number, as `String(n)` writes it: digits only, no leading zero, and it reads back as `n`. */
  function NatToString(n: nat): (r: string)
    ensures r != [] && AllDigits(r) && DigitsValue(r) == n
    ensures r[0] != '0' || r == "0"
    ensures n < 10 <==> |r| == 1
  {
    if n < 10 then
      [DigitChar(n)]
    else
      var p := NatToString(n / 10);
      var r := p + [DigitChar(n % 10)];
      assert r[..|r| - 1] == p;
      r
  }

  /** Conversely, a digit string without a leading zero is the spelling of its value. */
  lemma {:induction false} NatToStringOfValue(s: string)
    requires s != [] && AllDigits(s) && (s[0] != '0' || s == "0")
    ensures NatToString(DigitsValue(s)) == s
  {
    var n := DigitsValue(s);
    if |s| == 1 {
      assert s[..|s| - 1] == [];
      assert DigitsValue(s[..|s| - 1]) == 0;
      assert n == DigitValue(s[0]);
    } else {
      var p := s[..|s| - 1];
      assert p[0] == s[0];
      assert s != "0" by { assert |s| != |"0"|; }
      NatToStringOfValue(p);
      DigitsValueNoLeadingZero(p);
      assert n / 10 == DigitsValue(p) && n % 10 == DigitValue(s[|s| - 1]);
      assert DigitChar(n % 10) == s[|s| - 1];
      assert s == p + [s[|s| - 1]];
    }
  }

  /** A digit string of two or more digits that starts with a non-zero digit has a value of at least 10. */
  lemma {:induction false} DigitsValueNoLeadingZero(s: string)
    requires s != [] && AllDigits(s) && s[0] != '0'
    ensures DigitsValue(s) >= 1
    ensures |s| >= 2 ==> DigitsValue(s) >= 10
  {
    if |s| >= 2 {
      var p := s[..|s| - 1];
      assert p[0] == s[0];
      DigitsValueNoLeadingZero(p);
    } else {
      assert DigitsValue(s) == DigitValue(s[0]);
    }
  }

  /** Inserts a comma before every group of three digits counted from the right. */
  function GroupDigits(d: string): (r: string)
    requires ',' !in d
    ensures |r| >= |d|
    ensures d != [] ==> r != [] && r[0] == d[0]
  {
    if |d| <= 3 then d else GroupDigits(d[..|d| - 3]) + "," + d[|d| - 3..]
  }

  /** Removing the commas from two parts joined by a comma joins the parts' results. */
  lemma RemoveCommasJoin(g: string, q: string)
    ensures RemoveCommas(g + "," + q) == RemoveCommas(g) + RemoveCommas(q)
  {
    RemoveCommasAppend(g + ",", q);
    RemoveCommasAppend(g, ",");
    assert RemoveCommas(",") == [];
    assert RemoveCommas(g) + [] == RemoveCommas(g);
  }

  /** Removing the commas undoes the grouping. */
  lemma {:induction false} RemoveCommasGroupDigits(d: string)
    requires ',' !in d
    ensures RemoveCommas(GroupDigits(d)) == d
  {
    if |d| <= 3 {
      RemoveCommasNoCommas(d);
    } else {
      var p, q := d[..|d| - 3], d[|d| - 3..];
      assert d == p + q;
      RemoveCommasGroupDigits(p);
      RemoveCommasJoin(GroupDigits(p), q);
      RemoveCommasNoCommas(q);
    }
  }

  lemma DigitsHaveNoComma(d: string)
    requires AllDigits(d)
    ensures ',' !in d
  {
    assert forall i | 0 <= i < |d| :: d[i] != ',';
  }

  /** Keeping the digits of two parts joined by a comma joins the parts' digits. */
  lemma KeepDigitsJoin(g: string, q: string)
    ensures KeepDigits(g + "," + q) == KeepDigits(g) + KeepDigits(q)
  {
    KeepDigitsAppend(g + ",", q);
    KeepDigitsAppend(g, ",");
    assert KeepDigits(",") == [] by { assert ","[1..] == []; }
    assert KeepDigits(g) + [] == KeepDigits(g);
  }

  /** Keeping only the digits also undoes the grouping of a digit string. */
  lemma {:induction false} KeepDigitsGroupDigits(d: string)
    requires AllDigits(d) && ',' !in d
    ensures KeepDigits(GroupDigits(d)) == d
  {
    if |d| <= 3 {
      KeepDigitsOfDigits(d);
    } else {
      var p, q := d[..|d| - 3], d[|d| - 3..];
      assert d == p + q;
      assert AllDigits(p) && AllDigits(q);
      DigitsHaveNoComma(p);
      KeepDigitsGroupDigits(p);
      KeepDigitsJoin(GroupDigits(p), q);
      KeepDigitsOfDigits(q);
    }
  }

  /** `n.toLocaleString()` for a whole number, with comma grouping every three digits. */
  function LocaleString(n: nat): (r: string)
    ensures r != [] && (r[0] != '0' || n == 0)
  {
    assert ',' !in NatToString(n) by { DigitsHaveNoComma(NatToString(n)); }
    GroupDigits(NatToString(n))
  }

  /** `toLocaleString` on any integer: a minus sign in front of the grouped magnitude when negative. */
  function IntLocaleString(n: int): (r: string)
    ensures r != [] && (r[0] == '-' <==> n < 0)
  {
    if n < 0 then "-" + LocaleString(-n) else LocaleString(n)
  }

  /** `String(n)` for an integer. */
  function IntToString(n: int): (r: string)
    ensures r != [] && (r[0] == '-' <==> n < 0)
  {
    if n < 0 then "-" + NatToString(-n) else NatToString(n)
  }

  /** Removing the digit-group separators of a locale string gives the plain decimal digits. */
  lemma RemoveCommasLocaleString(n: nat)
    ensures RemoveCommas(LocaleString(n)) == NatToString(n)
    ensures KeepDigits(LocaleString(n)) == NatToString(n)
  {
    DigitsHaveNoComma(NatToString(n));
    RemoveCommasGroupDigits(NatToString(n));
    KeepDigitsGroupDigits(NatToString(n));
  }

  predicate AllZeros(z: string) {
    forall i :: 0 <= i < |z| ==> z[i] == '0'
  }

  /** Leading zeros do not change a digit string's value. */
  lemma {:induction false} DigitsValueLeadingZeros(z: string, d: string)
    requires AllZeros(z) && AllDigits(d)
    ensures AllDigits(z + d) && DigitsValue(z + d) == DigitsValue(d)
    decreases |d|
  {
    if d == [] {
      assert z + d == z;
      ZerosValue(z);
    } else {
      assert (z + d)[..|z + d| - 1] == z + d[..|d| - 1];
      DigitsValueLeadingZeros(z, d[..|d| - 1]);
    }
  }

  lemma {:induction false} ZerosValue(z: string)
    requires AllZeros(z)
    ensures AllDigits(z) && DigitsValue(z) == 0
  {
    if z != [] {
      ZerosValue(z[..|z| - 1]);
    }
  }

  /**
   * `!isNaN(parseFloat(s))`: after leading white space and an optional sign, the
   * string starts with `Infinity`, a digit, or a point followed by a digit
   * (the StrDecimalLiteral prefixes of ECMA-262 section 21.1.2.12).
   */
  predicate HasNumericPrefix(s: string) {
    var t := TrimStart(s);
    var u := if t != [] && (t[0] == '+' || t[0] == '-') then t[1..] else t;
    || (|u| >= 8 && u[..8] == "Infinity")
    || (u != [] && IsDigit(u[0]))
    || (|u| >= 2 && u[0] == '.' && IsDigit(u[1]))
  }
}
