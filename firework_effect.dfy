/**
 * The colour conversion of the firework animation
 * (src/components/animations/FireworkEffect.tsx): `hexToRgb` turns a
 * `#rrggbb` colour into the `r, g, b` text an `rgba(...)` fill style takes.
 * The match is the regular expression `^#?([a-f\d]{2})([a-f\d]{2})([a-f\d]{2})$`
 * with the `i` flag: an optional `#` and exactly six hexadecimal digits in
 * either case, and nothing else.
 */
module FireworkEffect {
  import opened Wrappers
  import opened Text

  /** `[a-f\d]` under the `i` flag. */
  predicate IsHexDigit(c: char) {
    ('0' <= c <= '9') || ('a' <= c <= 'f') || ('A' <= c <= 'F')
  }

  predicate AllHex(s: string) {
    forall i :: 0 <= i < |s| ==> IsHexDigit(s[i])
  }

  /** `parseInt(c, 16)` of one digit. */
  function HexValue(c: char): (d: nat)
    requires IsHexDigit(c)
    ensures d < 16
  {
    if '0' <= c <= '9' then (c as int) - ('0' as int)
    else if 'a' <= c <= 'f' then 10 + (c as int) - ('a' as int)
    else 10 + (c as int) - ('A' as int)
  }

  /** `parseInt` of a two-digit group: one byte of the colour. */
  function PairValue(hi: char, lo: char): (v: nat)
    requires IsHexDigit(hi) && IsHexDigit(lo)
    ensures v < 256
  {
    16 * HexValue(hi) + HexValue(lo)
  }

  /**
   * The regular expression's match: the six digits after an optional `#`,
   * or None when the whole input is not of that form.
   */
  function SixDigits(s: string): (r: Option<string>)
    ensures r.Some? ==> |r.value| == 6 && AllHex(r.value) && (s == r.value || s == "#" + r.value)
  {
    if |s| == 7 && s[0] == '#' && AllHex(s[1..]) then Some(s[1..])
    else if |s| == 6 && AllHex(s) then Some(s)
    else None
  }

  /** Conversely, every input of that form matches, with those digits. */
  lemma SixDigitsAccepts(prefix: string, h: string)
    requires prefix == "" || prefix == "#"
    requires |h| == 6 && AllHex(h)
    ensures SixDigits(prefix + h) == Some(h)
  {
    if prefix == "#" {
      assert (prefix + h)[1..] == h;
    } else {
      assert prefix + h == h;
    }
  }

  /** The text a template literal makes of three numbers. */
  function RgbString(r: nat, g: nat, b: nat): string {
    NatToString(r) + ", " + NatToString(g) + ", " + NatToString(b)
  }

  /** The fallback for an input that does not match. */
  const White := "255, 255, 255"

  /** `hexToRgb`. */
  function HexToRgb(hex: string): string {
    match SixDigits(hex)
    case Some(h) => RgbString(PairValue(h[0], h[1]), PairValue(h[2], h[3]), PairValue(h[4], h[5]))
    case None => White
  }

  /** The fallback is the colour white spelled out: the same text `#ffffff` gives. */
  lemma WhiteIsFfffff()
    ensures White == RgbString(255, 255, 255)
    ensures HexToRgb("#ffffff") == White
  {
    SpellStep(2, 5);
    SpellStep(25, 5);
    assert SixDigits("#ffffff") == Some("ffffff");
  }

  /** Input of any length other than 6 or 7 (three-digit or eight-digit colours, the empty string) gives white. */
  lemma WrongLengthIsWhite(s: string)
    requires |s| != 6 && |s| != 7
    ensures HexToRgb(s) == White
  {
  }

  /** A character that is not a hex digit anywhere after the optional `#` gives white. */
  lemma NonHexIsWhite(s: string, i: nat)
    requires 0 < i < |s| && !IsHexDigit(s[i])
    ensures HexToRgb(s) == White
  {
    if |s| == 7 && s[0] == '#' {
      assert s[1..][i - 1] == s[i];
    }
  }

  /** The lower-case digit for a value below 16. */
  function HexChar(d: nat): (c: char)
    requires d < 16
    ensures IsHexDigit(c) && HexValue(c) == d
  {
    if d < 10 then (('0' as int) + d) as char else (('a' as int) + d - 10) as char
  }

  /** The `#rrggbb` spelling of a colour, the inverse direction. */
  function RgbToHex(r: nat, g: nat, b: nat): (s: string)
    requires r < 256 && g < 256 && b < 256
    ensures |s| == 7 && s[0] == '#' && AllHex(s[1..])
  {
    ['#', HexChar(r / 16), HexChar(r % 16), HexChar(g / 16), HexChar(g % 16), HexChar(b / 16), HexChar(b % 16)]
  }

  /** Spelling a colour as `#rrggbb` and converting it gives back its three components. */
  lemma RgbToHexRoundTrip(r: nat, g: nat, b: nat)
    requires r < 256 && g < 256 && b < 256
    ensures HexToRgb(RgbToHex(r, g, b)) == RgbString(r, g, b)
  {
    var s := RgbToHex(r, g, b);
    var h := s[1..];
    assert SixDigits(s) == Some(h);
    assert PairValue(h[0], h[1]) == r;
    assert PairValue(h[2], h[3]) == g;
    assert PairValue(h[4], h[5]) == b;
  }

  /** ASCII lower-casing, the folding the `i` flag does to these characters. */
  function LowerChar(c: char): char {
    if 'A' <= c <= 'Z' then ((c as int) + 32) as char else c
  }

  function Lower(s: string): (r: string)
    ensures |r| == |s| && forall i :: 0 <= i < |s| ==> r[i] == LowerChar(s[i])
  {
    seq(|s|, i requires 0 <= i < |s| => LowerChar(s[i]))
  }

  lemma LowerHex(c: char)
    ensures IsHexDigit(LowerChar(c)) <==> IsHexDigit(c)
    ensures IsHexDigit(c) ==> HexValue(LowerChar(c)) == HexValue(c)
  {
  }

  /** Lower-casing the input changes neither whether it matches nor the digits' values. */
  lemma SixDigitsLower(s: string)
    ensures SixDigits(Lower(s)).Some? <==> SixDigits(s).Some?
    ensures SixDigits(s).Some? ==> SixDigits(Lower(s)) == Some(Lower(SixDigits(s).value))
  {
    var l := Lower(s);
    forall i | 0 <= i < |s|
      ensures IsHexDigit(l[i]) <==> IsHexDigit(s[i])
    {
      LowerHex(s[i]);
    }
    if |s| == 7 {
      assert l[1..] == Lower(s[1..]);
      assert AllHex(l[1..]) <==> AllHex(s[1..]) by {
        assert forall i :: 0 <= i < 6 ==> l[1..][i] == l[i + 1] && s[1..][i] == s[i + 1];
      }
    }
    if |s| == 6 {
      assert AllHex(l) <==> AllHex(s);
    }
  }

  lemma HexToRgbLower(s: string)
    ensures HexToRgb(Lower(s)) == HexToRgb(s)
  {
    SixDigitsLower(s);
    if SixDigits(s).Some? {
      var h := SixDigits(s).value;
      var lh := Lower(h);
      assert SixDigits(Lower(s)) == Some(lh);
      LowerHex(h[0]); LowerHex(h[1]); LowerHex(h[2]); LowerHex(h[3]); LowerHex(h[4]); LowerHex(h[5]);
      assert PairValue(lh[0], lh[1]) == PairValue(h[0], h[1]);
      assert PairValue(lh[2], lh[3]) == PairValue(h[2], h[3]);
      assert PairValue(lh[4], lh[5]) == PairValue(h[4], h[5]);
    }
  }

  /** Two spellings of a colour that differ only in letter case give the same output. */
  lemma HexToRgbCaseInsensitive(s: string, t: string)
    requires Lower(s) == Lower(t)
    ensures HexToRgb(s) == HexToRgb(t)
  {
    HexToRgbLower(s);
    HexToRgbLower(t);
  }

  /** The animation's palette (`colors`). */
  const Colors := ["#ebf0ec", "#c3c7c4", "#bebec2", "#41416e"]

  /** Every palette colour matches, and converts to its three components. */
  lemma PaletteConverts()
    ensures |Colors| == 4
    ensures SixDigits(Colors[0]).Some? && SixDigits(Colors[1]).Some? && SixDigits(Colors[2]).Some? && SixDigits(Colors[3]).Some?
    ensures HexToRgb(Colors[0]) == "235, 240, 236"
    ensures HexToRgb(Colors[1]) == "195, 199, 196"
    ensures HexToRgb(Colors[2]) == "190, 190, 194"
    ensures HexToRgb(Colors[3]) == "65, 65, 110"
  {
    Converts0();
    Converts1();
    Converts2();
    Converts3();
  }

  lemma Converts0()
    ensures SixDigits(Colors[0]) == Some("ebf0ec") && HexToRgb(Colors[0]) == "235, 240, 236"
  {
    assert SixDigits(Colors[0]) == Some("ebf0ec");
    SpellStep(2, 3); SpellStep(2, 4);
    SpellStep(23, 5); SpellStep(24, 0); SpellStep(23, 6);
  }

  lemma Converts1()
    ensures SixDigits(Colors[1]) == Some("c3c7c4") && HexToRgb(Colors[1]) == "195, 199, 196"
  {
    assert SixDigits(Colors[1]) == Some("c3c7c4");
    SpellStep(1, 9);
    SpellStep(19, 5); SpellStep(19, 9); SpellStep(19, 6);
  }

  lemma Converts2()
    ensures SixDigits(Colors[2]) == Some("bebec2") && HexToRgb(Colors[2]) == "190, 190, 194"
  {
    assert SixDigits(Colors[2]) == Some("bebec2");
    SpellStep(1, 9);
    SpellStep(19, 0); SpellStep(19, 4);
  }

  lemma Converts3()
    ensures SixDigits(Colors[3]) == Some("41416e") && HexToRgb(Colors[3]) == "65, 65, 110"
  {
    assert SixDigits(Colors[3]) == Some("41416e");
    SpellStep(6, 5); SpellStep(1, 1);
    SpellStep(11, 0);
  }

  /** Appending a digit to a number's spelling spells ten times it plus that digit. */
  lemma SpellStep(q: nat, d: nat)
    requires q >= 1 && d < 10
    ensures NatToString(10 * q + d) == NatToString(q) + [DigitChar(d)]
  {
    var n := 10 * q + d;
    assert n / 10 == q && n % 10 == d;
  }
}
