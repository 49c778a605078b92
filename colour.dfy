/** utils/colour.js: the integer conversions between "#rrggbb" group colours
    and their red, green and blue components. A JavaScript Number is an
    `Option<int>` here, `None` standing for NaN; the floating-point HSL
    conversions are not part of this model. */
module Colour {
  import opened Common

  /** The characters parseInt skips before the digits: ECMAScript's
      WhiteSpace (tab, vertical tab, form feed, space, no-break space, the
      byte order mark and the Unicode space separators) and LineTerminator
      (line feed, carriage return, the line and paragraph separators). */
  predicate IsSpace(c: char) {
    c == '\t' || c == '\U{B}' || c == '\U{C}' || c == ' ' || c == '\U{A0}' || c == '\U{FEFF}'
    || c == '\U{1680}' || ('\U{2000}' <= c <= '\U{200A}') || c == '\U{202F}' || c == '\U{205F}' || c == '\U{3000}'
    || c == '\n' || c == '\r' || c == '\U{2028}' || c == '\U{2029}'
  }

  function TrimStart(s: string): (t: string)
    ensures |t| <= |s| && t == s[|s| - |t|..]
    ensures |t| > 0 ==> !IsSpace(t[0])
    ensures forall k :: 0 <= k < |s| - |t| ==> IsSpace(s[k])
  {
    if |s| > 0 && IsSpace(s[0]) then TrimStart(s[1..]) else s
  }

  /** The longest prefix of `s` made of hexadecimal digits. */
  function HexPrefix(s: string): (p: string)
    ensures p <= s && AllHex(p)
    ensures |p| < |s| ==> !IsHexDigit(s[|p|])
  {
    if |s| > 0 && IsHexDigit(s[0]) then [s[0]] + HexPrefix(s[1..]) else []
  }

  /** parseInt(s, 16): skip leading white space, take an optional sign and
      an optional "0x"/"0X" prefix, then read the longest run of hex digits;
      NaN when that run is empty. */
  function ParseInt16(s: string): (r: Option<int>)
    ensures |TrimStart(s)| == 0 ==> r.None?
    ensures var t := TrimStart(s);
      |t| > 0 && !IsHexDigit(t[0]) && t[0] != '-' && t[0] != '+' ==> r.None?
    ensures var t := TrimStart(s); |t| > 0 && AllHex(t) ==> r == Some(HexValue(t))
    ensures r.Some? && r.value < 0 ==> |TrimStart(s)| > 0 && TrimStart(s)[0] == '-'
  {
    var t := TrimStart(s);
    var sign := if |t| > 0 && t[0] == '-' then -1 else 1;
    var unsigned := if |t| > 0 && (t[0] == '-' || t[0] == '+') then t[1..] else t;
    var body := if |unsigned| >= 2 && unsigned[0] == '0' && (unsigned[1] == 'x' || unsigned[1] == 'X')
                then unsigned[2..] else unsigned;
    var digits := HexPrefix(body);
    assert |t| > 0 && AllHex(t) ==> digits == t by {
      if |t| > 0 && AllHex(t) {
        HexPrefixOfAllHex(t);
      }
    }
    if |digits| == 0 then None else Some(sign * HexValue(digits))
  }

  /** hexToInt: parse a colour, ignoring one leading '#'. */
  function HexToInt(s: string): (r: Option<int>)
    ensures |s| > 0 && AllHex(s) ==> r == Some(HexValue(s))
    ensures |s| > 1 && s[0] == '#' && AllHex(s[1..]) ==> r == Some(HexValue(s[1..]))
  {
    var digits := if |s| > 0 && s[0] == '#' then s[1..] else s;
    assert |digits| > 0 && AllHex(digits) ==> TrimStart(digits) == digits by {
      if |digits| > 0 && AllHex(digits) {
        TrimStartOfHex(digits);
      }
    }
    ParseInt16(digits)
  }

  /** ToInt32, the conversion `>>` applies to its left operand (NaN becomes 0). */
  function ToInt32(n: Option<int>): (r: int)
    ensures -0x8000_0000 <= r < 0x8000_0000
    ensures n.Some? && 0 <= n.value < 0x8000_0000 ==> r == n.value
  {
    match n
    case None => 0
    case Some(v) =>
      var m := v % 0x1_0000_0000;
      if m >= 0x8000_0000 then m - 0x1_0000_0000 else m
  }

  /** `(x >> k) & 0xFF` on a 32-bit signed x: an arithmetic shift is a floor
      division, and masking the two's-complement bits is a non-negative remainder. */
  function ShiftMask(x: int, divisor: nat): int
    requires divisor > 0
  {
    (x / divisor) % 0x100
  }

  datatype Rgb = Rgb(r: int, g: int, b: int)

  /** intToRGB */
  function IntToRGB(n: Option<int>): (c: Rgb)
    ensures 0 <= c.r < 256 && 0 <= c.g < 256 && 0 <= c.b < 256
  {
    var x := ToInt32(n);
    Rgb(ShiftMask(x, 0x10000), ShiftMask(x, 0x100), ShiftMask(x, 1))
  }

  /** hexToRgb */
  function HexToRgb(hex: string): (c: Rgb)
    ensures 0 <= c.r < 256 && 0 <= c.g < 256 && 0 <= c.b < 256
    ensures |hex| > 1 && hex[0] == '#' && AllHex(hex[1..]) && HexValue(hex[1..]) < 0x100_0000 ==>
      c.r * 0x10000 + c.g * 0x100 + c.b == HexValue(hex[1..])
  {
    assert |hex| > 1 && hex[0] == '#' && AllHex(hex[1..]) && HexValue(hex[1..]) < 0x100_0000 ==>
      var c := IntToRGB(Some(HexValue(hex[1..]))); c.r * 0x10000 + c.g * 0x100 + c.b == HexValue(hex[1..]) by {
      if |hex| > 1 && hex[0] == '#' && AllHex(hex[1..]) && HexValue(hex[1..]) < 0x100_0000 {
        IntToRGBRecombines(HexValue(hex[1..]));
      }
    }
    IntToRGB(HexToInt(hex))
  }

  /** String.prototype.padStart(len, c) */
  function PadStart(s: string, len: nat, c: char): (t: string)
    ensures |t| == if |s| >= len then |s| else len
    ensures t[|t| - |s|..] == s
    ensures forall i :: 0 <= i < |t| - |s| ==> t[i] == c
  {
    if |s| >= len then s else seq(len - |s|, _ => c) + s
  }

  /** '#' + n.toString(16).padStart(6, '0'), as hslToHex and randomColour format a colour. */
  function ColourString(n: nat): (r: string)
    ensures |r| >= 7 && r[0] == '#' && AllHex(r[1..])
  {
    var digits := Hex(n);
    var padded := PadStart(digits, 6, '0');
    assert forall i :: |padded| - |digits| <= i < |padded| ==> padded[i] == digits[i - (|padded| - |digits|)];
    assert ("#" + padded)[1..] == padded;
    "#" + padded
  }

  // ----- properties -----

  /** A leading '#' is ignored, once: "#ff" and "ff" read the same. */
  lemma HexToIntIgnoresHash(s: string)
    requires |s| == 0 || s[0] != '#'
    ensures HexToInt("#" + s) == HexToInt(s)
  {
    assert ("#" + s)[1..] == s;
  }

  /** The components intToRGB extracts put back together give the number. */
  lemma IntToRGBRecombines(n: int)
    requires 0 <= n < 0x100_0000
    ensures var c := IntToRGB(Some(n)); c.r * 0x10000 + c.g * 0x100 + c.b == n
  {
    var c := IntToRGB(Some(n));
    assert ToInt32(Some(n)) == n;
    var q := n / 0x100;
    assert n == q * 0x100 + c.b;
    assert q / 0x100 == n / 0x10000 by {
      DivDiv256(n);
    }
    assert q == (q / 0x100) * 0x100 + c.g;
    assert n / 0x10000 < 0x100;
    assert c.r == n / 0x10000;
  }

  lemma DivDiv256(n: nat)
    ensures n / 0x100 / 0x100 == n / 0x10000
  {
    var q := n / 0x100;
    var r := n % 0x100;
    var q2 := q / 0x100;
    var r2 := q % 0x100;
    assert n == q * 0x100 + r;
    assert q == q2 * 0x100 + r2;
    assert n == q2 * 0x10000 + (r2 * 0x100 + r);
    assert 0 <= r2 * 0x100 + r < 0x10000;
  }

  /** Leading zeros do not change the value of a run of hex digits. */
  lemma {:induction false} HexValueLeadingZeros(z: nat, s: string)
    requires AllHex(s)
    ensures AllHex(seq(z, _ => '0') + s) && HexValue(seq(z, _ => '0') + s) == HexValue(s)
  {
    var t := seq(z, _ => '0') + s;
    if |s| == 0 {
      assert t == seq(z, _ => '0');
      ZerosValue(z);
    } else {
      HexValueLeadingZeros(z, s[..|s| - 1]);
      assert t[..|t| - 1] == seq(z, _ => '0') + s[..|s| - 1];
    }
  }

  lemma {:induction false} ZerosValue(z: nat)
    ensures AllHex(seq(z, _ => '0')) && HexValue(seq(z, _ => '0')) == 0
  {
    if z > 0 {
      ZerosValue(z - 1);
      assert seq(z, _ => '0')[..z - 1] == seq(z - 1, _ => '0');
    }
  }

  lemma {:induction false} HexPrefixOfAllHex(s: string)
    requires AllHex(s)
    ensures HexPrefix(s) == s
  {
    if |s| > 0 {
      HexPrefixOfAllHex(s[1..]);
    }
  }

  lemma TrimStartOfHex(s: string)
    requires |s| > 0 && AllHex(s)
    ensures TrimStart(s) == s
  {
  }

  /** A non-empty run of hex digits parses as its value. */
  lemma ParseHexDigits(p: string)
    requires |p| > 0 && AllHex(p)
    ensures ParseInt16(p) == Some(HexValue(p))
  {
    TrimStartOfHex(p);
    assert p[0] != '-' && p[0] != '+';
    assert !(|p| >= 2 && p[0] == '0' && (p[1] == 'x' || p[1] == 'X'));
    HexPrefixOfAllHex(p);
  }

  /** The six digits after the '#' of a 24-bit colour denote the number. */
  lemma ColourDigits(n: nat)
    requires n < 0x100_0000
    ensures var p := PadStart(Hex(n), 6, '0'); |p| == 6 && AllHex(p) && HexValue(p) == n
  {
    var h := Hex(n);
    assert Pow16(6) == 0x100_0000;
    HexLength(n, 6);
    var p := PadStart(h, 6, '0');
    assert p == seq(6 - |h|, _ => '0') + h;
    HexValueLeadingZeros(6 - |h|, h);
    HexRoundTrip(n);
  }

  /** For a 24-bit colour number the formatted string is seven characters long
      and hexToInt reads the number back from it. */
  lemma ColourStringRoundTrip(n: nat)
    requires n < 0x100_0000
    ensures |ColourString(n)| == 7
    ensures HexToInt(ColourString(n)) == Some(n)
  {
    ColourDigits(n);
    var p := PadStart(Hex(n), 6, '0');
    var s := ColourString(n);
    assert s[1..] == p;
    ParseHexDigits(p);
  }
}
