/**
 * Colour helpers of the editor: the cell scale and the choice of a black or
 * white text colour for a `#RRGGBB` background.
 *
 * `parseInt(s, 16)` is modelled exactly as JavaScript defines it for the
 * two-character strings it is given here (leading white space, one sign,
 * an optional `0x` prefix, then the longest run of hexadecimal digits; no
 * digits at all is NaN, written `None`). Reading a character past the end
 * of a JavaScript string yields `undefined`. Added to a one-character
 * string it is spelled out as the nine letters "undefined"; added to
 * another `undefined` it gives the number NaN, which `parseInt` reads as
 * the text "NaN".
 *
 * The luminance comparison `0.299 r + 0.587 g + 0.114 b > 149` is done in
 * exact arithmetic, scaled by 1000.
 */
module Colors {
  import opened Wrappers

  /** Pixels per grid cell at zoom 1. */
  const CELL_SCALAR: int := 64

  const THRESHOLD: int := 149
  const BLACK: string := "#000000"
  const WHITE: string := "#FFFFFF"

  /** The value of a hexadecimal digit of either case. */
  function HexDigitValue(ch: char): (r: Option<nat>)
    ensures r.Some? ==> r.value < 16
  {
    if '0' <= ch <= '9' then Some(ch as int - '0' as int)
    else if 'a' <= ch <= 'f' then Some(ch as int - 'a' as int + 10)
    else if 'A' <= ch <= 'F' then Some(ch as int - 'A' as int + 10)
    else None
  }

  predicate IsHexDigit(ch: char) {
    HexDigitValue(ch).Some?
  }

  /** The characters JavaScript's `parseInt` skips before a number: WhiteSpace and LineTerminator of ECMA-262. */
  predicate IsJsSpace(ch: char) {
    || ch == '\t' || ch == '\n' || ch == '\U{000B}' || ch == '\U{000C}' || ch == '\r'
    || ch == ' ' || ch == '\U{00A0}' || ch == '\U{1680}' || '\U{2000}' <= ch <= '\U{200A}'
    || ch == '\U{2028}' || ch == '\U{2029}' || ch == '\U{202F}' || ch == '\U{205F}'
    || ch == '\U{3000}' || ch == '\U{FEFF}'
  }

  function TrimStart(s: string): (r: string)
    ensures |r| <= |s|
    ensures r == s[|s| - |r|..]
    ensures |r| > 0 ==> !IsJsSpace(r[0])
  {
    if |s| > 0 && IsJsSpace(s[0]) then TrimStart(s[1..]) else s
  }

  /** The longest prefix of `s` made of hexadecimal digits. */
  function HexRun(s: string): (r: string)
    ensures |r| <= |s| && r == s[..|r|]
    ensures forall i :: 0 <= i < |r| ==> IsHexDigit(r[i])
    ensures |r| < |s| ==> !IsHexDigit(s[|r|])
  {
    if |s| > 0 && IsHexDigit(s[0]) then [s[0]] + HexRun(s[1..]) else []
  }

  /** The number written by a run of hexadecimal digits, most significant first. */
  function HexValue(digits: string): nat
    requires forall i :: 0 <= i < |digits| ==> IsHexDigit(digits[i])
  {
    if |digits| == 0 then 0
    else
      var last := digits[|digits| - 1];
      assert IsHexDigit(last);
      HexValue(digits[..|digits| - 1]) * 16 + HexDigitValue(last).value
  }

  /** JavaScript's `parseInt(s, 16)`; `None` stands for NaN. */
  function ParseIntHex(s: string): Option<int> {
    ParseSigned(TrimStart(s))
  }

  /** An optional sign, then the unsigned part. */
  function ParseSigned(t: string): Option<int> {
    if |t| > 0 && t[0] == '-' then Negate(ParseUnsigned(t[1..]))
    else if |t| > 0 && t[0] == '+' then ParseUnsigned(t[1..])
    else ParseUnsigned(t)
  }

  function Negate(v: Option<int>): Option<int> {
    match v
    case Some(n) => Some(-n)
    case None => None
  }

  /** An optional `0x` prefix, then the longest run of digits; no digit is NaN. */
  function ParseUnsigned(u: string): Option<int> {
    var body := if |u| >= 2 && u[0] == '0' && (u[1] == 'x' || u[1] == 'X') then u[2..] else u;
    var digits := HexRun(body);
    if |digits| == 0 then None else Some(HexValue(digits))
  }

  /** `s[i]` as string concatenation sees it. */
  function CharText(s: string, i: nat): string {
    if i < |s| then [s[i]] else "undefined"
  }

  /** The text `hex[i] + hex[i + 1]` hands to `parseInt` when character `i` exists. */
  function ChannelText(hex: string, i: nat): string {
    CharText(hex, i) + CharText(hex, i + 1)
  }

  /**
   * The channel read from characters `i` and `i + 1` of the colour string.
   * With both past the end, `undefined + undefined` is the number NaN, whose
   * text "NaN" `parseInt` reads as NaN (`NaNTextIsNaN`).
   */
  function Channel(hex: string, i: nat): Option<int> {
    if i >= |hex| then None else ParseIntHex(ChannelText(hex, i))
  }

  /** 1000 times the weighted luminance sum. */
  function Luma(r: int, g: int, b: int): int {
    299 * r + 587 * g + 114 * b
  }

  /** The text colour for a background: black on light backgrounds, white otherwise (NaN compares false). */
  function TextColorForBackground(hex: string): (color: string)
    ensures color == BLACK || color == WHITE
    ensures color == BLACK ==> Channel(hex, 1).Some? && Channel(hex, 3).Some? && Channel(hex, 5).Some?
  {
    var r, g, b := Channel(hex, 1), Channel(hex, 3), Channel(hex, 5);
    if r.Some? && g.Some? && b.Some? && Luma(r.value, g.value, b.value) > THRESHOLD * 1000
    then BLACK else WHITE
  }

  /** A well-formed colour: `#` followed by six hexadecimal digits. */
  predicate WellFormed(hex: string) {
    |hex| == 7 && hex[0] == '#' && forall i :: 1 <= i < 7 ==> IsHexDigit(hex[i])
  }

  /** The channel value of digits `i`, `i + 1` of a well-formed colour. */
  function ChannelValue(hex: string, i: nat): nat
    requires WellFormed(hex) && 1 <= i <= 5
  {
    HexDigitValue(hex[i]).value * 16 + HexDigitValue(hex[i + 1]).value
  }

  /** `parseInt` of two hexadecimal digits in base 16 is their two-digit value. */
  lemma TwoDigitParse(s: string)
    requires |s| == 2 && IsHexDigit(s[0]) && IsHexDigit(s[1])
    ensures ParseIntHex(s) == Some(HexDigitValue(s[0]).value * 16 + HexDigitValue(s[1]).value)
  {
    assert !IsJsSpace(s[0]);
    assert TrimStart(s) == s;
    assert HexRun(s[1..]) == s[1..] by {
      assert HexRun(s[1..][1..]) == [];
    }
    assert HexRun(s) == s;
    assert HexValue(s[..1]) == HexDigitValue(s[0]).value by {
      assert s[..1][..0] == [];
    }
    assert ParseUnsigned(s) == Some(HexValue(s));
  }

  /** Two hexadecimal digits at `i`, `i + 1` make the channel read there their two-digit value. */
  lemma ChannelOfDigits(hex: string, i: nat)
    requires i + 1 < |hex| && IsHexDigit(hex[i]) && IsHexDigit(hex[i + 1])
    ensures Channel(hex, i) == Some(HexDigitValue(hex[i]).value * 16 + HexDigitValue(hex[i + 1]).value)
  {
    var text := ChannelText(hex, i);
    assert |text| == 2 && text[0] == hex[i] && text[1] == hex[i + 1];
    TwoDigitParse(text);
  }

  /** Each channel of a well-formed colour is read as its two hexadecimal digits, a value in [0, 255]. */
  lemma WellFormedChannel(hex: string, i: nat)
    requires WellFormed(hex) && 1 <= i <= 5
    ensures Channel(hex, i) == Some(ChannelValue(hex, i))
    ensures ChannelValue(hex, i) <= 255
  {
    assert IsHexDigit(hex[i]) && IsHexDigit(hex[i + 1]);
    ChannelOfDigits(hex, i);
  }

  /** For a well-formed colour, the answer is black exactly when the luminance exceeds 149. */
  lemma BlackIffBright(hex: string)
    requires WellFormed(hex)
    ensures TextColorForBackground(hex) == BLACK
        <==> Luma(ChannelValue(hex, 1), ChannelValue(hex, 3), ChannelValue(hex, 5)) > THRESHOLD * 1000
  {
    WellFormedChannel(hex, 1);
    WellFormedChannel(hex, 3);
    WellFormedChannel(hex, 5);
  }

  /** A white background gets black text. */
  lemma WhiteGetsBlackText(hex: string)
    requires hex == WHITE
    ensures TextColorForBackground(hex) == BLACK
  {
    assert WellFormed(hex);
    BlackIffBright(hex);
  }

  /** A black background gets white text. */
  lemma BlackGetsWhiteText(hex: string)
    requires hex == BLACK
    ensures TextColorForBackground(hex) == WHITE
  {
    assert WellFormed(hex);
    BlackIffBright(hex);
  }

  /** Brightening any channel of a well-formed colour never turns a black answer white. */
  lemma BrighterStaysBlack(dark: string, light: string)
    requires WellFormed(dark) && WellFormed(light)
    requires ChannelValue(dark, 1) <= ChannelValue(light, 1)
    requires ChannelValue(dark, 3) <= ChannelValue(light, 3)
    requires ChannelValue(dark, 5) <= ChannelValue(light, 5)
    requires TextColorForBackground(dark) == BLACK
    ensures TextColorForBackground(light) == BLACK
  {
    BlackIffBright(dark);
    BlackIffBright(light);
  }

  /**
   * Text whose first character is neither blank, a sign nor a hexadecimal
   * digit (such as the spelled-out "undefined", or "NaN") reads as NaN.
   */
  lemma NoDigitsIsNaN(s: string)
    requires |s| > 0 && !IsJsSpace(s[0]) && !IsHexDigit(s[0]) && s[0] != '-' && s[0] != '+'
    ensures ParseIntHex(s) == None
  {
    assert TrimStart(s) == s;
    assert ParseSigned(s) == ParseUnsigned(s);
    assert HexRun(s) == [];
  }

  /** `parseInt` of the text of the number NaN is NaN: the reading `Channel` uses past the end of the string. */
  lemma NaNTextIsNaN(text: string)
    requires text == "NaN"
    ensures ParseIntHex(text) == None
  {
    assert !IsJsSpace(text[0]) && !IsHexDigit(text[0]);
    NoDigitsIsNaN(text);
  }

  /** A colour string too short to reach the blue channel reads it as NaN and gets white text. */
  lemma ShortGetsWhiteText(hex: string)
    requires |hex| < 6
    ensures TextColorForBackground(hex) == WHITE
  {
    assert Channel(hex, 5).None?;
  }

  /** `parseInt` of a digit followed by a non-digit other than the `x` of a `0x` prefix reads the one digit. */
  lemma OneDigitParse(s: string)
    requires |s| >= 2 && IsHexDigit(s[0]) && !IsHexDigit(s[1]) && s[1] != 'x' && s[1] != 'X'
    ensures ParseIntHex(s) == Some(HexDigitValue(s[0]).value)
  {
    assert !IsJsSpace(s[0]);
    assert TrimStart(s) == s;
    assert HexRun(s[1..]) == [];
    assert HexRun(s) == s[..1];
    assert HexValue(s[..1]) == HexDigitValue(s[0]).value by {
      assert s[..1][..0] == [];
    }
  }

  /**
   * A last character that is a hexadecimal digit is read alone: `parseInt`
   * stops at the `u` of the "undefined" that follows it.
   */
  lemma TrailingDigitReadsAlone(hex: string, i: nat)
    requires i + 1 == |hex| && IsHexDigit(hex[i])
    ensures Channel(hex, i) == Some(HexDigitValue(hex[i]).value)
  {
    var text := ChannelText(hex, i);
    assert |text| == 10 && text[0] == hex[i] && text[1] == 'u';
    OneDigitParse(text);
  }
}
