/**
  The primary colour as the stylesheet reads it: the hex parser behind the
  translucent variants and the brightness rule that picks the text colour of
  primary buttons.
 */
module Colors {

  predicate IsHexDigit(c: char) {
    '0' <= c <= '9' || 'a' <= c <= 'f' || 'A' <= c <= 'F'
  }

  function HexValue(c: char): (v: nat)
    requires IsHexDigit(c)
    ensures v < 16
  {
    if '0' <= c <= '9' then c as int - '0' as int
    else if 'a' <= c <= 'f' then c as int - 'a' as int + 10
    else c as int - 'A' as int + 10
  }

  datatype Rgb = Rgb(r: int, g: int, b: int)

  const White := Rgb(255, 255, 255)

  /** What `/^#?([a-f\d]{2})([a-f\d]{2})([a-f\d]{2})$/i` accepts: an optional `#`, then exactly
      six hex digits in either case, and nothing else. */
  predicate HexColor(text: string) {
    || (|text| == 6 && forall i :: 0 <= i < 6 ==> IsHexDigit(text[i]))
    || (|text| == 7 && text[0] == '#' && forall i :: 1 <= i < 7 ==> IsHexDigit(text[i]))
  }

  /** The value of the two hex digits at `at`. */
  function Pair(digits: string, at: nat): (v: nat)
    requires at + 1 < |digits| && IsHexDigit(digits[at]) && IsHexDigit(digits[at + 1])
    ensures v <= 255
  {
    16 * HexValue(digits[at]) + HexValue(digits[at + 1])
  }

  /** `hexToRgb`: the three byte values of a hex colour, white for anything else. */
  function HexToRgb(text: string): (c: Rgb)
    ensures !HexColor(text) ==> c == White
    ensures HexColor(text) ==> var at := |text| - 6;
      && c.r == 16 * HexValue(text[at]) + HexValue(text[at + 1])
      && c.g == 16 * HexValue(text[at + 2]) + HexValue(text[at + 3])
      && c.b == 16 * HexValue(text[at + 4]) + HexValue(text[at + 5])
    ensures 0 <= c.r <= 255 && 0 <= c.g <= 255 && 0 <= c.b <= 255
  {
    var digits := if |text| > 0 && text[0] == '#' then text[1..] else text;
    if |digits| == 6 && forall i :: 0 <= i < 6 ==> IsHexDigit(digits[i]) then
      assert HexColor(text);
      Rgb(Pair(digits, 0), Pair(digits, 2), Pair(digits, 4))
    else
      White
  }

  /** The lower-case hex digit of a value below sixteen. */
  function HexDigit(v: nat): (c: char)
    requires v < 16
    ensures IsHexDigit(c) && HexValue(c) == v
  {
    if v < 10 then ('0' as int + v) as char else ('a' as int + v - 10) as char
  }

  /** `#rrggbb` in lower case, the form the colour picker stores. */
  function ToHex(c: Rgb): (text: string)
    requires 0 <= c.r <= 255 && 0 <= c.g <= 255 && 0 <= c.b <= 255
    ensures HexColor(text)
  {
    ['#', HexDigit(c.r / 16), HexDigit(c.r % 16), HexDigit(c.g / 16), HexDigit(c.g % 16),
     HexDigit(c.b / 16), HexDigit(c.b % 16)]
  }

  /** Parsing a formatted colour gives the colour back. */
  lemma HexRoundTrip(c: Rgb)
    requires 0 <= c.r <= 255 && 0 <= c.g <= 255 && 0 <= c.b <= 255
    ensures HexToRgb(ToHex(c)) == c
  {
  }

  /** The parser ignores letter case and the leading `#`. */
  lemma HexCaseAndHashIgnored(c: Rgb, text: string)
    requires 0 <= c.r <= 255 && 0 <= c.g <= 255 && 0 <= c.b <= 255
    requires |text| == 6
    requires forall i :: 0 <= i < 6 ==> IsHexDigit(text[i]) && HexValue(text[i]) == HexValue(ToHex(c)[i + 1])
    ensures HexToRgb(text) == c
    ensures HexToRgb("#" + text) == c
  {
    HexRoundTrip(c);
    assert ("#" + text)[1..] == text;
  }

  /** The three-digit shorthand and the eight-digit form with alpha are not
      recognised: they fall back to white. */
  lemma ShortAndAlphaFormsRejected()
    ensures HexToRgb("#000") == White
    ensures HexToRgb("#00000080") == White
  {
  }

  /** The weighted brightness, times one thousand (kept whole): the weights
      add up to 1000, so byte channels give 0 for black up to 255000 for
      white, and a grey is a thousand times its channel. */
  function Brightness(c: Rgb): (b: int)
    ensures 0 <= c.r <= 255 && 0 <= c.g <= 255 && 0 <= c.b <= 255 ==> 0 <= b <= 255000
    ensures c.r == c.g == c.b ==> b == 1000 * c.r
  {
    299 * c.r + 587 * c.g + 114 * c.b
  }

  /** A colour at least as bright in every channel is at least as bright. */
  lemma BrightnessMonotone(c: Rgb, d: Rgb)
    requires d.r >= c.r && d.g >= c.g && d.b >= c.b
    ensures Brightness(d) >= Brightness(c)
  {
  }

  /** The text colour of primary buttons: near-black on a bright primary,
      white otherwise. `brightness > 128` with `brightness = sum / 1000` is
      `sum > 128000` exactly. */
  function ButtonTextColor(primary: string): (color: string)
    ensures color == "#09090b" <==> Brightness(HexToRgb(primary)) > 128000
    ensures color == "#ffffff" <==> Brightness(HexToRgb(primary)) <= 128000
  {
    if Brightness(HexToRgb(primary)) > 128000 then "#09090b" else "#ffffff"
  }

  /** The default primary gets dark text, black gets white text, and an
      unreadable colour is treated as white. */
  lemma ButtonTextExamples(text: string)
    requires !HexColor(text)
    ensures ButtonTextColor("#ffffff") == "#09090b"
    ensures ButtonTextColor("#000000") == "#ffffff"
    ensures ButtonTextColor(text) == "#09090b"
  {
    assert HexColor("#ffffff") && HexColor("#000000");
  }

  /** Making every channel at least as bright never turns dark text white. */
  lemma BrighterKeepsDarkText(a: string, b: string)
    requires var ca, cb := HexToRgb(a), HexToRgb(b); ca.r <= cb.r && ca.g <= cb.g && ca.b <= cb.b
    requires ButtonTextColor(a) == "#09090b"
    ensures ButtonTextColor(b) == "#09090b"
  {
  }
}
