/** The colour helpers of SyntaxManager: reading "#RRGGBB" and "#AARRGGBB" strings and
    replacing the alpha of a colour. Each two-character pair goes through
    Integer.valueOf(pair, 16), and java.awt.Color rejects a component outside 0..255. */
module SyntaxManager {
  import opened Results

  // ---------------------------------------------------------------------------------------
  // Colours

  /** A colour component as java.awt.Color accepts it. */
  type Component = x: int | 0 <= x <= 255

  /** java.awt.Color, reduced to its four components. */
  datatype Color = Color(red: Component, green: Component, blue: Component, alpha: Component)

  /** The Color(r, g, b, a) constructor: IllegalArgumentException unless every component is
      in 0..255. */
  function MakeColor(red: int, green: int, blue: int, alpha: int): (r: Result<Color>)
    ensures r.Ok? <==> 0 <= red <= 255 && 0 <= green <= 255 && 0 <= blue <= 255 && 0 <= alpha <= 255
    ensures !r.Ok? ==> r == Err(IllegalArgument)
    ensures r.Ok? ==> r.value.red == red && r.value.green == green && r.value.blue == blue
                      && r.value.alpha == alpha
  {
    if 0 <= red <= 255 && 0 <= green <= 255 && 0 <= blue <= 255 && 0 <= alpha <= 255 then
      Ok(Color(red, green, blue, alpha))
    else Err(IllegalArgument)
  }

  // ---------------------------------------------------------------------------------------
  // Hexadecimal numbers

  const MIN_INT: int := -0x8000_0000
  const MAX_INT: int := 0x7FFF_FFFF

  /** A hexadecimal digit in ASCII, either case. */
  predicate IsHexDigit(c: char) {
    ('0' <= c <= '9') || ('a' <= c <= 'f') || ('A' <= c <= 'F')
  }

  function DigitValue(c: char): (d: nat)
    requires IsHexDigit(c)
    ensures d < 16
  {
    if '0' <= c <= '9' then c as int - '0' as int
    else if 'a' <= c <= 'f' then c as int - 'a' as int + 10
    else c as int - 'A' as int + 10
  }

  predicate AllHex(s: string) {
    forall k :: 0 <= k < |s| ==> IsHexDigit(s[k])
  }

  /** 16 to the power `n`. */
  function Pow16(n: nat): (p: nat)
    ensures p >= 1
  {
    if n == 0 then 1 else 16 * Pow16(n - 1)
  }

  /** The value of a string of hexadecimal digits, most significant first. */
  function HexValue(s: string): (v: nat)
    requires AllHex(s)
    ensures v < Pow16(|s|)
  {
    if |s| == 0 then 0 else 16 * HexValue(s[..|s| - 1]) + DigitValue(s[|s| - 1])
  }

  /** Integer.valueOf(s, 16): an optional '+' or '-', then at least one hexadecimal digit,
      with a value that fits in an int; NumberFormatException otherwise. */
  function ParseHex(s: string): (r: Result<int>)
    ensures r.Ok? ==> MIN_INT <= r.value <= MAX_INT
    ensures !r.Ok? ==> r == Err(NumberFormat)
    ensures |s| == 0 ==> r.Err?
    ensures |s| > 0 && s[0] != '-' && s[0] != '+' ==>
              (r.Ok? <==> AllHex(s) && HexValue(s) <= MAX_INT)
    ensures r.Ok? && s[0] != '-' && s[0] != '+' ==> r.value == HexValue(s)
    ensures |s| > 0 && s[0] == '+' ==>
              (r.Ok? <==> |s| > 1 && AllHex(s[1..]) && HexValue(s[1..]) <= MAX_INT)
    ensures |s| > 0 && s[0] == '-' ==>
              (r.Ok? <==> |s| > 1 && AllHex(s[1..]) && HexValue(s[1..]) <= -MIN_INT)
    ensures r.Ok? && s[0] == '+' ==> r.value == HexValue(s[1..])
    ensures r.Ok? && s[0] == '-' ==> r.value == 0 - HexValue(s[1..]) as int
  {
    if |s| == 0 then Err(NumberFormat)
    else
      var digits := if s[0] == '-' || s[0] == '+' then s[1..] else s;
      if |digits| == 0 || !AllHex(digits) then Err(NumberFormat)
      else
        var v: int := if s[0] == '-' then 0 - HexValue(digits) as int else HexValue(digits);
        if v < MIN_INT || v > MAX_INT then Err(NumberFormat) else Ok(v)
  }

  /** A sign is read once and only in front: "-F" is -15 and "+F" is 15, while a lone sign
      or a second sign is a NumberFormatException. */
  lemma SignedExamples()
    ensures ParseHex("-F") == Ok(-15) && ParseHex("+F") == Ok(15)
    ensures ParseHex("-").Err? && ParseHex("+-F").Err?
  {
    assert "-F"[1..] == "F" && "+F"[1..] == "F";
    assert HexValue("F") == 15 by {
      assert "F"[..0] == "";
    }
    assert "-"[1..] == "";
    assert !IsHexDigit("+-F"[1..][0]);
  }

  /** Integer.valueOf(s.substring(i, i + 2), 16): a substring past the end of `s` throws
      StringIndexOutOfBoundsException before any parsing. */
  function Pair(s: string, i: nat): (r: Result<int>)
    ensures i + 2 > |s| ==> r == Err(StringIndexOutOfBounds)
    ensures i + 2 <= |s| ==> r == ParseHex(s[i..i + 2])
  {
    if i + 2 > |s| then Err(StringIndexOutOfBounds) else ParseHex(s[i..i + 2])
  }

  /** The characters of `s` from `lo` up to `hi` are hexadecimal digits. */
  predicate HexIn(s: string, lo: int, hi: int) {
    0 <= lo <= hi <= |s| && forall k :: lo <= k < hi ==> IsHexDigit(s[k])
  }

  /** The component that the two hexadecimal digits at `i` denote. */
  function PairValue(s: string, i: nat): (v: Component)
    requires HexIn(s, i, i + 2)
  {
    16 * DigitValue(s[i]) + DigitValue(s[i + 1])
  }

  /** A pair of hexadecimal digits is read as a component. */
  lemma PairOfHexDigits(s: string, i: nat)
    ensures HexIn(s, i, i + 2) ==>
              && Pair(s, i) == Ok(PairValue(s, i))
              && HexValue(s[i..i + 2]) == PairValue(s, i)
  {
    if HexIn(s, i, i + 2) {
      var t := s[i..i + 2];
      assert t[..1][..0] == [];
      assert t[..|t| - 1] == [s[i]];
      assert AllHex(t) && HexValue(t) == PairValue(s, i);
    }
  }

  /** Every component a pair yields lies in 0..255, except a sign followed by a digit, which
      yields a value in -15..15. */
  lemma PairRange(s: string, i: nat)
    requires Pair(s, i).Ok?
    ensures -15 <= Pair(s, i).value <= 255
    ensures s[i] != '-' ==> 0 <= Pair(s, i).value
  {
    var t := s[i..i + 2];
    if t[0] == '-' || t[0] == '+' {
      assert t[1..][..0] == [];
    } else {
      assert t[..1][..0] == [];
    }
  }

  // ---------------------------------------------------------------------------------------
  // getColor

  /** getColor(String): seven characters are read as "#RRGGBB" with an opaque alpha, any
      other length as "#AARRGGBB". The pairs are read in argument order, so the first
      failing pair decides the exception; the leading character is never examined. */
  function GetColor(colorStr: string): (r: Result<Color>)
    ensures |colorStr| < 5 ==> r == Err(StringIndexOutOfBounds)
    ensures r.Ok? ==> |colorStr| == 7 || |colorStr| >= 9
    ensures |colorStr| == 7 && HexIn(colorStr, 1, 7) ==>
              r == Ok(Color(PairValue(colorStr, 1), PairValue(colorStr, 3),
                            PairValue(colorStr, 5), 255))
    ensures |colorStr| >= 9 && HexIn(colorStr, 1, 9) ==>
              r == Ok(Color(PairValue(colorStr, 3), PairValue(colorStr, 5),
                            PairValue(colorStr, 7), PairValue(colorStr, 1)))
  {
    PairOfHexDigits(colorStr, 1);
    PairOfHexDigits(colorStr, 3);
    PairOfHexDigits(colorStr, 5);
    PairOfHexDigits(colorStr, 7);
    if |colorStr| == 7 then
      var red :- Pair(colorStr, 1);
      var green :- Pair(colorStr, 3);
      var blue :- Pair(colorStr, 5);
      MakeColor(red, green, blue, 255)
    else
      var red :- Pair(colorStr, 3);
      var green :- Pair(colorStr, 5);
      var blue :- Pair(colorStr, 7);
      var alpha :- Pair(colorStr, 1);
      MakeColor(red, green, blue, alpha)
  }

  /** getColor(int, String): red, green and blue from "#RRGGBB" and the given alpha. */
  function GetColorWithAlpha(alpha: int, colorStr: string): (r: Result<Color>)
    ensures |colorStr| < 3 ==> r == Err(StringIndexOutOfBounds)
    ensures r.Ok? ==> |colorStr| >= 7 && r.value.alpha == alpha
    ensures |colorStr| >= 7 && HexIn(colorStr, 1, 7) ==>
              r == (if 0 <= alpha <= 255
                    then Ok(Color(PairValue(colorStr, 1), PairValue(colorStr, 3),
                                  PairValue(colorStr, 5), alpha))
                    else Err(IllegalArgument))
  {
    PairOfHexDigits(colorStr, 1);
    PairOfHexDigits(colorStr, 3);
    PairOfHexDigits(colorStr, 5);
    var red :- Pair(colorStr, 1);
    var green :- Pair(colorStr, 3);
    var blue :- Pair(colorStr, 5);
    MakeColor(red, green, blue, alpha)
  }

  /** getColor(int, Color): the same red, green and blue with another alpha. */
  function WithAlpha(alpha: int, color: Color): (r: Result<Color>)
    ensures r.Ok? <==> 0 <= alpha <= 255
    ensures !r.Ok? ==> r == Err(IllegalArgument)
    ensures r.Ok? ==> r.value.red == color.red && r.value.green == color.green
                      && r.value.blue == color.blue && r.value.alpha == alpha
  {
    MakeColor(color.red, color.green, color.blue, alpha)
  }

  // ---------------------------------------------------------------------------------------
  // Colour strings

  /** The upper-case hexadecimal digit of `d`. */
  function HexDigit(d: nat): (c: char)
    requires d < 16
    ensures IsHexDigit(c) && DigitValue(c) == d
  {
    if d < 10 then ('0' as int + d) as char else ('A' as int + d - 10) as char
  }

  /** `n` written with exactly `width` hexadecimal digits, most significant first. */
  function ToHex(n: nat, width: nat): (s: string)
    ensures |s| == width && AllHex(s)
  {
    if width == 0 then "" else ToHex(n / 16, width - 1) + [HexDigit(n % 16)]
  }

  /** Reading back `width` digits gives the number, when it fits in them. */
  lemma {:induction false} HexRoundTrip(n: nat, width: nat)
    requires n < Pow16(width)
    ensures HexValue(ToHex(n, width)) == n
  {
    if width > 0 {
      var s := ToHex(n, width);
      assert s[..|s| - 1] == ToHex(n / 16, width - 1);
      HexRoundTrip(n / 16, width - 1);
    }
  }

  /** The "#AARRGGBB" form of a colour. */
  function ArgbString(c: Color): (s: string)
    ensures |s| == 9 && HexIn(s, 1, 9)
  {
    "#" + ToHex(c.alpha, 2) + ToHex(c.red, 2) + ToHex(c.green, 2) + ToHex(c.blue, 2)
  }

  /** The "#RRGGBB" form of a colour. */
  function RgbString(c: Color): (s: string)
    ensures |s| == 7 && HexIn(s, 1, 7)
  {
    "#" + ToHex(c.red, 2) + ToHex(c.green, 2) + ToHex(c.blue, 2)
  }

  /** getColor reads back the colour its string forms were written from; the short form
      gives the colour made opaque, and getColor(int, String) the colour with the given
      alpha. */
  lemma GetColorRoundTrip(c: Color, alpha: int)
    ensures GetColor(ArgbString(c)) == Ok(c)
    ensures GetColor(RgbString(c)) == Ok(c.(alpha := 255))
    ensures GetColorWithAlpha(alpha, RgbString(c)) == WithAlpha(alpha, c)
  {
    LongFormPairs(c);
    ShortFormPairs(c);
  }

  /** The four pairs of the "#AARRGGBB" form read back as alpha, red, green and blue. */
  lemma LongFormPairs(c: Color)
    ensures var s := ArgbString(c);
            && PairValue(s, 1) == c.alpha && PairValue(s, 3) == c.red
            && PairValue(s, 5) == c.green && PairValue(s, 7) == c.blue
  {
    var a, r, g, b := ToHex(c.alpha, 2), ToHex(c.red, 2), ToHex(c.green, 2), ToHex(c.blue, 2);
    var s := ArgbString(c);
    PairsOfLongForm(a, r, g, b);
    HexRoundTrip(c.alpha, 2);
    HexRoundTrip(c.red, 2);
    HexRoundTrip(c.green, 2);
    HexRoundTrip(c.blue, 2);
    PairOfHexDigits(s, 1);
    PairOfHexDigits(s, 3);
    PairOfHexDigits(s, 5);
    PairOfHexDigits(s, 7);
  }

  /** The three pairs of the "#RRGGBB" form read back as red, green and blue. */
  lemma ShortFormPairs(c: Color)
    ensures var s := RgbString(c);
            PairValue(s, 1) == c.red && PairValue(s, 3) == c.green && PairValue(s, 5) == c.blue
  {
    var r, g, b := ToHex(c.red, 2), ToHex(c.green, 2), ToHex(c.blue, 2);
    var s := RgbString(c);
    PairsOfShortForm(r, g, b);
    HexRoundTrip(c.red, 2);
    HexRoundTrip(c.green, 2);
    HexRoundTrip(c.blue, 2);
    PairOfHexDigits(s, 1);
    PairOfHexDigits(s, 3);
    PairOfHexDigits(s, 5);
  }

  /** The pairs of "#" + a + r + g + b are a, r, g and b. */
  lemma PairsOfLongForm(a: string, r: string, g: string, b: string)
    requires |a| == |r| == |g| == |b| == 2
    ensures var s := "#" + a + r + g + b;
            s[1..3] == a && s[3..5] == r && s[5..7] == g && s[7..9] == b
  {
    var s := "#" + a + r + g + b;
    assert s[1..3] == a;
    assert s[3..5] == r;
    assert s[5..7] == g;
    assert s[7..9] == b;
  }

  /** The pairs of "#" + r + g + b are r, g and b. */
  lemma PairsOfShortForm(r: string, g: string, b: string)
    requires |r| == |g| == |b| == 2
    ensures var s := "#" + r + g + b; s[1..3] == r && s[3..5] == g && s[5..7] == b
  {
    var s := "#" + r + g + b;
    assert s[1..3] == r;
    assert s[3..5] == g;
    assert s[5..7] == b;
  }

  /** The two examples documented with getColor(String). */
  lemma DocumentedExamples()
    ensures GetColor("#80007EE6") == Ok(Color(0, 126, 230, 128))
    ensures GetColor("#007EE6") == Ok(Color(0, 126, 230, 255))
  {
    var long := "#80007EE6";
    assert HexIn(long, 1, 9);
    assert PairValue(long, 1) == 128 && PairValue(long, 3) == 0;
    assert PairValue(long, 5) == 126 && PairValue(long, 7) == 230;
    var short := "#007EE6";
    assert HexIn(short, 1, 7);
    assert PairValue(short, 1) == 0 && PairValue(short, 3) == 126 && PairValue(short, 5) == 230;
  }
}
