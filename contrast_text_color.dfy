/** getContrastTextColor: reads a CSS colour "#RRGGBB", splits it into its red, green
    and blue bytes, and picks black text for a light background (luminance above 140
    on the 0..255 scale) and white text otherwise. The luminance weights are those of
    the relative luminance of WCAG 2.x and ITU-R BT.709, applied to the raw channel
    values. */
module ContrastTextColor {
  import opened JsValues
  import opened JsParseInt

  const Black: string := "#000000"
  const White: string := "#FFFFFF"

  datatype Rgb = Rgb(r: nat, g: nat, b: nat)

  predicate IsColor(c: Rgb) {
    c.r < 256 && c.g < 256 && c.b < 256
  }

  /** `hex.substring(1)`: everything after the first character. */
  function DropFirst(hex: string): (c: string)
    ensures |hex| > 0 ==> hex == [hex[0]] + c
    ensures |hex| == 0 ==> c == []
  {
    if |hex| == 0 then [] else hex[1..]
  }

  /** `x >> k` on a signed 32-bit value: an arithmetic shift, which rounds toward
      minus infinity. */
  function ShiftRight(x: int, k: nat): (q: int)
    ensures q * Pow2(k) <= x < (q + 1) * Pow2(k)
  {
    x / Pow2(k)
  }

  /** `x & 0xff` on a signed 32-bit value: the low eight bits of its two's complement,
      which is its remainder modulo 256. */
  function LowByte(x: int): (b: nat)
    ensures b < 256 && (x - b) % 256 == 0
  {
    x % 256
  }

  /** `(rgb >> 16) & 0xff`, `(rgb >> 8) & 0xff` and `rgb & 0xff`: the three bytes are
      the low 24 bits of ToInt32(rgb), red the most significant. */
  function Channels(rgb: Number): (c: Rgb)
    ensures IsColor(c)
    ensures 65536 * c.r + 256 * c.g + c.b == ToInt32(rgb) % 0x100_0000
  {
    var x := ToInt32(rgb);
    assert Pow2(8) == 256 && Pow2(16) == 65536;
    ByteSplit(x);
    Rgb(LowByte(ShiftRight(x, 16)), LowByte(ShiftRight(x, 8)), LowByte(x))
  }

  lemma ByteSplit(x: int)
    ensures 65536 * ((x / 65536) % 256) + 256 * ((x / 256) % 256) + x % 256 == x % 0x100_0000
  {
    var m := x % 0x100_0000;
    var a := x / 0x100_0000;
    assert x == 0x100_0000 * a + m;
    var r, g, b := m / 65536, (m / 256) % 256, m % 256;
    assert m == 65536 * r + 256 * g + b;
    assert x / 65536 == 256 * a + r;
    assert x / 256 == 65536 * a + 256 * r + g;
  }

  /** The colour a string decodes to: `parseInt(hex.substring(1), 16)` split into bytes. */
  function DecodeColor(hex: string): (c: Rgb)
    ensures IsColor(c)
  {
    Channels(ParseIntHex(DropFirst(hex)))
  }

  /** `0.2126 * r + 0.7152 * g + 0.0722 * b`, computed exactly. */
  function Luminance(c: Rgb): (l: real)
    ensures 10000.0 * l == (2126 * c.r + 7152 * c.g + 722 * c.b) as real
  {
    0.2126 * (c.r as real) + 0.7152 * (c.g as real) + 0.0722 * (c.b as real)
  }

  /** getContrastTextColor(hex): black above luminance 140, white otherwise. The
      comparison is the same as 2126 r + 7152 g + 722 b > 1400000 on the decoded
      bytes. */
  function GetContrastTextColor(hex: string): (text: string)
    ensures text == Black || text == White
    ensures var c := DecodeColor(hex);
      text == Black <==> 2126 * c.r + 7152 * c.g + 722 * c.b > 1400000
  {
    if Luminance(DecodeColor(hex)) > 140.0 then Black else White
  }

  /** The luminance of a colour lies between 0 and 255: the weights add up to one. */
  lemma LuminanceRange(c: Rgb)
    requires IsColor(c)
    ensures 0.0 <= Luminance(c) <= 255.0
    ensures Luminance(c) == 255.0 <==> c == Rgb(255, 255, 255)
    ensures Luminance(c) == 0.0 <==> c == Rgb(0, 0, 0)
  {
  }

  /** Only the characters after the first are read: the leading "#" is not checked. */
  lemma FirstCharacterIgnored(c1: char, c2: char, rest: string)
    ensures DecodeColor([c1] + rest) == DecodeColor([c2] + rest)
    ensures GetContrastTextColor([c1] + rest) == GetContrastTextColor([c2] + rest)
  {
    assert DropFirst([c1] + rest) == rest == DropFirst([c2] + rest);
  }

  /** Three bytes are determined by the number red * 65536 + green * 256 + blue. */
  lemma BytesUnique(r: int, g: int, b: int, r': int, g': int, b': int)
    requires 0 <= r < 256 && 0 <= g < 256 && 0 <= b < 256
    requires 0 <= r' < 256 && 0 <= g' < 256 && 0 <= b' < 256
    requires 65536 * r + 256 * g + b == 65536 * r' + 256 * g' + b'
    ensures r == r' && g == g' && b == b'
  {
    var k := 256 * (r - r') + (g - g');
    assert 256 * k == b' - b;
    assert b == b';
    assert 256 * (r - r') == g' - g;
  }

  /** Three bytes packed into one number split back into the same three bytes. */
  lemma BytesSplitBack(n: nat, r: nat, g: nat, b: nat)
    requires r < 256 && g < 256 && b < 256 && n == 65536 * r + 256 * g + b
    ensures Channels(Finite(n, 0)) == Rgb(r, g, b)
  {
    var c := Channels(Finite(n, 0));
    assert 65536 * c.r + 256 * c.g + c.b == n by {
      ToInt32Small(n);
      PackedBelow(r, g, b);
    }
    BytesUnique(c.r, c.g, c.b, r, g, b);
  }

  lemma PackedBelow(r: nat, g: nat, b: nat)
    requires r < 256 && g < 256 && b < 256
    ensures 65536 * r + 256 * g + b < 0x100_0000
    ensures (65536 * r + 256 * g + b) % 0x100_0000 == 65536 * r + 256 * g + b
  {
  }

  /** Three pairs of hexadecimal digits spell 65536 times the first pair plus 256 times
      the second plus the third. */
  lemma ThreePairsValue(rs: string, gs: string, bs: string)
    requires |rs| == 2 && |gs| == 2 && |bs| == 2 && AllHex(rs) && AllHex(gs) && AllHex(bs)
    ensures AllHex(rs + gs + bs)
    ensures ParseHex(rs + gs + bs) == 65536 * ParseHex(rs) + 256 * ParseHex(gs) + ParseHex(bs)
  {
    var r, g, b := ParseHex(rs), ParseHex(gs), ParseHex(bs);
    var rg := rs + gs;
    ParseHexAppend(rs, gs);
    assert Pow16(2) == 256;
    var v := ParseHex(rg);
    assert v == r * 256 + g;
    ParseHexAppend(rg, bs);
    assert ParseHex(rg + bs) == v * 256 + b;
  }

  /** For one leading character and three pairs of hexadecimal digits, red is the first
      pair, green the second and blue the third, and together they make up the number
      the six digits spell. */
  lemma SixDigitColor(h: char, rs: string, gs: string, bs: string)
    requires |rs| == 2 && |gs| == 2 && |bs| == 2 && AllHex(rs) && AllHex(gs) && AllHex(bs)
    ensures var c := DecodeColor([h] + (rs + gs + bs));
      && c == Rgb(ParseHex(rs), ParseHex(gs), ParseHex(bs))
      && 65536 * c.r + 256 * c.g + c.b == ParseHex(rs + gs + bs)
  {
    ThreePairsValue(rs, gs, bs);
    DecodeAfterFirst(h, rs + gs + bs);
    BytesSplitBack(ParseHex(rs + gs + bs), ParseHex(rs), ParseHex(gs), ParseHex(bs));
  }

  /** A string whose characters after the first are all hexadecimal digits decodes to
      the bytes of the number they spell. */
  lemma DecodeAfterFirst(h: char, digits: string)
    requires digits != [] && AllHex(digits)
    ensures DecodeColor([h] + digits) == Channels(Finite(ParseHex(digits), 0))
  {
    assert DropFirst([h] + digits) == digits;
    ParseIntHexDigits(digits);
  }

  /** The CSS colour "#RRGGBB" of a colour, in upper-case digits. */
  function HexColor(c: Rgb): (hex: string)
    requires IsColor(c)
    ensures |hex| == 7 && hex[0] == '#' && AllHex(hex[1..])
  {
    var s := "#" + ToHex(c.r, 2) + ToHex(c.g, 2) + ToHex(c.b, 2);
    assert s[1..] == ToHex(c.r, 2) + ToHex(c.g, 2) + ToHex(c.b, 2);
    s
  }

  /** Decoding the CSS colour of a colour gives the colour back. */
  lemma DecodeHexColor(c: Rgb)
    requires IsColor(c)
    ensures DecodeColor(HexColor(c)) == c
  {
    var rs, gs, bs := ToHex(c.r, 2), ToHex(c.g, 2), ToHex(c.b, 2);
    assert HexColor(c) == ['#'] + (rs + gs + bs);
    assert Pow16(2) == 256;
    ParseHexToHex(c.r, 2);
    ParseHexToHex(c.g, 2);
    ParseHexToHex(c.b, 2);
    SixDigitColor('#', rs, gs, bs);
  }

  /** The text colour for a background colour, as a CSS colour string. */
  lemma ContrastOfColor(c: Rgb)
    requires IsColor(c)
    ensures GetContrastTextColor(HexColor(c)) == if Luminance(c) > 140.0 then Black else White
  {
    DecodeHexColor(c);
  }

  /** The threshold is strict: luminance exactly 140 gives white text. */
  lemma ThresholdIsStrict(c: Rgb)
    requires IsColor(c) && Luminance(c) == 140.0
    ensures GetContrastTextColor(HexColor(c)) == White
  {
    ContrastOfColor(c);
  }

  /** Brightening any channel can turn white text into black, never black into white. */
  lemma ContrastMonotone(c: Rgb, d: Rgb)
    requires IsColor(c) && IsColor(d)
    requires c.r <= d.r && c.g <= d.g && c.b <= d.b
    ensures GetContrastTextColor(HexColor(c)) == Black ==> GetContrastTextColor(HexColor(d)) == Black
    ensures GetContrastTextColor(HexColor(d)) == White ==> GetContrastTextColor(HexColor(c)) == White
  {
    ContrastOfColor(c);
    ContrastOfColor(d);
  }

  /** A white background gets black text. */
  lemma WhiteBackground()
    ensures DecodeColor("#FFFFFF") == Rgb(255, 255, 255)
    ensures GetContrastTextColor("#FFFFFF") == Black
  {
    assert "#FFFFFF" == ['#'] + ("FF" + "FF" + "FF");
    assert AllHex("FF") && ParseHex("FF") == 255;
    SixDigitColor('#', "FF", "FF", "FF");
  }

  /** A black background gets white text. */
  lemma BlackBackground()
    ensures DecodeColor("#000000") == Rgb(0, 0, 0)
    ensures GetContrastTextColor("#000000") == White
  {
    assert "#000000" == ['#'] + ("00" + "00" + "00");
    assert AllHex("00") && ParseHex("00") == 0;
    SixDigitColor('#', "00", "00", "00");
  }

  /** "#F2A60D" is red 242, green 166, blue 13, luminance about 171.1: black text. */
  lemma AmberExample()
    ensures DecodeColor("#F2A60D") == Rgb(242, 166, 13)
    ensures Luminance(Rgb(242, 166, 13)) == 171.111
    ensures GetContrastTextColor("#F2A60D") == Black
  {
    AmberDecodes();
    assert 2126 * 242 + 7152 * 166 + 722 * 13 == 1711110;
  }

  lemma AmberDecodes()
    ensures DecodeColor("#F2A60D") == Rgb(242, 166, 13)
  {
    assert "#F2A60D" == ['#'] + ("F2" + "A6" + "0D");
    assert AllHex("F2") && ParseHex("F2") == 242;
    assert AllHex("A6") && ParseHex("A6") == 166;
    assert AllHex("0D") && ParseHex("0D") == 13;
    SixDigitColor('#', "F2", "A6", "0D");
  }

  /** Mid grey "#8C8C8C" has luminance exactly 140 and gets white text. */
  lemma GreyTieExample()
    ensures DecodeColor("#8C8C8C") == Rgb(140, 140, 140)
    ensures Luminance(Rgb(140, 140, 140)) == 140.0
    ensures GetContrastTextColor("#8C8C8C") == White
  {
    assert "#8C8C8C" == ['#'] + ("8C" + "8C" + "8C");
    assert AllHex("8C") && ParseHex("8C") == 140;
    SixDigitColor('#', "8C", "8C", "8C");
  }

  /** parseInt accepts a sign: "#-FF" reads as -255, whose two's complement bytes are
      255, 255 and 1. */
  lemma SignedExample()
    ensures DecodeColor("#-FF") == Rgb(255, 255, 1)
  {
    assert DropFirst("#-FF") == "-" + "FF";
    assert AllHex("FF") && ParseHex("FF") == 255;
    ParseIntHexNegative("FF");
    var c := Channels(Finite(-255, 0));
    assert 65536 * c.r + 256 * c.g + c.b == 65536 * 255 + 256 * 255 + 1 by {
      MinusByte();
    }
    BytesUnique(c.r, c.g, c.b, 255, 255, 1);
  }

  /** ToInt32(-255), reduced to its low 24 bits. */
  lemma MinusByte()
    ensures ToInt32(Finite(-255, 0)) % 0x100_0000 == 65536 * 255 + 256 * 255 + 1
  {
    assert Truncate(-255, 0) == -255;
    assert ToInt32(Finite(-255, 0)) == -255;
  }

  /** parseInt drops a "0x" prefix: "#0x8C8C8C" is the same grey as "#8C8C8C". */
  lemma PrefixedExample()
    ensures DecodeColor("#0x8C8C8C") == DecodeColor("#8C8C8C")
  {
    assert DropFirst("#0x8C8C8C") == ['0', 'x'] + "8C8C8C";
    assert DropFirst("#8C8C8C") == "8C8C8C";
    assert AllHex("8C8C8C");
    ParseIntHexZeroX('x', "8C8C8C");
    ParseIntHexDigits("8C8C8C");
  }
}
