/**
 * The colour text of the `/color` response: `#` followed by two lower-case
 * hexadecimal digits per channel, red, green, blue, each zero-padded to width
 * two. A decoder is given as the encoder's inverse.
 */
module HexColor {
  import opened Wrappers
  import opened Pixels

  /** A lower-case hexadecimal digit. */
  predicate IsHexDigit(c: char) {
    '0' <= c <= '9' || 'a' <= c <= 'f'
  }

  function HexDigit(d: int): (c: char)
    requires 0 <= d < 16
    ensures IsHexDigit(c)
  {
    if d < 10 then ('0' as int + d) as char else ('a' as int + d - 10) as char
  }

  /** The value of a lower-case hexadecimal digit; None for any other character. */
  function DigitValue(c: char): (r: Option<int>)
    ensures r.Some? <==> IsHexDigit(c)
    ensures r.Some? ==> 0 <= r.value < 16 && HexDigit(r.value) == c
  {
    if '0' <= c <= '9' then Some(c as int - '0' as int)
    else if 'a' <= c <= 'f' then Some(c as int - 'a' as int + 10)
    else None
  }

  /** A channel as exactly two hexadecimal digits, high digit first. */
  function Hex2(v: Channel): (s: string)
    ensures |s| == 2 && IsHexDigit(s[0]) && IsHexDigit(s[1])
    ensures Channel2(s[0], s[1]) == Some(v)
  {
    assert DigitValue(HexDigit(v / 16)) == Some(v / 16);
    assert DigitValue(HexDigit(v % 16)) == Some(v % 16);
    [HexDigit(v / 16), HexDigit(v % 16)]
  }

  /** The `#rrggbb` text of a colour. */
  function Encode(p: Rgb): (s: string)
    ensures |s| == 7 && s[0] == '#'
    ensures forall i :: 1 <= i < 7 ==> IsHexDigit(s[i])
  {
    "#" + Hex2(p.r) + Hex2(p.g) + Hex2(p.b)
  }

  /** The channel written by two hexadecimal digits, high digit first. */
  function Channel2(hi: char, lo: char): Option<Channel> {
    match (DigitValue(hi), DigitValue(lo))
    case (Some(h), Some(l)) => Some(16 * h + l)
    case _ => None
  }

  /** Reads `#rrggbb` back into a colour; None for any other text. */
  function Decode(s: string): Option<Rgb> {
    if |s| != 7 || s[0] != '#' then None
    else match (Channel2(s[1], s[2]), Channel2(s[3], s[4]), Channel2(s[5], s[6]))
      case (Some(r), Some(g), Some(b)) => Some(Rgb(r, g, b))
      case _ => None
  }

  /** Decoding the encoding of a colour gives the colour back. */
  lemma DecodeEncode(p: Rgb)
    ensures Decode(Encode(p)) == Some(p)
  {
    var s := Encode(p);
    assert s[1..3] == Hex2(p.r) && s[3..5] == Hex2(p.g) && s[5..7] == Hex2(p.b);
  }

  lemma Channel2Inverse(hi: char, lo: char, v: Channel)
    requires Channel2(hi, lo) == Some(v)
    ensures Hex2(v) == [hi, lo]
  {
    var h, l := DigitValue(hi).value, DigitValue(lo).value;
    assert v == 16 * h + l;
    assert v / 16 == h && v % 16 == l;
  }

  /** Every text the decoder accepts is the encoding of what it decodes to. */
  lemma EncodeDecode(s: string, p: Rgb)
    requires Decode(s) == Some(p)
    ensures Encode(p) == s
  {
    Channel2Inverse(s[1], s[2], p.r);
    Channel2Inverse(s[3], s[4], p.g);
    Channel2Inverse(s[5], s[6], p.b);
    assert s == [s[0]] + [s[1], s[2]] + [s[3], s[4]] + [s[5], s[6]];
  }

  /** Distinct colours have distinct texts. */
  lemma EncodeInjective(p: Rgb, q: Rgb)
    requires Encode(p) == Encode(q)
    ensures p == q
  {
    DecodeEncode(p);
    DecodeEncode(q);
  }

  lemma ExampleMixed()
    ensures Encode(Rgb(18, 52, 86)) == "#123456"
  {
  }

  lemma ExamplePureRed()
    ensures Encode(Rgb(255, 0, 0)) == "#ff0000"
  {
  }
}
