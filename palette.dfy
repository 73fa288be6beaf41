/**
 * The colour helper of the game: `shadeColor` darkens or lightens a
 * `#rrggbb` colour by adding one integer offset to each of its three
 * channels, clamping every channel to [0, 255], and printing the result
 * back as `#` followed by six lower-case hexadecimal digits.
 *
 * The JavaScript reads the colour with `parseInt(_, 16)`, splits it with
 * shifts and masks, and prints it with `(0x1000000 + packed).toString(16)`
 * followed by `.slice(1)`, so that the leading `1` keeps the zero padding.
 * Each of these steps is modelled here on natural numbers.
 */
module Palette {

  /** A character that `parseInt(_, 16)` accepts as a digit (either case). */
  predicate IsHexDigit(c: char) {
    ('0' <= c <= '9') || ('a' <= c <= 'f') || ('A' <= c <= 'F')
  }

  /** A digit as `Number.prototype.toString(16)` prints it (lower case). */
  predicate IsLowerHexDigit(c: char) {
    ('0' <= c <= '9') || ('a' <= c <= 'f')
  }

  predicate AllHex(s: string) {
    forall i :: 0 <= i < |s| ==> IsHexDigit(s[i])
  }

  predicate AllLowerHex(s: string) {
    forall i :: 0 <= i < |s| ==> IsLowerHexDigit(s[i])
  }

  /** A well-formed colour literal such as "#8B4513". */
  predicate IsColor(c: string) {
    |c| == 7 && c[0] == '#' && AllHex(c[1..])
  }

  function Pow16(k: nat): (p: nat)
    ensures p >= 1
  {
    if k == 0 then 1 else 16 * Pow16(k - 1)
  }

  function DigitValue(c: char): (d: nat)
    requires IsHexDigit(c)
    ensures d < 16
  {
    if '0' <= c <= '9' then c as int - '0' as int
    else if 'a' <= c <= 'f' then c as int - 'a' as int + 10
    else c as int - 'A' as int + 10
  }

  function HexDigit(d: nat): (c: char)
    requires d < 16
    ensures IsLowerHexDigit(c) && IsHexDigit(c) && DigitValue(c) == d
  {
    if d < 10 then ('0' as int + d) as char else ('a' as int + d - 10) as char
  }

  /** The lower-case spelling of a hexadecimal digit. */
  function LowerDigit(c: char): (l: char)
    requires IsHexDigit(c)
    ensures IsLowerHexDigit(l) && DigitValue(l) == DigitValue(c)
    ensures IsLowerHexDigit(c) ==> l == c
  {
    if 'A' <= c <= 'F' then (c as int - 'A' as int + 'a' as int) as char else c
  }

  function LowerHex(s: string): (l: string)
    requires AllHex(s)
    ensures |l| == |s| && AllLowerHex(l)
  {
    seq(|s|, i requires 0 <= i < |s| => LowerDigit(s[i]))
  }

  /**
   * `parseInt(s, 16)` on a string made only of hexadecimal digits. The empty
   * string (where `parseInt` gives NaN) is only the recursion's base case.
   */
  function ParseHex(s: string): (n: nat)
    requires AllHex(s)
    ensures n < Pow16(|s|)
  {
    if s == [] then 0
    else
      var init := s[..|s| - 1];
      assert AllHex(init);
      var high := ParseHex(init);
      assert high * 16 + 15 <= (Pow16(|init|) - 1) * 16 + 15;
      high * 16 + DigitValue(s[|s| - 1])
  }

  /** `n.toString(16)` for a non-negative integer: the shortest spelling. */
  function ToHex(n: nat): (s: string)
    ensures |s| >= 1 && AllLowerHex(s)
    decreases n
  {
    if n < 16 then [HexDigit(n)] else ToHex(n / 16) + [HexDigit(n % 16)]
  }

  /** The last k hexadecimal digits of v, with leading zeros. */
  function FixedHex(v: nat, k: nat): (s: string)
    ensures |s| == k && AllLowerHex(s) && AllHex(s)
  {
    if k == 0 then [] else FixedHex(v / 16, k - 1) + [HexDigit(v % 16)]
  }

  /** `c < 255 ? (c < 1 ? 0 : c) : 255`, the clamp applied to every channel. */
  function Clamp(c: int): (r: int)
    ensures 0 <= r <= 255
    ensures c <= 0 ==> r == 0
    ensures c >= 255 ==> r == 255
    ensures 0 <= c <= 255 ==> r == c
  {
    if c < 255 then (if c < 1 then 0 else c) else 255
  }

  /** `num >> 16` */
  function Red(num: nat): nat { num / 0x10000 }

  /** `num >> 8 & 0x00FF` */
  function Green(num: nat): nat { (num / 0x100) % 0x100 }

  /** `num & 0x0000FF` */
  function Blue(num: nat): nat { num % 0x100 }

  /** Three channels laid out as one 24-bit value. */
  function Pack(r: nat, g: nat, b: nat): nat { r * 0x10000 + g * 0x100 + b }

  /**
   * The arithmetic of `shadeColor`: every channel of the 24-bit value moved
   * by amt and clamped, packed again.
   */
  function ShadeValue(num: nat, amt: int): (n: nat)
    ensures n < 0x1000000
    ensures Red(n) == Clamp(Red(num) + amt)
    ensures Green(n) == Clamp(Green(num) + amt)
    ensures Blue(n) == Clamp(Blue(num) + amt)
  {
    var red, green, blue := Clamp(Red(num) + amt), Clamp(Green(num) + amt), Clamp(Blue(num) + amt);
    PackBounds(red, green, blue);
    UnpackPack(red, green, blue);
    Pack(red, green, blue)
  }

  /** `shadeColor(color, percent)` with `amt = Math.round(2.55 * percent)` given directly. */
  function ShadeColor(color: string, amt: int): (r: string)
    requires IsColor(color)
    ensures |r| == 7 && r[0] == '#' && AllLowerHex(r[1..]) && AllHex(r[1..])
    ensures ParseHex(r[1..]) == ShadeValue(ParseHex(color[1..]), amt)
  {
    var n := ShadeValue(ParseHex(color[1..]), amt);
    PrintSix(n);
    var digits := ToHex(0x1000000 + n)[1..];
    assert ("#" + digits)[1..] == digits;
    "#" + digits
  }

  /**
   * `(0x1000000 + n).toString(16).slice(1)` for a 24-bit n: always six
   * digits, which read back as n.
   */
  lemma PrintSix(n: nat)
    requires n < 0x1000000
    ensures
      var t := ToHex(0x1000000 + n);
      && |t| == 7 && t[1..] == FixedHex(n, 6)
      && ParseHex(t[1..]) == n
  {
    Pow16Six();
    ToHexOfLeadingOne(n, 6);
    ParseFixedHex(n, 6);
  }

  lemma PackBounds(r: nat, g: nat, b: nat)
    requires r < 256 && g < 256 && b < 256
    ensures Pack(r, g, b) < Pow16(6) && Pow16(6) == 0x1000000
  {
    Pow16Six();
    assert r * 0x10000 <= 255 * 0x10000;
    assert g * 0x100 <= 255 * 0x100;
  }

  /** Splitting a packed value gives back its channels. */
  lemma UnpackPack(r: nat, g: nat, b: nat)
    requires r < 256 && g < 256 && b < 256
    ensures Red(Pack(r, g, b)) == r
    ensures Green(Pack(r, g, b)) == g
    ensures Blue(Pack(r, g, b)) == b
  {
    var n := Pack(r, g, b);
    var low := g * 0x100 + b;
    assert low < 0x10000 by { assert g * 0x100 <= 255 * 0x100; }
    DivModUnique(n, 0x10000, r, low);
    assert n == (r * 0x100 + g) * 0x100 + b;
    DivModUnique(n, 0x100, r * 0x100 + g, b);
    DivModUnique(r * 0x100 + g, 0x100, r, g);
  }

  /** Packing the channels of a 24-bit value gives back the value. */
  lemma PackUnpack(n: nat)
    requires n < 0x1000000
    ensures Red(n) < 256 && Green(n) < 256 && Blue(n) < 256
    ensures Pack(Red(n), Green(n), Blue(n)) == n
  {
    var q := n / 0x100;
    assert n == q * 0x100 + Blue(n);
    assert q == (q / 0x100) * 0x100 + Green(n);
    assert q / 0x100 == Red(n) by { DivModUnique(n, 0x10000, q / 0x100, Green(n) * 0x100 + Blue(n)); }
  }

  lemma DivModUnique(n: int, d: int, q: int, r: int)
    requires d == 16 || d == 0x100 || d == 0x10000
    requires 0 <= r < d && n == q * d + r
    ensures n / d == q && n % d == r
  {
    if d == 16 {
      assert n == q * 16 + r;
    } else if d == 0x100 {
      assert n == q * 0x100 + r;
    } else {
      assert n == q * 0x10000 + r;
    }
  }

  lemma Pow16Six()
    ensures Pow16(6) == 0x1000000
  {
  }

  /**
   * `toString(16)` of a number whose leading digit is 1 and which has k more
   * digits after it: a "1" followed by those k digits, zero-padded.
   */
  lemma {:induction false} ToHexOfLeadingOne(v: nat, k: nat)
    requires v < Pow16(k)
    ensures ToHex(Pow16(k) + v) == "1" + FixedHex(v, k)
  {
    if k == 0 {
      assert v == 0;
    } else {
      var n := Pow16(k) + v;
      DivModUnique(n, 16, Pow16(k - 1) + v / 16, v % 16);
      assert v / 16 < Pow16(k - 1);
      ToHexOfLeadingOne(v / 16, k - 1);
    }
  }

  /** Printing v with k digits and reading it back gives v. */
  lemma {:induction false} ParseFixedHex(v: nat, k: nat)
    requires v < Pow16(k)
    ensures ParseHex(FixedHex(v, k)) == v
  {
    if k > 0 {
      var s := FixedHex(v, k);
      assert s[..|s| - 1] == FixedHex(v / 16, k - 1);
      assert DigitValue(s[|s| - 1]) == v % 16;
      ParseFixedHex(v / 16, k - 1);
      assert v == (v / 16) * 16 + v % 16;
    }
  }

  /** Reading a digit string and printing it back with as many digits gives its lower-case spelling. */
  lemma {:induction false} FixedHexOfParse(s: string)
    requires AllHex(s)
    ensures FixedHex(ParseHex(s), |s|) == LowerHex(s)
  {
    if s != [] {
      var init := s[..|s| - 1];
      var n := ParseHex(s);
      DivModUnique(n, 16, ParseHex(init), DigitValue(s[|s| - 1]));
      FixedHexOfParse(init);
      assert LowerHex(s) == LowerHex(init) + [LowerDigit(s[|s| - 1])];
      var l := LowerDigit(s[|s| - 1]);
      assert HexDigit(DigitValue(s[|s| - 1])) == l by {
        assert DigitValue(l) == DigitValue(s[|s| - 1]);
        HexDigitOfValue(l);
      }
    }
  }

  lemma HexDigitOfValue(c: char)
    requires IsLowerHexDigit(c)
    ensures HexDigit(DigitValue(c)) == c
  {
  }

  /**
   * With offset 0 the colour comes back as the same number; the string is
   * the input's digits in lower case (the catalog colours are upper case).
   */
  lemma ShadeColorZero(color: string)
    requires IsColor(color)
    ensures ShadeColor(color, 0) == "#" + LowerHex(color[1..])
    ensures ParseHex(ShadeColor(color, 0)[1..]) == ParseHex(color[1..])
  {
    ShadeZeroOf(color, color[1..], ParseHex(color[1..]));
  }

  lemma ShadeZeroOf(color: string, digits: string, num: nat)
    requires IsColor(color) && digits == color[1..] && num == ParseHex(digits)
    ensures ShadeColor(color, 0) == "#" + LowerHex(digits)
    ensures ParseHex(ShadeColor(color, 0)[1..]) == num
  {
    Pow16Six();
    ShadeValueZero(num);
    ReadPrint(digits, num, 6);
    var l := LowerHex(digits);
    var t := ToHex(0x1000000 + num);
    assert t == "1" + l;
    assert t[1..] == l;
    assert ShadeColor(color, 0) == "#" + t[1..];
  }

  /**
   * Digits read and printed back with the leading-1 trick, as many as there
   * were, come out in lower case.
   */
  lemma ReadPrint(digits: string, n: nat, k: nat)
    requires AllHex(digits) && n == ParseHex(digits) && k == |digits|
    ensures ToHex(Pow16(k) + n) == "1" + LowerHex(digits)
  {
    ToHexOfLeadingOne(n, k);
    FixedHexOfParse(digits);
  }

  /** With offset 0 the value is unchanged. */
  lemma ShadeValueZero(num: nat)
    requires num < 0x1000000
    ensures ShadeValue(num, 0) == num
  {
    PackUnpack(num);
  }
}
