/**
 The message codec of the share link. `ToHex` writes every character of a
 string as the lowercase base-16 form of its first UTF-16 code unit, padded
 on the left with '0' to at least two digits; `FromHex` reads the text back
 two digits at a time. The two are inverse on byte strings (every character
 code below 256) and on even-length lowercase hex text.

 Some small lemmas here (`SplitByte`, `ConsTail`, `ConsParts`, `PairTail`)
 state one sequence identity or one division fact each. The round-trip proofs
 call them instead of asserting the fact inline, which keeps each proof
 obligation small enough for the solver to settle quickly.
 */
module Hex {

  predicate IsLowerHexDigit(c: char) {
    '0' <= c <= '9' || 'a' <= c <= 'f'
  }

  /** The digits `parseInt(_, 16)` accepts: either case. */
  predicate IsHexDigit(c: char) {
    IsLowerHexDigit(c) || 'A' <= c <= 'F'
  }

  /** Every character code is below 256. */
  predicate IsByteString(s: string) {
    forall i :: 0 <= i < |s| ==> s[i] as int < 256
  }

  predicate IsHexText(h: string) {
    |h| % 2 == 0 && forall i :: 0 <= i < |h| ==> IsHexDigit(h[i])
  }

  predicate IsLowerHexText(h: string) {
    |h| % 2 == 0 && forall i :: 0 <= i < |h| ==> IsLowerHexDigit(h[i])
  }

  /** The lowercase digit of a value below 16. */
  function HexDigit(d: nat): (c: char)
    requires d < 16
    ensures IsLowerHexDigit(c)
  {
    if d < 10 then ('0' as int + d) as char else ('a' as int + d - 10) as char
  }

  /** The value of one base-16 digit, of either case. */
  function DigitValue(c: char): (d: nat)
    requires IsHexDigit(c)
    ensures d < 16
    ensures IsLowerHexDigit(c) ==> HexDigit(d) == c
  {
    if '0' <= c <= '9' then c as int - '0' as int
    else if 'a' <= c <= 'f' then c as int - 'a' as int + 10
    else c as int - 'A' as int + 10
  }

  /** Reading a digit written for `d` gives `d`. */
  lemma DigitValueOfHexDigit(d: nat)
    requires d < 16
    ensures DigitValue(HexDigit(d)) == d
  {
  }

  /** The value of a string of base-16 digits, as `parseInt(_, 16)` reads it. */
  function ParseHex(s: string): (n: nat)
    requires forall i :: 0 <= i < |s| ==> IsHexDigit(s[i])
    ensures |s| <= 1 ==> n < 16
    ensures |s| <= 2 ==> n < 256
    decreases |s|
  {
    if s == [] then 0
    else 16 * ParseHex(s[..|s| - 1]) + DigitValue(s[|s| - 1])
  }

  /** The value of a pair of digits: high digit times 16 plus low digit. */
  function PairValue(a: char, b: char): (v: nat)
    requires IsHexDigit(a) && IsHexDigit(b)
    ensures v < 256
  {
    16 * DigitValue(a) + DigitValue(b)
  }

  /** `parseInt(p, 16)` on a two-digit substring is the pair's value. */
  lemma ParsePair(p: string)
    requires |p| == 2 && IsHexDigit(p[0]) && IsHexDigit(p[1])
    ensures ParseHex(p) == PairValue(p[0], p[1])
  {
  }

  /** `n.toString(16)`: the shortest lowercase base-16 form of `n`. */
  function ToBase16(n: nat): (r: string)
    ensures forall i :: 0 <= i < |r| ==> IsLowerHexDigit(r[i])
    ensures n < 16 <==> |r| == 1
    ensures n < 256 <==> |r| <= 2
    decreases n
  {
    if n < 16 then [HexDigit(n)]
    else ToBase16(n / 16) + [HexDigit(n % 16)]
  }

  /** `parseInt(n.toString(16), 16) == n`: the base-16 form reads back as the number. */
  lemma {:induction false} ToBase16Value(n: nat)
    ensures ParseHex(ToBase16(n)) == n
    decreases n
  {
    if n >= 16 {
      ToBase16Value(n / 16);
      var r := ToBase16(n);
      assert r[..|r| - 1] == ToBase16(n / 16);
      DigitValueOfHexDigit(n % 16);
    }
  }

  /** `s.padStart(2, '0')` for a nonempty digit string. */
  function PadStart2(s: string): (r: string)
    requires |s| >= 1
    ensures |r| == if |s| == 1 then 2 else |s|
    ensures r[|r| - |s|..] == s
    ensures forall i :: 0 <= i < |r| - |s| ==> r[i] == '0'
  {
    if |s| == 1 then "0" + s else s
  }

  /**
   `c.charCodeAt(0)` for the one-code-point string `c`: the character's code
   when it fits in one UTF-16 unit, its high surrogate otherwise.
   */
  function CodeUnit(c: char): (u: nat)
    ensures u < 0x1_0000
    ensures u < 256 <==> c as int < 256
    ensures c as int < 0x1_0000 ==> u == c as int
    ensures c as int >= 0x1_0000 ==> 0xD800 <= u < 0xDC00
  {
    if c as int < 0x1_0000 then c as int
    else 0xD800 + (c as int - 0x1_0000) / 0x400
  }

  /** The hex group of one character: at least two lowercase digits. */
  function Group(c: char): (g: string)
    ensures |g| >= 2
    ensures |g| == 2 <==> c as int < 256
    ensures forall i :: 0 <= i < |g| ==> IsLowerHexDigit(g[i])
  {
    PadStart2(ToBase16(CodeUnit(c)))
  }

  /** The group of a character reads back as its code unit. */
  lemma GroupValue(c: char)
    ensures ParseHex(Group(c)) == CodeUnit(c)
  {
    var digits := ToBase16(CodeUnit(c));
    ToBase16Value(CodeUnit(c));
    PadKeepsValue(digits);
  }

  /** A leading zero does not change the value of a one-digit string. */
  lemma PadKeepsValue(s: string)
    requires |s| >= 1
    requires forall i :: 0 <= i < |s| ==> IsHexDigit(s[i])
    ensures forall i :: 0 <= i < |PadStart2(s)| ==> IsHexDigit(PadStart2(s)[i])
    ensures ParseHex(PadStart2(s)) == ParseHex(s)
  {
    if |s| == 1 {
      var p := PadStart2(s);
      assert p[..1] == "0";
      assert ParseHex("0") == 16 * ParseHex("") + DigitValue('0');
      assert p[..|p| - 1] == "0" && p[|p| - 1] == s[0];
      assert s[..0] == "";
    }
  }

  /** The two-digit group of a byte is its high digit followed by its low digit. */
  lemma ByteGroup(c: char)
    requires c as int < 256
    ensures Group(c) == [HexDigit(c as int / 16), HexDigit(c as int % 16)]
  {
    ByteDigits(CodeUnit(c));
  }

  /** The padded base-16 form of a byte value is its two digits. */
  lemma ByteDigits(n: nat)
    requires n < 256
    ensures PadStart2(ToBase16(n)) == [HexDigit(n / 16), HexDigit(n % 16)]
  {
    if n < 16 {
      assert n / 16 == 0 && n % 16 == n;
      assert HexDigit(0) == '0';
    } else {
      var hi, lo := n / 16, n % 16;
      assert hi < 16;
      assert ToBase16(n) == ToBase16(hi) + [HexDigit(lo)];
      assert ToBase16(hi) == [HexDigit(hi)];
    }
  }

  /** A nonempty string is a byte string exactly when its head is a byte and its tail a byte string. */
  lemma ByteStringUnfold(s: string)
    requires s != []
    ensures IsByteString(s) <==> s[0] as int < 256 && IsByteString(s[1..])
  {
    assert forall i :: 0 < i < |s| ==> s[i] == s[1..][i - 1];
  }

  /** `toHex(s)`: the concatenated groups of the characters of `s`. */
  function ToHex(s: string): (h: string)
    ensures forall i :: 0 <= i < |h| ==> IsLowerHexDigit(h[i])
    ensures |h| >= 2 * |s|
    decreases |s|
  {
    if s == [] then "" else Group(s[0]) + ToHex(s[1..])
  }

  /** The encoding has exactly two digits per character if and only if every character code is below 256. */
  lemma {:induction false} ToHexLength(s: string)
    ensures IsByteString(s) <==> |ToHex(s)| == 2 * |s|
    decreases |s|
  {
    if s != [] {
      ByteStringUnfold(s);
      ToHexLength(s[1..]);
      assert ToHex(s) == Group(s[0]) + ToHex(s[1..]);
    }
  }

  /**
   `fromHex(h)`: one character per pair of digits, the pair read as base 16
   (`ParsePair` shows the pair's value is what `parseInt` reads).
   */
  function FromHex(h: string): (s: string)
    requires IsHexText(h)
    ensures 2 * |s| == |h|
    decreases |h|
  {
    if h == [] then "" else [PairValue(h[0], h[1]) as char] + FromHex(h[2..])
  }

  /** Dropping the first pair of hex text leaves hex text. */
  lemma HexTextTail(h: string)
    requires IsHexText(h) && h != []
    ensures IsHexText(h[2..])
  {
    assert forall i :: 0 <= i < |h[2..]| ==> h[2..][i] == h[i + 2];
  }

  /** Nonempty hex text decodes to its first pair's character, then the decoding of the rest. */
  lemma FromHexCons(h: string)
    requires IsHexText(h) && h != []
    ensures IsHexText(h[2..])
    ensures FromHex(h) == [PairValue(h[0], h[1]) as char] + FromHex(h[2..])
  {
    HexTextTail(h);
  }

  /** Every decoded character code is below 256. */
  lemma {:induction false} FromHexBytes(h: string)
    requires IsHexText(h)
    ensures IsByteString(FromHex(h))
    decreases |h|
  {
    if h != [] {
      FromHexCons(h);
      FromHexBytes(h[2..]);
      ByteStringUnfold(FromHex(h));
      assert FromHex(h)[1..] == FromHex(h[2..]);
    }
  }

  /** Character `k` of the decoded text is the value of digit pair `k`. */
  lemma {:induction false} FromHexAt(h: string, k: nat)
    requires IsHexText(h)
    requires k < |h| / 2
    ensures FromHex(h)[k] as int == PairValue(h[2 * k], h[2 * k + 1])
    decreases k
  {
    FromHexCons(h);
    if k > 0 {
      FromHexAt(h[2..], k - 1);
      assert FromHex(h)[k] == FromHex(h[2..])[k - 1];
      assert h[2..][2 * (k - 1)] == h[2 * k] && h[2..][2 * (k - 1) + 1] == h[2 * k + 1];
    }
  }

  /** Two digits in front of hex text give hex text, which decodes to the pair's character and then the rest. */
  lemma FromHexPrepend(a: char, b: char, t: string)
    requires IsHexDigit(a) && IsHexDigit(b) && IsHexText(t)
    ensures IsHexText([a, b] + t)
    ensures FromHex([a, b] + t) == [PairValue(a, b) as char] + FromHex(t)
  {
    var h := [a, b] + t;
    assert forall i :: 2 <= i < |h| ==> h[i] == t[i - 2];
    assert h[2..] == t;
  }

  /** The digits of a byte, read as a pair, give the byte back. */
  lemma PairOfByteDigits(c: char)
    requires c as int < 256
    ensures PairValue(HexDigit(c as int / 16), HexDigit(c as int % 16)) == c as int
  {
    DigitValueOfHexDigit(c as int / 16);
    DigitValueOfHexDigit(c as int % 16);
  }

  /** A pair of lowercase digits is the pair of digits of its value. */
  lemma ByteDigitsOfPair(a: char, b: char)
    requires IsLowerHexDigit(a) && IsLowerHexDigit(b)
    ensures HexDigit(PairValue(a, b) / 16) == a && HexDigit(PairValue(a, b) % 16) == b
  {
    SplitByte(PairValue(a, b), DigitValue(a), DigitValue(b));
  }

  /** Dividing `16 * hi + lo` by 16 separates the digits again. */
  lemma SplitByte(v: int, hi: nat, lo: nat)
    requires lo < 16 && v == 16 * hi + lo
    ensures v / 16 == hi && v % 16 == lo
  {
  }

  /** The encoding of a string that starts with a byte: the byte's two digits, then the encoding of the rest. */
  lemma ToHexByteCons(s: string)
    requires s != [] && s[0] as int < 256
    ensures ToHex(s) == [HexDigit(s[0] as int / 16), HexDigit(s[0] as int % 16)] + ToHex(s[1..])
  {
    ToHexUnfold(s);
    ByteGroup(s[0]);
  }

  /** The message codec round-trips on byte strings. */
  lemma {:induction false} FromHexToHex(s: string)
    requires IsByteString(s)
    ensures IsHexText(ToHex(s))
    ensures FromHex(ToHex(s)) == s
    decreases |s|
  {
    if s == [] {
      assert ToHex(s) == "";
    } else {
      ByteStringUnfold(s);
      FromHexToHex(s[1..]);
      FromHexToHexStep(s);
    }
  }

  /** The step of `FromHexToHex`: decoding the first group gives the first character back. */
  lemma FromHexToHexStep(s: string)
    requires s != [] && s[0] as int < 256
    requires IsHexText(ToHex(s[1..])) && FromHex(ToHex(s[1..])) == s[1..]
    ensures IsHexText(ToHex(s))
    ensures FromHex(ToHex(s)) == s
  {
    ByteRoundTrip(s[0], ToHex(s[1..]), s[1..]);
    ToHexByteCons(s);
    ConsTail(s);
  }

  /** Decoding a byte's two digits in front of hex text that decodes to `rest` gives the byte, then `rest`. */
  lemma ByteRoundTrip(c: char, t: string, rest: string)
    requires c as int < 256 && IsHexText(t) && FromHex(t) == rest
    ensures IsHexText([HexDigit(c as int / 16), HexDigit(c as int % 16)] + t)
    ensures FromHex([HexDigit(c as int / 16), HexDigit(c as int % 16)] + t) == [c] + rest
  {
    FromHexPrepend(HexDigit(c as int / 16), HexDigit(c as int % 16), t);
    PairOfByteDigits(c);
  }

  /** A nonempty string is its head followed by its tail. */
  lemma ConsTail(s: string)
    requires s != []
    ensures [s[0]] + s[1..] == s
  {
  }

  /** Lowercase hex text is the encoding of what it decodes to. */
  lemma {:induction false} ToHexFromHex(h: string)
    requires IsLowerHexText(h)
    ensures ToHex(FromHex(h)) == h
    decreases |h|
  {
    if h != [] {
      var tail := h[2..];
      assert IsLowerHexText(tail) by {
        forall i | 0 <= i < |tail| ensures IsLowerHexDigit(tail[i]) {
          assert tail[i] == h[i + 2];
        }
      }
      ToHexFromHex(tail);
      ToHexFromHexStep(h);
    }
  }

  /** The step of `ToHexFromHex`: the first decoded character encodes back to the first digit pair. */
  lemma ToHexFromHexStep(h: string)
    requires IsLowerHexText(h) && h != []
    requires IsLowerHexText(h[2..]) && ToHex(FromHex(h[2..])) == h[2..]
    ensures ToHex(FromHex(h)) == h
  {
    FromHexCons(h);
    PairEncodes(h[0], h[1], FromHex(h[2..]), h[2..]);
    PairTail(h);
  }

  /** A character decoded from two lowercase digits encodes back to them, in front of the rest's encoding. */
  lemma PairEncodes(a: char, b: char, rest: string, t: string)
    requires IsLowerHexDigit(a) && IsLowerHexDigit(b) && ToHex(rest) == t
    ensures ToHex([PairValue(a, b) as char] + rest) == [a, b] + t
  {
    var c := PairValue(a, b) as char;
    ByteDigitsOfPair(a, b);
    ConsParts(c, rest);
    ToHexByteCons([c] + rest);
  }

  /** The head and tail of a character put in front of a string. */
  lemma ConsParts(c: char, rest: string)
    ensures ([c] + rest)[0] == c && ([c] + rest)[1..] == rest
  {
  }

  /** A string of two or more characters is its first two, then the rest. */
  lemma PairTail(h: string)
    requires |h| >= 2
    ensures [h[0], h[1]] + h[2..] == h
  {
  }

  /**
   Characters with codes of 256 or more make the encoding ambiguous: U+1000
   followed by U+0000 encodes like U+0010 followed by two U+0000.
   */
  lemma WideCharactersCollide()
    ensures ToHex("\U{1000}\0") == ToHex("\U{10}\0\0")
  {
    WideGroup();
    ByteGroup('\0');
    ByteGroup('\U{10}');
    ToHexZeros();
    ToHexUnfold("\U{1000}\0");
    assert "\U{1000}\0"[1..] == "\0";
    ToHexUnfold("\U{10}\0\0");
    assert "\U{10}\0\0"[1..] == "\0\0";
  }

  /** U+1000 is written with four digits. */
  lemma WideGroup()
    ensures Group('\U{1000}') == "1000"
  {
    assert ToBase16(0x1) == "1";
    assert ToBase16(0x10) == ToBase16(0x1) + "0";
    assert ToBase16(0x100) == ToBase16(0x10) + "0";
    assert ToBase16(0x1000) == ToBase16(0x100) + "0";
  }

  /** One and two U+0000 characters encode as two and four zeros. */
  lemma ToHexZeros()
    ensures ToHex("\0") == "00"
    ensures ToHex("\0\0") == "0000"
  {
    ByteGroup('\0');
    assert ToHex("\0") == Group('\0') + ToHex("");
    assert "\0\0"[1..] == "\0";
    assert ToHex("\0\0") == Group('\0') + ToHex("\0");
  }

  /** One step of the encoding: the first character's group, then the rest. */
  lemma ToHexUnfold(s: string)
    requires s != []
    ensures ToHex(s) == Group(s[0]) + ToHex(s[1..])
  {
  }
}
