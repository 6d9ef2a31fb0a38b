/** UTF-8, the charset the form encoder and decoder use to turn characters into
    bytes and back (section 3.9 of the Unicode Standard, table 3-7). */
module Utf8 {

  type Byte = b: int | 0 <= b < 256

  /** The character the decoder substitutes for an ill-formed byte (U+FFFD). */
  const Replacement: char := 0xFFFD as char

  predicate IsContinuation(b: Byte) {
    0x80 <= b <= 0xBF
  }

  /** The UTF-8 form of one scalar value: one to four bytes. */
  function EncodeChar(c: char): (r: seq<Byte>)
    ensures 1 <= |r| <= 4
    ensures (r[0] < 0x80) <==> (c as int < 0x80)
    ensures r[0] < 0x80 ==> r[0] == c as int
  {
    var n := c as int;
    if n < 0x80 then [n]
    else if n < 0x800 then [0xC0 + n / 64, 0x80 + n % 64]
    else if n < 0x10000 then [0xE0 + n / 4096, 0x80 + (n / 64) % 64, 0x80 + n % 64]
    else [0xF0 + n / 262144, 0x80 + (n / 4096) % 64, 0x80 + (n / 64) % 64, 0x80 + n % 64]
  }

  function Encode(s: string): (r: seq<Byte>)
    ensures |r| >= |s|
    decreases |s|
  {
    if s == [] then [] else EncodeChar(s[0]) + Encode(s[1..])
  }

  /** The length of the well-formed sequence that starts `bs` (table 3-7), or
      0 when its first byte does not start one. */
  function WellFormedLength(bs: seq<Byte>): (n: nat)
    requires |bs| > 0
    ensures n <= 4 && n <= |bs|
  {
    var b0 := bs[0];
    if b0 <= 0x7F then 1
    else if 0xC2 <= b0 <= 0xDF then
      if |bs| >= 2 && IsContinuation(bs[1]) then 2 else 0
    else if 0xE0 <= b0 <= 0xEF then
      if |bs| >= 3 && IsContinuation(bs[2])
         && (if b0 == 0xE0 then 0xA0 <= bs[1] <= 0xBF
             else if b0 == 0xED then 0x80 <= bs[1] <= 0x9F
             else IsContinuation(bs[1]))
      then 3 else 0
    else if 0xF0 <= b0 <= 0xF4 then
      if |bs| >= 4 && IsContinuation(bs[2]) && IsContinuation(bs[3])
         && (if b0 == 0xF0 then 0x90 <= bs[1] <= 0xBF
             else if b0 == 0xF4 then 0x80 <= bs[1] <= 0x8F
             else IsContinuation(bs[1]))
      then 4 else 0
    else 0
  }

  /** The scalar value a well-formed sequence stands for. */
  function DecodeSequence(bs: seq<Byte>): char
    requires |bs| > 0 && WellFormedLength(bs) == |bs|
  {
    var b0: int := bs[0];
    if |bs| == 1 then b0 as char
    else
      var b1: int := bs[1];
      if |bs| == 2 then ((b0 - 0xC0) * 64 + (b1 - 0x80)) as char
      else
        var b2: int := bs[2];
        if |bs| == 3 then ((b0 - 0xE0) * 4096 + (b1 - 0x80) * 64 + (b2 - 0x80)) as char
        else
          var b3: int := bs[3];
          ((b0 - 0xF0) * 262144 + (b1 - 0x80) * 4096 + (b2 - 0x80) * 64 + (b3 - 0x80)) as char
  }

  /** Decoding with replacement: each well-formed sequence gives its scalar
      value and each byte that starts none gives U+FFFD. */
  function Decode(bs: seq<Byte>): string
    decreases |bs|
  {
    if bs == [] then []
    else
      var n := WellFormedLength(bs);
      if n == 0 then [Replacement] + Decode(bs[1..])
      else [DecodeSequence(bs[..n])] + Decode(bs[n..])
  }

  /** The bytes of one character form a single well-formed sequence that
      decodes back to that character. */
  lemma EncodeCharWellFormed(c: char, rest: seq<Byte>)
    ensures var e := EncodeChar(c);
            WellFormedLength(e + rest) == |e| && (e + rest)[..|e|] == e
            && DecodeSequence(e) == c
  {
    var e := EncodeChar(c);
    var n := c as int;
    assert (e + rest)[..|e|] == e;
    if n < 0x80 {
    } else if n < 0x800 {
      TwoBytes(c, rest);
    } else if n < 0x10000 {
      ThreeBytes(c, rest);
    } else {
      FourBytes(c, rest);
    }
  }

  lemma TwoBytes(c: char, rest: seq<Byte>)
    requires 0x80 <= c as int < 0x800
    ensures WellFormedLength(EncodeChar(c) + rest) == 2 && DecodeSequence(EncodeChar(c)) == c
  {
    var n := c as int;
    var e := EncodeChar(c);
    assert e == [0xC0 + n / 64, 0x80 + n % 64];
    assert n == (n / 64) * 64 + n % 64;
  }

  lemma ThreeBytes(c: char, rest: seq<Byte>)
    requires 0x800 <= c as int < 0x10000
    ensures WellFormedLength(EncodeChar(c) + rest) == 3 && DecodeSequence(EncodeChar(c)) == c
  {
    var n := c as int;
    var e := EncodeChar(c);
    var hi, mid, lo := n / 4096, (n / 64) % 64, n % 64;
    assert e == [0xE0 + hi, 0x80 + mid, 0x80 + lo];
    assert n / 64 == hi * 64 + mid;
    assert n == (n / 64) * 64 + lo;
    assert n < 0xD800 || n >= 0xE000;
    assert hi == 0 ==> mid >= 32;
    assert hi == 13 ==> mid < 32;
  }

  lemma FourBytes(c: char, rest: seq<Byte>)
    requires 0x10000 <= c as int
    ensures WellFormedLength(EncodeChar(c) + rest) == 4 && DecodeSequence(EncodeChar(c)) == c
  {
    var n := c as int;
    var top, hi, mid, lo := n / 262144, (n / 4096) % 64, (n / 64) % 64, n % 64;
    FourDigits(n);
    var e := EncodeChar(c);
    assert e == [0xF0 + top, 0x80 + hi, 0x80 + mid, 0x80 + lo];
    assert (e + rest)[1] == 0x80 + hi;
  }

  /** The four digits of a supplementary scalar value: the leading one is at
      most 4, and the second keeps the value within U+10000..U+10FFFF. */
  lemma FourDigits(n: int)
    requires 0x10000 <= n < 0x110000
    ensures var top, hi, mid, lo := n / 262144, (n / 4096) % 64, (n / 64) % 64, n % 64;
            && 0 <= top <= 4 && 0 <= hi < 64 && 0 <= mid < 64 && 0 <= lo < 64
            && top * 262144 + hi * 4096 + mid * 64 + lo == n
            && (top == 0 ==> hi >= 16)
            && (top == 4 ==> hi < 16)
  {
    var top, hi, mid, lo := n / 262144, (n / 4096) % 64, (n / 64) % 64, n % 64;
    assert n / 4096 == top * 64 + hi;
    assert n / 64 == (n / 4096) * 64 + mid;
    assert n == (n / 64) * 64 + lo;
  }

  /** Decoding undoes encoding. */
  lemma {:induction false} DecodeEncode(s: string)
    ensures Decode(Encode(s)) == s
    decreases |s|
  {
    if s != [] {
      var e := EncodeChar(s[0]);
      var bs := Encode(s);
      EncodeCharWellFormed(s[0], Encode(s[1..]));
      assert bs[|e|..] == Encode(s[1..]);
      DecodeEncode(s[1..]);
      assert Decode(bs) == [s[0]] + s[1..];
    }
  }
}
