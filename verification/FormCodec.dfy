/** The `application/x-www-form-urlencoded` codec of Apache HttpClient's
    `URLEncodedUtils` (format and parse with the UTF-8 charset), and
    `java.net.URLEncoder.encode`, which escapes with the same safe set. */
module FormCodec {
  import opened Wrappers
  import Utf8

  type Byte = Utf8.Byte

  /** A name/value pair; the value is null when the pair has no `=`. */
  datatype Pair = Pair(name: string, value: Option<string>)

  /** The bytes emitted unescaped: ASCII letters and digits and `_ - . *`. */
  predicate SafeByte(b: Byte) {
    || ('a' as int <= b <= 'z' as int)
    || ('A' as int <= b <= 'Z' as int)
    || ('0' as int <= b <= '9' as int)
    || b == '_' as int || b == '-' as int || b == '.' as int || b == '*' as int
  }

  /** Upper-case hexadecimal digit. */
  function HexDigit(d: int): (c: char)
    requires 0 <= d < 16
    ensures HexValue(c) == d
  {
    if d < 10 then ('0' as int + d) as char else ('A' as int + d - 10) as char
  }

  /** `Character.digit(c, 16)` for ASCII digits: the value, or -1. */
  function HexValue(c: char): (v: int)
    ensures -1 <= v < 16
  {
    if '0' <= c <= '9' then c as int - '0' as int
    else if 'a' <= c <= 'f' then c as int - 'a' as int + 10
    else if 'A' <= c <= 'F' then c as int - 'A' as int + 10
    else -1
  }

  /** The characters an escaped byte is written with. */
  function EncodeByte(b: Byte): (r: string)
    ensures |r| == 1 || |r| == 3
  {
    if SafeByte(b) then [b as char]
    else if b == ' ' as int then "+"
    else ['%', HexDigit(b / 16), HexDigit(b % 16)]
  }

  function EncodeBytes(bs: seq<Byte>): (r: string)
    ensures |r| >= |bs|
    decreases |bs|
  {
    if bs == [] then "" else EncodeByte(bs[0]) + EncodeBytes(bs[1..])
  }

  /** `encodeFormFields` / `URLEncoder.encode(s, UTF_8)`: the UTF-8 bytes of
      `s`, safe bytes as themselves, the space as `+`, every other byte as
      `%XY` in upper-case hexadecimal. */
  function Encode(s: string): (r: string)
    ensures |r| >= |s|
  {
    EncodeBytes(Utf8.Encode(s))
  }

  /** `(byte) c`: the low eight bits of a character. */
  function LowByte(c: char): Byte {
    (c as int) % 256
  }

  /** The byte stage of `urlDecode` with `plusAsBlank`: `%XY` with two hex
      digits gives that byte, a `%` followed by anything else leaves all three
      characters as they are, `+` gives the space, and every other character
      its low eight bits. */
  function DecodeToBytes(s: string): seq<Byte>
    decreases |s|
  {
    if s == [] then []
    else if s[0] == '%' && |s| >= 3 then
      var u := HexValue(s[1]);
      var l := HexValue(s[2]);
      if u != -1 && l != -1 then [u * 16 + l] + DecodeToBytes(s[3..])
      else ['%' as int, LowByte(s[1]), LowByte(s[2])] + DecodeToBytes(s[3..])
    else if s[0] == '+' then [' ' as int] + DecodeToBytes(s[1..])
    else [LowByte(s[0])] + DecodeToBytes(s[1..])
  }

  /** `decodeFormFields`: the byte stage, then UTF-8 with replacement. */
  function Decode(s: string): string {
    Utf8.Decode(DecodeToBytes(s))
  }

  /** The characters that can appear in encoder output. */
  predicate EncodedChar(c: char) {
    || ('a' <= c <= 'z') || ('A' <= c <= 'Z') || ('0' <= c <= '9')
    || c == '_' || c == '-' || c == '.' || c == '*' || c == '+' || c == '%'
  }

  predicate AllEncoded(s: string) {
    forall i :: 0 <= i < |s| ==> EncodedChar(s[i])
  }

  lemma {:induction false} EncodeBytesAlphabet(bs: seq<Byte>)
    ensures AllEncoded(EncodeBytes(bs))
    decreases |bs|
  {
    if bs != [] {
      EncodeBytesAlphabet(bs[1..]);
      var h := EncodeByte(bs[0]);
      var t := EncodeBytes(bs[1..]);
      assert forall i :: 0 <= i < |h| ==> EncodedChar(h[i]);
      assert forall i :: 0 <= i < |h + t| ==> EncodedChar((h + t)[i]) by {
        forall i | 0 <= i < |h + t| ensures EncodedChar((h + t)[i]) {
          if i < |h| { assert (h + t)[i] == h[i]; } else { assert (h + t)[i] == t[i - |h|]; }
        }
      }
    }
  }

  /** Encoder output never holds a pair or field separator, nor whitespace. */
  lemma {:induction false} EncodeAlphabet(s: string)
    ensures AllEncoded(Encode(s))
  {
    EncodeBytesAlphabet(Utf8.Encode(s));
  }

  lemma {:induction false} DecodeEncodeBytes(bs: seq<Byte>)
    ensures DecodeToBytes(EncodeBytes(bs)) == bs
    decreases |bs|
  {
    if bs != [] {
      var t := EncodeBytes(bs[1..]);
      assert EncodeBytes(bs) == EncodeByte(bs[0]) + t;
      DecodeByteThen(bs[0], t);
      DecodeEncodeBytes(bs[1..]);
      assert bs == [bs[0]] + bs[1..];
    }
  }

  /** Decoding an escaped byte in front of anything gives the byte first. */
  lemma DecodeByteThen(b: Byte, t: string)
    ensures DecodeToBytes(EncodeByte(b) + t) == [b] + DecodeToBytes(t)
  {
    var s := EncodeByte(b) + t;
    if SafeByte(b) {
      assert s[0] == b as char && s[1..] == t;
    } else if b == ' ' as int {
      assert s[0] == '+' && s[1..] == t;
    } else {
      EscapedByteThen(b, t);
    }
  }

  lemma EscapedByteThen(b: Byte, t: string)
    requires !SafeByte(b) && b != ' ' as int
    ensures DecodeToBytes(EncodeByte(b) + t) == [b] + DecodeToBytes(t)
  {
    var s := EncodeByte(b) + t;
    var hi, lo := b / 16, b % 16;
    assert EncodeByte(b) == ['%', HexDigit(hi), HexDigit(lo)];
    assert s[0] == '%' && s[1] == HexDigit(hi) && s[2] == HexDigit(lo) && s[3..] == t;
    assert HexValue(s[1]) == hi && HexValue(s[2]) == lo;
    assert hi * 16 + lo == b;
  }

  /** Form decoding undoes form encoding, for every string. */
  lemma {:induction false} DecodeEncode(s: string)
    ensures Decode(Encode(s)) == s
  {
    DecodeEncodeBytes(Utf8.Encode(s));
    Utf8.DecodeEncode(s);
  }

  /** A non-empty string encodes to a non-empty string. */
  lemma {:induction false} EncodeNonEmpty(s: string)
    ensures s != "" ==> Encode(s) != ""
  {
  }

  /** The characters the encoder leaves as they are. */
  predicate SafeChar(c: char) {
    || ('a' <= c <= 'z') || ('A' <= c <= 'Z') || ('0' <= c <= '9')
    || c == '_' || c == '-' || c == '.' || c == '*'
  }

  /** Text made only of safe characters encodes to itself. */
  lemma {:induction false} EncodeSafeText(s: string)
    requires forall i :: 0 <= i < |s| ==> SafeChar(s[i])
    ensures Encode(s) == s
    decreases |s|
  {
    if s != [] {
      var bs := Utf8.Encode(s);
      assert bs == [s[0] as int] + Utf8.Encode(s[1..]);
      assert bs[1..] == Utf8.Encode(s[1..]);
      EncodeSafeText(s[1..]);
      assert Encode(s) == [s[0]] + s[1..];
    }
  }

  // ---------------------------------------------------------------- format

  /** One formatted pair: the encoded name, then `=` and the encoded value
      unless the value is null. */
  function Piece(p: Pair): string {
    Encode(p.name) + (if p.value.Some? then "=" + Encode(p.value.value) else "")
  }

  /** The separator and piece of every pair after the first emitted one. */
  function Tail(ps: seq<Pair>): string
    decreases |ps|
  {
    if ps == [] then "" else "&" + Piece(ps[0]) + Tail(ps[1..])
  }

  /** `URLEncodedUtils.format(pairs, UTF_8)`: pieces joined with `&`; a
      separator is written before a piece only once the output is non-empty. */
  function Format(ps: seq<Pair>): string
    decreases |ps|
  {
    if ps == [] then ""
    else if Piece(ps[0]) == "" then Format(ps[1..])
    else Piece(ps[0]) + Tail(ps[1..])
  }

  // ----------------------------------------------------------------- parse

  /** The whitespace `TokenParser` skips. */
  predicate IsLinearWhitespace(c: char) {
    c == ' ' || c == '\t' || c == '\r' || c == '\n'
  }

  /** `TokenParser.parseToken` on a token already cut at its delimiter:
      leading and trailing whitespace dropped, each inner run of whitespace
      written as one space. `pending` says whitespace was skipped since the
      last content, `started` that some content has been written. */
  function Squeeze(s: string, pending: bool, started: bool): string
    decreases |s|
  {
    if s == [] then ""
    else if IsLinearWhitespace(s[0]) then Squeeze(s[1..], true, started)
    else (if pending && started then " " else "") + [s[0]] + Squeeze(s[1..], false, true)
  }

  predicate IsPairSeparator(c: char) {
    c == '&' || c == ';'
  }

  /** The index of the first pair separator, or `|s|`. */
  function SeparatorIndex(s: string): (i: nat)
    ensures i <= |s|
    ensures forall k :: 0 <= k < i ==> !IsPairSeparator(s[k])
    ensures i < |s| ==> IsPairSeparator(s[i])
    decreases |s|
  {
    if s == [] then 0
    else if IsPairSeparator(s[0]) then 0
    else 1 + SeparatorIndex(s[1..])
  }

  /** The index of the first `=`, or `|s|`. */
  function EqualsIndex(s: string): (i: nat)
    ensures i <= |s|
    ensures forall k :: 0 <= k < i ==> s[k] != '='
    ensures i < |s| ==> s[i] == '='
    decreases |s|
  {
    if s == [] then 0
    else if s[0] == '=' then 0
    else 1 + EqualsIndex(s[1..])
  }

  /** One separator-free segment: the name up to the first `=` and the value
      after it (null without `=`); a segment whose name token is empty yields
      no pair. */
  function ParseSegment(seg: string): seq<Pair> {
    var j := EqualsIndex(seg);
    var name := Squeeze(seg[..j], false, false);
    var value := if j < |seg| then Some(Decode(Squeeze(seg[j + 1..], false, false))) else None;
    if name == "" then [] else [Pair(Decode(name), value)]
  }

  /** `URLEncodedUtils.parse(s, UTF_8)`: segments separated by `&` or `;`. */
  function Parse(s: string): seq<Pair>
    decreases |s|
  {
    if s == [] then []
    else
      var i := SeparatorIndex(s);
      ParseSegment(s[..i]) + (if i < |s| then Parse(s[i + 1..]) else [])
  }

  /** The value of the last pair with the given name, null when there is
      none: a `HashMap` filled in order, then read with `get`. */
  function Lookup(ps: seq<Pair>, name: string): (v: Option<string>)
    ensures v.Some? ==> exists k :: 0 <= k < |ps| && ps[k].name == name && ps[k].value == v
    ensures forall k :: 0 <= k < |ps| && ps[k].name == name && (forall j :: k < j < |ps| ==> ps[j].name != name)
                        ==> v == ps[k].value
    ensures (forall k :: 0 <= k < |ps| ==> ps[k].name != name) ==> v.None?
    decreases |ps|
  {
    if ps == [] then None
    else if ps[|ps| - 1].name == name then ps[|ps| - 1].value
    else Lookup(ps[..|ps| - 1], name)
  }

  // ------------------------------------------------------------ round trip

  lemma {:induction false} SqueezeEncoded(s: string, started: bool)
    requires AllEncoded(s)
    ensures Squeeze(s, false, started) == s
    decreases |s|
  {
    if s != [] {
      assert EncodedChar(s[0]) && !IsLinearWhitespace(s[0]);
      assert AllEncoded(s[1..]) by {
        forall k | 0 <= k < |s[1..]| ensures EncodedChar(s[1..][k]) {
          assert s[1..][k] == s[k + 1];
        }
      }
      assert Squeeze(s, false, started) == [s[0]] + Squeeze(s[1..], false, true);
      SqueezeEncoded(s[1..], true);
      assert [s[0]] + s[1..] == s;
    }
  }

  lemma {:induction false} SeparatorIndexOfConcat(x: string, y: string)
    requires forall k :: 0 <= k < |x| ==> !IsPairSeparator(x[k])
    requires y == [] || IsPairSeparator(y[0])
    ensures SeparatorIndex(x + y) == |x|
  {
    var s := x + y;
    assert forall k :: 0 <= k < |x| ==> s[k] == x[k];
    if y != [] {
      assert s[|x|] == y[0];
    }
  }

  lemma {:induction false} EqualsIndexOfConcat(x: string, y: string)
    requires AllEncoded(x)
    requires y == [] || y[0] == '='
    ensures EqualsIndex(x + y) == |x|
  {
    var s := x + y;
    assert forall k :: 0 <= k < |x| ==> s[k] == x[k] && EncodedChar(x[k]);
    if y != [] {
      assert s[|x|] == y[0];
    }
  }

  /** A piece parses back to its pair. */
  lemma {:induction false} ParsePiece(p: Pair)
    requires p.name != ""
    ensures ParseSegment(Piece(p)) == [p]
  {
    var n := Encode(p.name);
    var tail := if p.value.Some? then "=" + Encode(p.value.value) else "";
    assert Piece(p) == n + tail;
    PieceName(p.name, tail);
    if p.value.Some? {
      PieceValue(n, p.value.value);
    }
  }

  /** The name of a piece ends at the first `=` and decodes to the name. */
  lemma {:induction false} PieceName(name: string, tail: string)
    requires name != ""
    requires tail == [] || tail[0] == '='
    ensures var n := Encode(name);
            && EqualsIndex(n + tail) == |n|
            && Squeeze((n + tail)[..|n|], false, false) == n
            && n != "" && Decode(n) == name
  {
    var n := Encode(name);
    EncodeAlphabet(name);
    EncodeNonEmpty(name);
    DecodeEncode(name);
    EqualsIndexOfConcat(n, tail);
    assert (n + tail)[..|n|] == n;
    SqueezeEncoded(n, false);
  }

  /** The value of a piece follows its `=` and decodes to the value. */
  lemma {:induction false} PieceValue(n: string, value: string)
    ensures var seg := n + ("=" + Encode(value));
            Decode(Squeeze(seg[|n| + 1..], false, false)) == value
  {
    var v := Encode(value);
    EncodeAlphabet(value);
    DecodeEncode(value);
    assert (n + ("=" + v))[|n| + 1..] == v;
    SqueezeEncoded(v, false);
  }

  lemma {:induction false} PieceHasNoSeparator(p: Pair)
    ensures forall k :: 0 <= k < |Piece(p)| ==> !IsPairSeparator(Piece(p)[k])
  {
    var n := Encode(p.name);
    EncodeAlphabet(p.name);
    if p.value.Some? {
      var v := Encode(p.value.value);
      EncodeAlphabet(p.value.value);
      assert Piece(p) == n + "=" + v;
      forall k | 0 <= k < |Piece(p)| ensures !IsPairSeparator(Piece(p)[k]) {
        if k < |n| { assert Piece(p)[k] == n[k]; }
        else if k > |n| { assert Piece(p)[k] == v[k - |n| - 1]; }
      }
    } else {
      assert Piece(p) == n;
    }
  }

  /** Parsing a piece followed by the rest of a formatted list. */
  lemma {:induction false} ParsePieceThen(p: Pair, t: string)
    requires p.name != ""
    requires t == [] || t[0] == '&'
    ensures Parse(Piece(p) + t) == [p] + Parse(t)
  {
    var pc := Piece(p);
    var s := pc + t;
    EncodeNonEmpty(p.name);
    assert s != [];
    PieceHasNoSeparator(p);
    SeparatorIndexOfConcat(pc, t);
    assert s[..|pc|] == pc;
    ParsePiece(p);
    if t != [] {
      assert s[|pc| + 1..] == t[1..];
      ParseSeparatorFirst(t);
    }
  }

  /** A leading separator contributes nothing. */
  lemma {:induction false} ParseSeparatorFirst(t: string)
    requires t != [] && IsPairSeparator(t[0])
    ensures Parse(t) == Parse(t[1..])
  {
    assert SeparatorIndex(t) == 0;
    assert t[..0] == [];
  }

  predicate NamedPairs(ps: seq<Pair>) {
    forall k :: 0 <= k < |ps| ==> ps[k].name != ""
  }

  lemma {:induction false} ParseTail(ps: seq<Pair>)
    requires NamedPairs(ps)
    ensures Parse(Tail(ps)) == ps
    decreases |ps|
  {
    if ps != [] {
      var rest := ps[1..];
      assert NamedPairs(rest) by {
        forall k | 0 <= k < |rest| ensures rest[k].name != "" {
          assert rest[k] == ps[k + 1];
        }
      }
      ParseTail(rest);
      ParseTailStep(ps[0], rest);
      assert ps == [ps[0]] + rest;
    }
  }

  lemma {:induction false} ParseTailStep(p: Pair, rest: seq<Pair>)
    requires p.name != ""
    ensures Parse(Tail([p] + rest)) == [p] + Parse(Tail(rest))
  {
    var t := Tail(rest);
    var s := Tail([p] + rest);
    assert s == "&" + Piece(p) + t by {
      assert ([p] + rest)[0] == p && ([p] + rest)[1..] == rest;
    }
    assert s != [] && s[0] == '&' && s[1..] == Piece(p) + t;
    calc {
      Parse(s);
      == { ParseSeparatorFirst(s); }
      Parse(s[1..]);
      == { TailShape(rest); ParsePieceThen(p, t); }
      [p] + Parse(t);
    }
  }

  lemma {:induction false} TailShape(ps: seq<Pair>)
    ensures Tail(ps) == [] || Tail(ps)[0] == '&'
  {
  }

  /** Parsing undoes formatting for pairs with non-empty names. */
  lemma {:induction false} ParseFormat(ps: seq<Pair>)
    requires NamedPairs(ps)
    ensures Parse(Format(ps)) == ps
  {
    if ps != [] {
      var rest := ps[1..];
      var t := Tail(rest);
      EncodeNonEmpty(ps[0].name);
      assert Format(ps) == Piece(ps[0]) + t;
      assert NamedPairs(rest) by {
        forall k | 0 <= k < |rest| ensures rest[k].name != "" {
          assert rest[k] == ps[k + 1];
        }
      }
      ParseTail(rest);
      TailShape(rest);
      ParsePieceThen(ps[0], t);
      assert ps == [ps[0]] + rest;
    }
  }
}
