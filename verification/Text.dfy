/** The few pieces of `java.lang.String` and Spring's `StringUtils` that the
    identity services rely on, over Dafny strings (sequences of Unicode scalar
    values). */
module Text {
  import opened Wrappers

  /** `Character.isWhitespace`: the ASCII controls TAB..CR and FS..US, the
      space, and the Unicode space, line and paragraph separators other than
      the non-breaking ones (U+00A0, U+2007, U+202F). */
  predicate IsWhitespace(c: char) {
    var n := c as int;
    || (0x09 <= n <= 0x0D)
    || (0x1C <= n <= 0x20)
    || n == 0x1680
    || (0x2000 <= n <= 0x2006)
    || (0x2008 <= n <= 0x200A)
    || n == 0x2028 || n == 0x2029 || n == 0x205F || n == 0x3000
  }

  /** `String.isBlank`: empty, or whitespace only. */
  predicate Blank(s: string) {
    forall i :: 0 <= i < |s| ==> IsWhitespace(s[i])
  }

  /** Spring's `StringUtils.hasText` on a nullable string. */
  predicate HasText(s: Option<string>) {
    s.Some? && !Blank(s.value)
  }

  /** The guard `s == null || s.isBlank()`. */
  predicate NullOrBlank(s: Option<string>) {
    !HasText(s)
  }

  /** Spring's `StringUtils.isEmpty` on a nullable string. */
  predicate NullOrEmpty(s: Option<string>) {
    s.None? || s.value == ""
  }

  /** `Character.toLowerCase`, restricted to the ASCII letters. */
  function LowerChar(c: char): (r: char)
    ensures 'A' <= c <= 'Z' ==> r as int == c as int + 32
    ensures !('A' <= c <= 'Z') ==> r == c
  {
    if 'A' <= c <= 'Z' then (c as int + 32) as char else c
  }

  /** `String.toLowerCase`, restricted to the ASCII letters. */
  function Lower(s: string): (r: string)
    ensures |r| == |s|
    ensures forall i :: 0 <= i < |s| ==> r[i] == LowerChar(s[i])
  {
    seq(|s|, i requires 0 <= i < |s| => LowerChar(s[i]))
  }

  /** Lower-casing twice is lower-casing once. */
  lemma LowerIdempotent(s: string)
    ensures Lower(Lower(s)) == Lower(s)
  {
  }

  /** The pieces of `s` between occurrences of `sep`, empty ones included:
      k separators give k + 1 pieces. */
  function Pieces(s: string, sep: char): (r: seq<string>)
    ensures |r| >= 1
    decreases |s|
  {
    if s == [] then [""]
    else
      var rest := Pieces(s[1..], sep);
      if s[0] == sep then [""] + rest else [[s[0]] + rest[0]] + rest[1..]
  }

  /** The prefix of `ps` left after removing its trailing empty strings. */
  function DropTrailingEmpty(ps: seq<string>): (r: seq<string>)
    ensures r <= ps
    ensures r == [] || r[|r| - 1] != ""
    ensures forall i :: |r| <= i < |ps| ==> ps[i] == ""
    decreases |ps|
  {
    if ps == [] then []
    else if ps[|ps| - 1] == "" then DropTrailingEmpty(ps[..|ps| - 1])
    else ps
  }

  /** `s.split(sep)` for a one-character literal pattern: when the pattern
      does not occur the whole string is the only piece; otherwise the pieces
      with the trailing empty ones removed. */
  function JavaSplit(s: string, sep: char): seq<string> {
    if sep !in s then [s] else DropTrailingEmpty(Pieces(s, sep))
  }

  /** Splitting `x + y` at separators when `x` holds none: `x` is glued to the
      first piece of `y`. */
  lemma {:induction false} PiecesOfSeparatorFreePrefix(x: string, y: string, sep: char)
    requires sep !in x
    ensures Pieces(x + y, sep) == [x + Pieces(y, sep)[0]] + Pieces(y, sep)[1..]
    decreases |x|
  {
    if x != [] {
      assert (x + y)[1..] == x[1..] + y;
      PiecesOfSeparatorFreePrefix(x[1..], y, sep);
      assert [x[0]] + (x[1..] + Pieces(y, sep)[0]) == x + Pieces(y, sep)[0];
    } else {
      assert x + y == y;
      var ps := Pieces(y, sep);
      assert x + ps[0] == ps[0];
      assert ps == [ps[0]] + ps[1..];
    }
  }

  /** A string holding no separator is a single piece. */
  lemma PiecesOfSeparatorFree(x: string, sep: char)
    requires sep !in x
    ensures Pieces(x, sep) == [x]
  {
    PiecesOfSeparatorFreePrefix(x, "", sep);
    assert x + "" == x;
  }

  /** For an address with exactly one `@` and a non-empty domain,
      `split("@")[1]` is the domain. */
  lemma SplitSimpleAddress(local: string, domain: string)
    requires '@' !in local && '@' !in domain && domain != ""
    ensures var parts := JavaSplit(local + "@" + domain, '@');
            |parts| == 2 && parts[0] == local && parts[1] == domain
  {
    var s := local + "@" + domain;
    assert s == local + ("@" + domain);
    assert s[|local|] == '@';
    PiecesOfSeparatorFreePrefix(local, "@" + domain, '@');
    assert ("@" + domain)[1..] == domain;
    PiecesOfSeparatorFree(domain, '@');
    assert Pieces("@" + domain, '@') == ["", domain];
    assert local + "" == local;
    assert Pieces(s, '@') == [local, domain];
  }
}
