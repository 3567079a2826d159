/** The few Java language and library semantics the authentication core
    relies on: byte and int widths, `String.indexOf(char)`,
    `String.split(",")`, `String.toLowerCase()` and `String.isBlank()`. */
module JavaLang {

  /** A byte as the codecs use it, taken unsigned. */
  type byte = b: int | 0 <= b < 256

  /** Java's 32-bit `int`. */
  newtype int32 = x: int | -0x8000_0000 <= x < 0x8000_0000

  /** An instant on the clock, in whole seconds since the epoch. */
  type Instant = int

  /** `s.indexOf(c)`: the index of the first occurrence of c in s, or -1. */
  function IndexOf(s: string, c: char): (i: int)
    ensures -1 <= i < |s|
    ensures i == -1 <==> c !in s
    ensures 0 <= i ==> s[i] == c && c !in s[..i]
  {
    if |s| == 0 then -1
    else if s[0] == c then 0
    else
      var j := IndexOf(s[1..], c);
      assert s[1..][..if j < 0 then 0 else j] == s[1..1 + if j < 0 then 0 else j];
      if j == -1 then -1 else j + 1
  }

  /** The parts joined back with the separator between them. */
  function Join(parts: seq<string>, sep: char): string
  {
    if |parts| == 0 then ""
    else if |parts| == 1 then parts[0]
    else parts[0] + [sep] + Join(parts[1..], sep)
  }

  /** Every piece of s between two separators, empty ones included:
      "a,,b," gives ["a", "", "b", ""]. */
  function Pieces(s: string, sep: char): (r: seq<string>)
    ensures |r| >= 1
    ensures forall i :: 0 <= i < |r| ==> sep !in r[i]
    decreases |s|
  {
    var i := IndexOf(s, sep);
    if i == -1 then [s] else [s[..i]] + Pieces(s[i + 1..], sep)
  }

  /** Joining a first part before at least one more. */
  lemma JoinCons(a: string, q: seq<string>, sep: char)
    requires |q| >= 1
    ensures Join([a] + q, sep) == a + [sep] + Join(q, sep)
  {
    assert ([a] + q)[1..] == q;
  }

  /** A string is what comes before position i, the character there, and
      what comes after. */
  lemma Around(s: string, i: nat)
    requires i < |s|
    ensures s == s[..i] + [s[i]] + s[i + 1..]
  {
    assert s[..i] + [s[i]] == s[..i + 1];
  }

  /** Joining the pieces with the separator gives back the string. */
  lemma {:induction false} PiecesJoin(s: string, sep: char)
    ensures Join(Pieces(s, sep), sep) == s
    decreases |s|
  {
    var i := IndexOf(s, sep);
    if i != -1 {
      var t := s[i + 1..];
      assert Pieces(s, sep) == [s[..i]] + Pieces(t, sep);
      JoinCons(s[..i], Pieces(t, sep), sep);
      PiecesJoin(t, sep);
      Around(s, i);
    }
  }

  /** The pieces without the empty strings at the end. */
  function DropTrailingEmpty(r: seq<string>): (t: seq<string>)
    ensures t <= r
    ensures t == [] || t[|t| - 1] != ""
    ensures forall i :: |t| <= i < |r| ==> r[i] == ""
  {
    if |r| == 0 then []
    else if r[|r| - 1] == "" then DropTrailingEmpty(r[..|r| - 1])
    else r
  }

  /** `s.split(String.valueOf(sep))` for a separator that is not a regex
      metacharacter: when sep does not occur the result is [s] (so "" gives
      [""]); otherwise the pieces with trailing empty strings removed. */
  function Split(s: string, sep: char): (r: seq<string>)
  {
    if sep !in s then [s] else DropTrailingEmpty(Pieces(s, sep))
  }

  /** No piece of a split contains the separator, and a string that does not
      end with the separator and is not empty splits into pieces that join
      back to it. */
  lemma SplitJoin(s: string, sep: char)
    ensures forall i :: 0 <= i < |Split(s, sep)| ==> sep !in Split(s, sep)[i]
    ensures sep !in s ==> Split(s, sep) == [s]
    ensures s != "" && s[|s| - 1] != sep ==> Join(Split(s, sep), sep) == s
  {
    if sep in s && s != "" && s[|s| - 1] != sep {
      LastPieceNotEmpty(s, sep);
      PiecesJoin(s, sep);
    }
  }

  /** The last piece is the text after the last separator. */
  lemma {:induction false} LastPieceNotEmpty(s: string, sep: char)
    requires s != "" && s[|s| - 1] != sep
    ensures var p := Pieces(s, sep); p[|p| - 1] != ""
    decreases |s|
  {
    var i := IndexOf(s, sep);
    if i != -1 {
      var t := s[i + 1..];
      assert t != "" && t[|t| - 1] == s[|s| - 1] by { assert s[i] == sep; }
      LastPieceNotEmpty(t, sep);
      assert Pieces(s, sep) == [s[..i]] + Pieces(t, sep);
      LastOfCons(s[..i], Pieces(t, sep));
    }
  }

  /** Putting an element in front keeps the last one. */
  lemma LastOfCons<T>(a: T, q: seq<T>)
    requires |q| >= 1
    ensures ([a] + q)[|q|] == q[|q| - 1]
  {
  }

  /** `Character.toLowerCase` restricted to ASCII. */
  function ToLowerChar(c: char): char
  {
    if 'A' <= c <= 'Z' then (c as int + 32) as char else c
  }

  /** No upper-case ASCII letter in s. */
  predicate IsLowerCase(s: string)
  {
    forall i :: 0 <= i < |s| ==> !('A' <= s[i] <= 'Z')
  }

  /** `s.toLowerCase()`, with the ASCII case mapping. */
  function ToLowerCase(s: string): (r: string)
    ensures |r| == |s|
    ensures IsLowerCase(r)
    ensures IsLowerCase(s) ==> r == s
  {
    seq(|s|, i requires 0 <= i < |s| => ToLowerChar(s[i]))
  }

  /** Lower-casing is idempotent. */
  lemma ToLowerCaseIdempotent(s: string)
    ensures ToLowerCase(ToLowerCase(s)) == ToLowerCase(s)
  {
  }

  /** `Character.isWhitespace`: the Unicode space, line and paragraph
      separators other than the no-break spaces U+00A0, U+2007 and U+202F,
      plus U+0009..U+000D and U+001C..U+001F. */
  predicate IsWhitespace(c: char)
  {
    var v := c as int;
    || 0x09 <= v <= 0x0D
    || 0x1C <= v <= 0x20
    || v == 0x1680
    || 0x2000 <= v <= 0x2006
    || 0x2008 <= v <= 0x200A
    || v == 0x2028 || v == 0x2029 || v == 0x205F || v == 0x3000
  }

  /** `s.isBlank()`: empty or white space only. */
  predicate IsBlank(s: string)
  {
    forall i :: 0 <= i < |s| ==> IsWhitespace(s[i])
  }
}
