/**
 * The string primitives the server and the client lean on: PHP `trim` with its
 * default character list, ASCII upper-casing (PHP 8 `strtoupper`; also used for
 * the client's `toUpperCase`, see README), and PHP's truthiness of a string-valued
 * request field.
 */
module Text {
  import opened Wrappers

  /** The characters PHP `trim` strips by default: space, tab, LF, CR, NUL, vertical tab. */
  predicate IsTrimChar(c: char)
  {
    c == ' ' || c == '\t' || c == '\n' || c == '\r' || c == '\0' || c == '\U{B}'
  }

  /** Every character of `t` is one `trim` strips. */
  predicate AllTrimChars(t: string)
  {
    forall k :: 0 <= k < |t| ==> IsTrimChar(t[k])
  }

  function TrimLeft(s: string): (r: string)
    ensures |r| <= |s| && r == s[|s| - |r|..]
    ensures AllTrimChars(s[..|s| - |r|])
    ensures |r| == 0 || !IsTrimChar(r[0])
  {
    if |s| > 0 && IsTrimChar(s[0]) then
      var r := TrimLeft(s[1..]);
      assert s[..|s| - |r|] == [s[0]] + s[1..][..|s| - 1 - |r|];
      r
    else s
  }

  function TrimRight(s: string): (r: string)
    ensures |r| <= |s| && r == s[..|r|]
    ensures AllTrimChars(s[|r|..])
    ensures |r| == 0 || !IsTrimChar(r[|r| - 1])
  {
    if |s| > 0 && IsTrimChar(s[|s| - 1]) then
      var r := TrimRight(s[..|s| - 1]);
      assert s[|r|..] == s[..|s| - 1][|r|..] + [s[|s| - 1]];
      r
    else s
  }

  /** PHP `trim`: what is left after dropping trim characters at both ends. */
  function Trim(s: string): (r: string)
    ensures |r| <= |s|
    ensures |r| == 0 || (!IsTrimChar(r[0]) && !IsTrimChar(r[|r| - 1]))
  {
    TrimRight(TrimLeft(s))
  }

  /** The trimmed string is an infix of the input, and only trim characters were dropped. */
  lemma TrimIsInfix(s: string)
    ensures exists i, j :: 0 <= i <= j <= |s| && Trim(s) == s[i..j]
                           && AllTrimChars(s[..i]) && AllTrimChars(s[j..])
  {
    var l := TrimLeft(s);
    var i := |s| - |l|;
    assert AllTrimChars(s[..i]);
    var j := TrimRightEnd(s, i);
    assert Trim(s) == s[i..j];
  }

  /** Trimming the right end of the suffix `s[i..]` stops at a position `j`. */
  lemma TrimRightEnd(s: string, i: nat) returns (j: nat)
    requires i <= |s|
    ensures i <= j <= |s| && TrimRight(s[i..]) == s[i..j] && AllTrimChars(s[j..])
  {
    var l := s[i..];
    var r := TrimRight(l);
    j := i + |r|;
    assert r == l[..|r|];
    assert l[..|r|] == s[i..j];
    assert l[|r|..] == s[j..];
  }

  /** Trimming a trimmed string changes nothing. */
  lemma TrimIdempotent(s: string)
    ensures Trim(Trim(s)) == Trim(s)
  {
    var t := Trim(s);
    if |t| > 0 {
      assert TrimLeft(t) == t;
      assert TrimRight(t) == t;
    }
  }

  predicate IsAsciiLower(c: char)
  {
    'a' <= c <= 'z'
  }

  function UpperChar(c: char): char
  {
    if IsAsciiLower(c) then (c as int - 32) as char else c
  }

  /** ASCII upper-casing, character by character. */
  function Upper(s: string): string
  {
    seq(|s|, i requires 0 <= i < |s| => UpperChar(s[i]))
  }

  /** Upper-casing maps each ASCII lower-case letter to its capital and keeps every other character. */
  lemma UpperShape(s: string)
    ensures |Upper(s)| == |s|
    ensures forall i :: 0 <= i < |s| ==> !IsAsciiLower(Upper(s)[i])
    ensures forall i :: 0 <= i < |s| && !IsAsciiLower(s[i]) ==> Upper(s)[i] == s[i]
    ensures forall i :: 0 <= i < |s| && IsAsciiLower(s[i]) ==> Upper(s)[i] as int == s[i] as int - 32
  {
  }

  /** Upper-casing twice is upper-casing once. */
  lemma UpperIdempotent(s: string)
    ensures Upper(Upper(s)) == Upper(s)
  {
    UpperShape(s);
  }

  /** PHP `!$x` for a field read with `?? null` that holds a string: null, "" and "0" are falsy. */
  predicate Falsy(x: Option<string>)
  {
    x.None? || x.value == "" || x.value == "0"
  }
}
