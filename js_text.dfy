/**
 * The few JavaScript string primitives the two components rely on:
 * the whitespace class shared by `String.prototype.trim` and the regular
 * expression escape `\s`, `trim` itself, the ASCII digit class `\d`, and
 * `String.prototype.length`, which counts UTF-16 code units.
 *
 * Strings are sequences of Unicode scalar values (Dafny's `char`). The
 * functions carry no postconditions of their own; what they compute is
 * stated by the lemmas after each of them, which callers invoke where they
 * need it.
 */
module JsText {

  /** The ECMAScript WhiteSpace and LineTerminator code points: what `trim`
      strips and what `\s` matches. */
  predicate IsWhitespace(c: char) {
    var n := c as int;
    || n == 0x09 || n == 0x0A || n == 0x0B || n == 0x0C || n == 0x0D
    || n == 0x20 || n == 0xA0 || n == 0x1680
    || (0x2000 <= n <= 0x200A)
    || n == 0x2028 || n == 0x2029 || n == 0x202F || n == 0x205F
    || n == 0x3000 || n == 0xFEFF
  }

  /** `\d` in a regular expression without the `u` flag: ASCII digits only. */
  predicate IsAsciiDigit(c: char) {
    '0' <= c <= '9'
  }

  /** Empty or made only of whitespace: the strings whose trim is falsy. */
  predicate IsBlank(s: string) {
    forall i :: 0 <= i < |s| ==> IsWhitespace(s[i])
  }

  /** Drops the leading whitespace. */
  function TrimStart(s: string): string {
    if s != [] && IsWhitespace(s[0]) then TrimStart(s[1..]) else s
  }

  /** TrimStart keeps a suffix, drops only whitespace, and stops at the first
      character that is not whitespace. */
  lemma {:induction false} TrimStartSpec(s: string)
    ensures |TrimStart(s)| <= |s| && TrimStart(s) == s[|s| - |TrimStart(s)|..]
    ensures forall i :: 0 <= i < |s| - |TrimStart(s)| ==> IsWhitespace(s[i])
    ensures TrimStart(s) == [] || !IsWhitespace(TrimStart(s)[0])
  {
    if s != [] && IsWhitespace(s[0]) {
      TrimStartSpec(s[1..]);
      var r := TrimStart(s[1..]);
      forall i | 0 <= i < |s| - |r| ensures IsWhitespace(s[i]) {
        if i > 0 { assert s[i] == s[1..][i - 1]; }
      }
    }
  }

  /** Drops the trailing whitespace. */
  function TrimEnd(s: string): string {
    if s != [] && IsWhitespace(s[|s| - 1]) then TrimEnd(s[..|s| - 1]) else s
  }

  /** TrimEnd keeps a prefix, drops only whitespace, and stops at the last
      character that is not whitespace. */
  lemma {:induction false} TrimEndSpec(s: string)
    ensures |TrimEnd(s)| <= |s| && TrimEnd(s) == s[..|TrimEnd(s)|]
    ensures forall i :: |TrimEnd(s)| <= i < |s| ==> IsWhitespace(s[i])
    ensures TrimEnd(s) == [] || !IsWhitespace(TrimEnd(s)[|TrimEnd(s)| - 1])
  {
    if s != [] && IsWhitespace(s[|s| - 1]) {
      var p := s[..|s| - 1];
      TrimEndSpec(p);
      var r := TrimEnd(p);
      assert r == p[..|r|] == s[..|r|];
      forall i | |r| <= i < |s| ensures IsWhitespace(s[i]) {
        if i < |s| - 1 { assert s[i] == p[i]; }
      }
    }
  }

  /** `String.prototype.trim`. */
  function Trim(s: string): string {
    TrimEnd(TrimStart(s))
  }

  /** `r` is `s[lo..lo + |r|]` and everything of `s` outside it is whitespace. */
  predicate TrimmedAt(s: string, r: string, lo: int) {
    && 0 <= lo <= lo + |r| <= |s|
    && r == s[lo..lo + |r|]
    && (forall i :: 0 <= i < lo ==> IsWhitespace(s[i]))
    && (forall i :: lo + |r| <= i < |s| ==> IsWhitespace(s[i]))
  }

  /** Trim keeps the middle slice that neither starts nor ends with
      whitespace and cuts off only whitespace; so it is empty exactly when
      the string is blank. */
  lemma TrimSpec(s: string)
    ensures exists lo :: TrimmedAt(s, Trim(s), lo)
    ensures Trim(s) == [] || (!IsWhitespace(Trim(s)[0]) && !IsWhitespace(Trim(s)[|Trim(s)| - 1]))
    ensures Trim(s) == [] <==> IsBlank(s)
  {
    var t := TrimStart(s);
    TrimStartSpec(s);
    TrimEndSpec(t);
    var r := TrimEnd(t);
    var lo := |s| - |t|;
    assert r == Trim(s);
    assert TrimmedAt(s, Trim(s), lo);
    assert r != [] ==> r[0] == t[0];
  }

  /** `String.prototype.length`: code points above U+FFFF take a surrogate
      pair, two UTF-16 code units. */
  function Utf16Length(s: string): nat {
    if s == [] then 0
    else (if s[0] as int < 0x1_0000 then 1 else 2) + Utf16Length(s[1..])
  }

  /** Each character counts once or twice, and exactly once throughout when
      every character lies in the Basic Multilingual Plane. */
  lemma {:induction false} Utf16LengthBounds(s: string)
    ensures |s| <= Utf16Length(s) <= 2 * |s|
    ensures Utf16Length(s) == |s| <==> forall i :: 0 <= i < |s| ==> s[i] as int < 0x1_0000
  {
    if s != [] {
      Utf16LengthBounds(s[1..]);
      if forall i :: 0 <= i < |s[1..]| ==> s[1..][i] as int < 0x1_0000 {
        if s[0] as int < 0x1_0000 {
          forall i | 0 <= i < |s| ensures s[i] as int < 0x1_0000 {
            if i > 0 { assert s[i] == s[1..][i - 1]; }
          }
        }
      } else {
        var j :| 0 <= j < |s[1..]| && s[1..][j] as int >= 0x1_0000;
        assert s[j + 1] as int >= 0x1_0000;
      }
    }
  }
}
