/** The string operations both halves of the application rely on. */
module Text {

  /** The characters JavaScript's `String.prototype.trim` removes: the WhiteSpace
      and LineTerminator code points of ECMAScript (ECMA-262, sections 12.2 and 12.3). */
  predicate IsJsWhitespace(c: char) {
    c == '\t' || c == '\n' || c == '\U{000B}' || c == '\U{000C}' || c == '\r' || c == ' '
    || c == '\U{00A0}' || c == '\U{1680}' || ('\U{2000}' <= c <= '\U{200A}')
    || c == '\U{2028}' || c == '\U{2029}' || c == '\U{202F}' || c == '\U{205F}'
    || c == '\U{3000}' || c == '\U{FEFF}'
  }

  /** The characters for which Python's `str.isspace` holds, which `str.strip()` removes. */
  predicate IsPyWhitespace(c: char) {
    ('\t' <= c <= '\r') || ('\U{001C}' <= c <= '\U{001F}') || c == ' '
    || c == '\U{0085}' || c == '\U{00A0}' || c == '\U{1680}' || ('\U{2000}' <= c <= '\U{200A}')
    || c == '\U{2028}' || c == '\U{2029}' || c == '\U{202F}' || c == '\U{205F}' || c == '\U{3000}'
  }

  /** Every character of `s` is one `isSpace` accepts. */
  predicate AllSpace(s: string, isSpace: char -> bool) {
    forall i :: 0 <= i < |s| ==> isSpace(s[i])
  }

  /** `s` without its leading space characters. */
  function TrimStart(s: string, isSpace: char -> bool): string {
    if s != [] && isSpace(s[0]) then TrimStart(s[1..], isSpace) else s
  }

  /** `s` without its trailing space characters. */
  function TrimEnd(s: string, isSpace: char -> bool): string {
    if s != [] && isSpace(s[|s| - 1]) then TrimEnd(s[..|s| - 1], isSpace) else s
  }

  /** `s` without its leading and trailing space characters, as JavaScript's `trim()`
      and Python's `strip()` compute it for their own sets of space characters. */
  function Trim(s: string, isSpace: char -> bool): string {
    TrimEnd(TrimStart(s, isSpace), isSpace)
  }

  /** `TrimStart` drops exactly the longest all-space prefix. */
  lemma {:induction false} TrimStartSpec(s: string, isSpace: char -> bool)
    ensures var r := TrimStart(s, isSpace);
            && |r| <= |s| && r == s[|s| - |r|..]
            && AllSpace(s[..|s| - |r|], isSpace)
            && (r != [] ==> !isSpace(r[0]))
  {
    if s != [] && isSpace(s[0]) {
      TrimStartSpec(s[1..], isSpace);
      var r := TrimStart(s[1..], isSpace);
      assert s[..|s| - |r|] == [s[0]] + s[1..][..|s[1..]| - |r|];
    }
  }

  /** `TrimEnd` drops exactly the longest all-space suffix. */
  lemma {:induction false} TrimEndSpec(s: string, isSpace: char -> bool)
    ensures var r := TrimEnd(s, isSpace);
            && |r| <= |s| && r == s[..|r|]
            && AllSpace(s[|r|..], isSpace)
            && (r != [] ==> !isSpace(r[|r| - 1]))
  {
    if s != [] && isSpace(s[|s| - 1]) {
      TrimEndSpec(s[..|s| - 1], isSpace);
      var r := TrimEnd(s[..|s| - 1], isSpace);
      assert s[|r|..] == s[..|s| - 1][|r|..] + [s[|s| - 1]];
    }
  }

  /** `Trim(s)` is the infix `s[a..b]` such that everything outside it is space and it
      neither starts nor ends with a space character. */
  lemma TrimSpec(s: string, isSpace: char -> bool)
    ensures var r := Trim(s, isSpace);
            && (exists a, b ::
                  && 0 <= a <= b <= |s| && r == s[a..b]
                  && AllSpace(s[..a], isSpace) && AllSpace(s[b..], isSpace))
            && (r != [] ==> !isSpace(r[0]) && !isSpace(r[|r| - 1]))
  {
    var t := TrimStart(s, isSpace);
    TrimStartSpec(s, isSpace);
    TrimEndSpec(t, isSpace);
    var r := TrimEnd(t, isSpace);
    var a := |s| - |t|;
    assert r == s[a..a + |r|];
    assert s[a + |r|..] == t[|r|..];
  }

  /** Trimming yields the empty string exactly when every character is space. */
  lemma TrimEmptyIff(s: string, isSpace: char -> bool)
    ensures Trim(s, isSpace) == [] <==> AllSpace(s, isSpace)
  {
    var t := TrimStart(s, isSpace);
    TrimStartSpec(s, isSpace);
    TrimEndSpec(t, isSpace);
    if Trim(s, isSpace) == [] {
      assert t == [];
      assert s[..|s|] == s;
    }
  }

  /** Python's `s.endswith(suffix)`. */
  predicate EndsWith(s: string, suffix: string) {
    |suffix| <= |s| && s[|s| - |suffix|..] == suffix
  }

  /** The characters of `parts` one after the other, as repeated `+=` builds them. */
  function Concat(parts: seq<string>): (r: string)
  {
    if parts == [] then "" else Concat(parts[..|parts| - 1]) + parts[|parts| - 1]
  }

  /** Each part sits in the concatenation right after the parts before it. */
  lemma {:induction false} ConcatPlacesPart(parts: seq<string>, k: nat)
    requires k < |parts|
    ensures |Concat(parts[..k])| + |parts[k]| <= |Concat(parts)|
    ensures Concat(parts)[|Concat(parts[..k])|..|Concat(parts[..k])| + |parts[k]|] == parts[k]
  {
    var n := |parts|;
    assert parts[..n] == parts;
    assert parts[..n - 1][..k] == parts[..k];
    if k < n - 1 {
      ConcatPlacesPart(parts[..n - 1], k);
      assert parts[..n - 1][k] == parts[k];
    } else {
      assert parts[..k] == parts[..n - 1];
    }
  }
}
