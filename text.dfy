/**
 * The .NET string primitives the users controller relies on: `char.IsWhiteSpace`,
 * `string.IsNullOrWhiteSpace` and `string.Trim()`. Strings are sequences of chars; a
 * null string is `None`.
 */
module Text {
  import opened Wrappers

  /** `char.IsWhiteSpace`: U+0009 to U+000D, U+0085, and the Unicode space, line and
      paragraph separators (categories Zs, Zl, Zp: U+0020, U+00A0, U+1680, U+2000 to
      U+200A, U+2028, U+2029, U+202F, U+205F, U+3000). The same set is what `\s`
      matches in a .NET regular expression. */
  predicate IsWhiteSpace(c: char) {
    if c <= ' ' then c == ' ' || '\U{9}' <= c <= '\U{D}'
    else if c < '\U{85}' then false
    else if c <= '\U{A0}' then c == '\U{85}' || c == '\U{A0}'
    else if c < '\U{1680}' then false
    else (c == '\U{1680}' || ('\U{2000}' <= c <= '\U{200A}') || c == '\U{2028}' || c == '\U{2029}'
      || c == '\U{202F}' || c == '\U{205F}' || c == '\U{3000}')
  }

  /** The character class `a-zA-Z`. */
  predicate IsAsciiLetter(c: char) {
    ('a' <= c <= 'z') || ('A' <= c <= 'Z')
  }

  /** Every character of `s` from index `lo` up to (not including) `hi` is white space. */
  predicate WhiteSpaceBetween(s: string, lo: int, hi: int)
    requires 0 <= lo && hi <= |s|
  {
    forall i {:trigger IsWhiteSpace(s[i])} :: lo <= i < hi ==> IsWhiteSpace(s[i])
  }

  predicate AllWhiteSpace(s: string) {
    WhiteSpaceBetween(s, 0, |s|)
  }

  /** `string.IsNullOrWhiteSpace`: null, empty, or made only of white space. */
  predicate IsNullOrWhiteSpace(s: Option<string>) {
    s.None? || AllWhiteSpace(s.value)
  }

  /** Neither the first nor the last character is white space. */
  predicate NoSurroundingWhiteSpace(s: string) {
    s == [] || (!IsWhiteSpace(s[0]) && !IsWhiteSpace(s[|s| - 1]))
  }

  /** `string.Trim()`: drops white space from both ends until neither end is white
      space. The result is no longer than `s`; TrimSplits says where it sits in `s`. */
  function Trim(s: string): (r: string)
    ensures |r| <= |s|
    ensures NoSurroundingWhiteSpace(r)
  {
    if s == [] then s
    else if IsWhiteSpace(s[0]) then Trim(s[1..])
    else if IsWhiteSpace(s[|s| - 1]) then Trim(s[..|s| - 1])
    else s
  }

  /** `s` is `k` white-space characters, then `Trim(s)`, then only white space. */
  lemma {:induction false} TrimSplits(s: string) returns (k: nat)
    ensures k + |Trim(s)| <= |s|
    ensures s[k..k + |Trim(s)|] == Trim(s)
    ensures WhiteSpaceBetween(s, 0, k)
    ensures WhiteSpaceBetween(s, k + |Trim(s)|, |s|)
  {
    if s == [] {
      k := 0;
    } else if IsWhiteSpace(s[0]) {
      var k' := TrimSplits(s[1..]);
      k := k' + 1;
      assert Trim(s) == Trim(s[1..]);
      assert s[k..k + |Trim(s)|] == s[1..][k'..k' + |Trim(s)|];
      forall i | 0 < i < k ensures IsWhiteSpace(s[i]) {
        assert s[i] == s[1..][i - 1];
      }
      forall i | k + |Trim(s)| <= i < |s| ensures IsWhiteSpace(s[i]) {
        assert s[i] == s[1..][i - 1];
      }
    } else if IsWhiteSpace(s[|s| - 1]) {
      k := TrimSplits(s[..|s| - 1]);
      assert Trim(s) == Trim(s[..|s| - 1]);
      assert s[k..k + |Trim(s)|] == s[..|s| - 1][k..k + |Trim(s)|];
      assert s[..|s| - 1][0] == s[0];
      forall i | k + |Trim(s)| <= i < |s| - 1 ensures IsWhiteSpace(s[i]) {
        assert s[i] == s[..|s| - 1][i];
      }
    } else {
      k := 0;
    }
  }

  /** Trimming leaves nothing exactly when the string is blank. */
  lemma {:induction false} TrimEmptyIffBlank(s: string)
    ensures Trim(s) == [] <==> AllWhiteSpace(s)
  {
    if s == [] {
    } else if IsWhiteSpace(s[0]) {
      TrimEmptyIffBlank(s[1..]);
      assert AllWhiteSpace(s[1..]) ==> AllWhiteSpace(s) by {
        if AllWhiteSpace(s[1..]) {
          forall i | 0 < i < |s| ensures IsWhiteSpace(s[i]) { assert s[i] == s[1..][i - 1]; }
        }
      }
    } else if IsWhiteSpace(s[|s| - 1]) {
      TrimEmptyIffBlank(s[..|s| - 1]);
    } else {
    }
  }

  /** Trimming a string that has no surrounding white space leaves it as it is. */
  lemma TrimLeavesTrimmed(s: string)
    requires NoSurroundingWhiteSpace(s)
    ensures Trim(s) == s
  {
  }

  /** Trimming twice is trimming once. */
  lemma TrimIdempotent(s: string)
    ensures Trim(Trim(s)) == Trim(s)
  {
    TrimLeavesTrimmed(Trim(s));
  }

  /** A string that is not blank trims to a non-empty string without surrounding
      white space. */
  lemma TrimOfNonBlank(s: Option<string>)
    requires !IsNullOrWhiteSpace(s)
    ensures Trim(s.value) != [] && NoSurroundingWhiteSpace(Trim(s.value))
  {
    TrimEmptyIffBlank(s.value);
  }
}
