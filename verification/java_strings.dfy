/** The few `java.lang` string and number operations the core depends on,
    written out so that their edge cases are visible. A Java `char` is
    modelled as a Dafny `char` (a Unicode scalar value). */
module JavaStrings {

  /** `Character.isWhitespace`: the ASCII controls TAB..CR and FS..US, and
      the Unicode space, line and paragraph separators other than the
      no-break spaces U+00A0, U+2007 and U+202F. */
  predicate IsWhitespace(c: char) {
    || ('\t' <= c <= '\r')
    || ('\U{1C}' <= c <= ' ')
    || c == '\U{1680}'
    || ('\U{2000}' <= c <= '\U{2006}')
    || ('\U{2008}' <= c <= '\U{200A}')
    || c == '\U{2028}' || c == '\U{2029}' || c == '\U{205F}' || c == '\U{3000}'
  }

  /** `String.isBlank`: empty, or whitespace only. */
  predicate IsBlank(s: string) {
    forall i :: 0 <= i < |s| ==> IsWhitespace(s[i])
  }

  /** A character `String.trim` strips: every code point up to U+0020. */
  predicate StrippedByTrim(c: char) {
    c <= ' '
  }

  function TrimStart(s: string): (r: string)
    ensures |r| <= |s| && r == s[|s| - |r|..]
    ensures forall i :: 0 <= i < |s| - |r| ==> StrippedByTrim(s[i])
    ensures r == [] || !StrippedByTrim(r[0])
  {
    if |s| > 0 && StrippedByTrim(s[0]) then TrimStart(s[1..]) else s
  }

  function TrimEnd(s: string): (r: string)
    ensures |r| <= |s| && r == s[..|r|]
    ensures forall i :: |r| <= i < |s| ==> StrippedByTrim(s[i])
    ensures r == [] || !StrippedByTrim(r[|r| - 1])
  {
    if |s| > 0 && StrippedByTrim(s[|s| - 1]) then TrimEnd(s[..|s| - 1]) else s
  }

  /** `String.trim`: the longest infix that neither starts nor ends with a
      character up to U+0020; everything cut away on either side is such
      a character. */
  function Trim(s: string): (r: string)
    ensures |r| <= |TrimStart(s)| <= |s|
    ensures r == [] || (!StrippedByTrim(r[0]) && !StrippedByTrim(r[|r| - 1]))
    ensures r == s[|s| - |TrimStart(s)|..|s| - |TrimStart(s)| + |r|]
    ensures forall i :: 0 <= i < |s| - |TrimStart(s)| ==> StrippedByTrim(s[i])
    ensures forall i :: |s| - |TrimStart(s)| + |r| <= i < |s| ==> StrippedByTrim(s[i])
  {
    TrimEnd(TrimStart(s))
  }

  /** Trimming is idempotent: a trimmed string is a fixed point of `Trim`. */
  lemma TrimIdempotent(s: string)
    ensures Trim(Trim(s)) == Trim(s)
  {
    var r := Trim(s);
    assert TrimStart(r) == r;
    assert TrimEnd(r) == r;
  }

  /** Trimming keeps every character above U+0020 where it was: such a
      character lies inside the kept infix, at its old position shifted
      by the length of the cut-away head. */
  lemma TrimKeepsVisible(s: string, i: int)
    requires 0 <= i < |s| && !StrippedByTrim(s[i])
    ensures var cut := |s| - |TrimStart(s)|;
      && cut <= i < cut + |Trim(s)|
      && Trim(s)[i - cut] == s[i]
  {
    var t := TrimStart(s);
    assert i >= |s| - |t|;
    var k := i - (|s| - |t|);
    assert t[k] == s[i];
    var r := TrimEnd(t);
    assert k < |r|;
    assert r[k] == t[k];
  }

  /** `isBlank` and `trim` look at different characters. An em space
      (U+2003) alone is blank, yet trimming keeps it. */
  lemma BlankSurvivesTrim()
    ensures IsBlank("\U{2003}") && Trim("\U{2003}") == "\U{2003}"
  {
    var em := "\U{2003}";
    assert em[0] == '\U{2003}' && !StrippedByTrim(em[0]);
    assert TrimStart(em) == em;
  }

  /** A NUL alone is not blank, yet trimming removes it. */
  lemma TrimRemovesNonBlank()
    ensures !IsBlank("\0") && Trim("\0") == ""
  {
    var nul := "\0";
    assert nul[0] == '\0' && !IsWhitespace(nul[0]);
    assert TrimStart(nul) == [];
  }

  /** The decimal digit for `d`. */
  function DigitChar(d: nat): (c: char)
    requires d < 10
    ensures '0' <= c <= '9'
  {
    ('0' as int + d) as char
  }

  /** The `@NotBlank` bean-validation constraint on a request text. Its
      validator tests that the text is non-empty after `String.trim`, that
      is, that some character is above U+0020 (`NotBlankIsTrimNonEmpty`).
      This is not the same test as `String.isBlank`. */
  predicate NotBlank(s: string) {
    exists i :: 0 <= i < |s| && !StrippedByTrim(s[i])
  }

  /** The `@NotBlank` test is the trim test. */
  lemma NotBlankIsTrimNonEmpty(s: string)
    ensures NotBlank(s) <==> Trim(s) != []
  {
    if i :| 0 <= i < |s| && !StrippedByTrim(s[i]) {
      TrimKeepsVisible(s, i);
    }
    if Trim(s) != [] {
      var cut := |s| - |TrimStart(s)|;
      assert Trim(s)[0] == s[cut];
    }
  }

  /** The number a string of decimal digits denotes, most significant
      digit first. */
  function DecimalValue(s: string): int {
    if s == [] then 0 else 10 * DecimalValue(s[..|s| - 1]) + (s[|s| - 1] as int - '0' as int)
  }

  /** `Long.toString` on a non-negative value: decimal, no sign, no
      leading zeros. */
  function NatToString(n: nat): (r: string)
    ensures |r| >= 1
    ensures forall i :: 0 <= i < |r| ==> '0' <= r[i] <= '9'
    ensures (|r| == 1) == (n < 10)
    ensures r[|r| - 1] == DigitChar(n % 10)
    ensures DecimalValue(r) == n
    ensures r[0] == '0' ==> n == 0
  {
    if n < 10 then [DigitChar(n)]
    else
      var high := NatToString(n / 10);
      assert (high + [DigitChar(n % 10)])[..|high|] == high;
      high + [DigitChar(n % 10)]
  }

  /** Distinct ids print differently, so a topic built from an id names
      exactly one entity. */
  lemma {:induction false} NatToStringInjective(a: nat, b: nat)
    requires NatToString(a) == NatToString(b)
    ensures a == b
  {
    var sa, sb := NatToString(a), NatToString(b);
    assert a % 10 == b % 10 by {
      assert DigitChar(a % 10) == DigitChar(b % 10);
    }
    if a >= 10 {
      assert b >= 10;
      assert NatToString(a / 10) == sa[..|sa| - 1];
      assert NatToString(b / 10) == sb[..|sb| - 1];
      NatToStringInjective(a / 10, b / 10);
    }
  }
}
