/**
  The string normalisation the request handlers apply to every JSON field:
  Python's `str.strip()` (no arguments) and `str.lower()`.
 */
module Text {

  /** Python's `str.isspace` for one character: exactly the characters that
      `str.strip()` without arguments removes from both ends. */
  predicate IsSpace(c: char) {
    || c == ' '
    || ('\t' <= c <= '\r')
    || ('\U{1C}' <= c <= '\U{1F}')
    || c == '\U{85}' || c == '\U{A0}' || c == '\U{1680}'
    || ('\U{2000}' <= c <= '\U{200A}')
    || c == '\U{2028}' || c == '\U{2029}' || c == '\U{202F}'
    || c == '\U{205F}' || c == '\U{3000}'
  }

  predicate IsUpper(c: char) {
    'A' <= c <= 'Z'
  }

  /** True iff `s` neither begins nor ends with whitespace. */
  predicate Trimmed(s: string) {
    s == [] || (!IsSpace(s[0]) && !IsSpace(s[|s| - 1]))
  }

  /** Drops leading whitespace. */
  function TrimStart(s: string): (r: string)
    ensures |r| <= |s| && r == s[|s| - |r|..]
    ensures forall i :: 0 <= i < |s| - |r| ==> IsSpace(s[i])
    ensures r == [] || !IsSpace(r[0])
    decreases |s|
  {
    if |s| > 0 && IsSpace(s[0]) then TrimStart(s[1..]) else s
  }

  /** Drops trailing whitespace. */
  function TrimEnd(s: string): (r: string)
    ensures |r| <= |s| && r == s[..|r|]
    ensures forall i :: |r| <= i < |s| ==> IsSpace(s[i])
    ensures r == [] || !IsSpace(r[|r| - 1])
    decreases |s|
  {
    if |s| > 0 && IsSpace(s[|s| - 1]) then TrimEnd(s[..|s| - 1]) else s
  }

  /** How many whitespace characters `s` begins with. */
  function LeadingSpaces(s: string): (n: nat)
    ensures n <= |s|
  {
    |s| - |TrimStart(s)|
  }

  /** Python's `s.strip()`: what is left of `s` once the whitespace at both
      ends is removed. It starts right after the leading whitespace, and
      only whitespace follows it. */
  function Strip(s: string): (r: string)
    ensures Trimmed(r)
    ensures LeadingSpaces(s) + |r| <= |s|
    ensures r == s[LeadingSpaces(s)..LeadingSpaces(s) + |r|]
    ensures forall i :: 0 <= i < LeadingSpaces(s) ==> IsSpace(s[i])
    ensures forall i :: LeadingSpaces(s) + |r| <= i < |s| ==> IsSpace(s[i])
  {
    var t := TrimStart(s);
    var r := TrimEnd(t);
    TrimmedTail(s, t, r);
    r
  }

  /** The trailing whitespace `TrimEnd` removes from `TrimStart(s)` is
      trailing whitespace of `s`. */
  lemma TrimmedTail(s: string, t: string, r: string)
    requires |t| <= |s| && t == s[|s| - |t|..]
    requires |r| <= |t|
    requires forall j :: |r| <= j < |t| ==> IsSpace(t[j])
    ensures forall i :: |s| - |t| + |r| <= i < |s| ==> IsSpace(s[i])
  {
    var k := |s| - |t|;
    forall i | k + |r| <= i < |s| ensures IsSpace(s[i]) {
      assert s[i] == t[i - k];
    }
  }

  /** A field is empty after stripping exactly when it held only whitespace
      (Python's `not s.strip()`). */
  lemma {:induction false} StripEmpty(s: string)
    ensures Strip(s) == [] <==> forall i :: 0 <= i < |s| ==> IsSpace(s[i])
  {
    var r := Strip(s);
    if r != [] {
      assert s[LeadingSpaces(s)] == r[0];
    }
  }

  /** Python's `str.lower()` on one character, for ASCII letters. */
  function LowerChar(c: char): (d: char)
    ensures !IsUpper(d)
  {
    if IsUpper(c) then (c as int + 32) as char else c
  }

  /** Python's `s.lower()`: the same characters, with every upper-case
      ASCII letter replaced by its lower-case form. */
  function Lower(s: string): (r: string)
    ensures |r| == |s|
    ensures forall i :: 0 <= i < |s| ==> r[i] == LowerChar(s[i])
    ensures forall i :: 0 <= i < |r| ==> !IsUpper(r[i])
  {
    seq(|s|, i requires 0 <= i < |s| => LowerChar(s[i]))
  }

  /** `s.strip().lower()`, the normal form the handlers give e-mail addresses
      and roles before storing or comparing them. */
  function Normalize(s: string): string {
    Lower(Strip(s))
  }

  /** A string that is already in normal form. */
  predicate IsNormal(s: string) {
    Trimmed(s) && forall i :: 0 <= i < |s| ==> !IsUpper(s[i])
  }

  /** Lower-casing never creates or removes whitespace. */
  lemma LowerCharKeepsSpace(c: char)
    ensures IsSpace(LowerChar(c)) == IsSpace(c)
  {
  }

  /** Stripping a string that is already trimmed changes nothing. */
  lemma {:induction false} StripTrimmed(s: string)
    requires Trimmed(s)
    ensures Strip(s) == s
  {
    assert TrimStart(s) == s;
    assert TrimEnd(s) == s;
  }

  /** Lower-casing a string without upper-case letters changes nothing. */
  lemma LowerNoUpper(s: string)
    requires forall i :: 0 <= i < |s| ==> !IsUpper(s[i])
    ensures Lower(s) == s
  {
  }

  /** Normalising a string already in normal form changes nothing. */
  lemma {:induction false} NormalizeFixesNormal(s: string)
    requires IsNormal(s)
    ensures Normalize(s) == s
  {
    StripTrimmed(s);
    LowerNoUpper(s);
  }

  /** Every normalised string is in normal form, so normalising twice is the
      same as normalising once: an address typed as " Alice@X.com " and one
      typed as "alice@x.com" meet in the same stored value. */
  lemma {:induction false} NormalizeIsNormal(s: string)
    ensures IsNormal(Normalize(s))
    ensures Normalize(Normalize(s)) == Normalize(s)
    ensures |Normalize(s)| == |Strip(s)|
  {
    var n := Lower(Strip(s));
    LowerKeepsTrimmed(Strip(s));
    StripTrimmed(n);
    LowerNoUpper(n);
  }

  /** Lower-casing a trimmed string leaves it trimmed. */
  lemma LowerKeepsTrimmed(t: string)
    requires Trimmed(t)
    ensures Trimmed(Lower(t))
  {
    if t != [] {
      LowerCharKeepsSpace(t[0]);
      LowerCharKeepsSpace(t[|t| - 1]);
    }
  }
}
