/**
 The string primitives the add form relies on: Python's `str.strip()` with no
 argument, `str.capitalize()`, and the `x or default` idiom for empty strings.

 Whitespace is Python's `str.isspace` restricted to the ASCII range, and the
 case map is the ASCII one; characters outside ASCII are left unchanged by both.
 */
module Text {

  /** Tab, line feed, vertical tab, form feed, carriage return (0x09-0x0D),
      the information separators 0x1C-0x1F, and space. */
  predicate IsSpace(c: char)
    ensures IsSpace(c) <==> c in {'\t', '\n', '\U{0B}', '\U{0C}', '\r', '\U{1C}', '\U{1D}', '\U{1E}', '\U{1F}', ' '}
  {
    c == ' ' || ('\t' <= c <= '\r') || ('\U{1C}' <= c <= '\U{1F}')
  }

  /** Every character of `s` is whitespace (the empty string included). */
  predicate IsBlank(s: string) {
    forall i :: 0 <= i < |s| ==> IsSpace(s[i])
  }

  /** `s` neither starts nor ends with whitespace. */
  predicate IsTrimmed(s: string) {
    s == [] || (!IsSpace(s[0]) && !IsSpace(s[|s| - 1]))
  }

  /** The first position at or after `i` that does not hold whitespace, or
      `|s|` when there is none. */
  function SkipSpaces(s: string, i: nat): (j: nat)
    requires i <= |s|
    ensures i <= j <= |s|
    ensures forall k :: i <= k < j ==> IsSpace(s[k])
    ensures j < |s| ==> !IsSpace(s[j])
    decreases |s| - i
  {
    if i < |s| && IsSpace(s[i]) then SkipSpaces(s, i + 1) else i
  }

  /** The end of `s[lo..j]` once its trailing whitespace is dropped: every
      character from the result up to `j` is whitespace, and the one just
      before the result is not (unless the result is `lo`). */
  function SkipSpacesBack(s: string, lo: nat, j: nat): (i: nat)
    requires lo <= j <= |s|
    ensures lo <= i <= j
    ensures forall k :: i <= k < j ==> IsSpace(s[k])
    ensures lo < i ==> !IsSpace(s[i - 1])
  {
    if lo < j && IsSpace(s[j - 1]) then SkipSpacesBack(s, lo, j - 1) else j
  }

  /** The scan forwards stops exactly at the end of a whitespace run. */
  lemma SkipSpacesAt(s: string, i: nat, j: nat)
    requires i <= j <= |s|
    requires forall k :: i <= k < j ==> IsSpace(s[k])
    requires j < |s| ==> !IsSpace(s[j])
    ensures SkipSpaces(s, i) == j
  {
  }

  /** The scan backwards stops exactly at the start of a whitespace run. */
  lemma SkipSpacesBackAt(s: string, lo: nat, i: nat, j: nat)
    requires lo <= i <= j <= |s|
    requires forall k :: i <= k < j ==> IsSpace(s[k])
    requires lo < i ==> !IsSpace(s[i - 1])
    ensures SkipSpacesBack(s, lo, j) == i
  {
  }

  /** Python's `s.strip()`: `s` without its leading and trailing whitespace.
      It is empty exactly when `s` is blank. */
  function Strip(s: string): (r: string)
    ensures IsTrimmed(r)
    ensures r == [] <==> IsBlank(s)
  {
    var lo := SkipSpaces(s, 0);
    var hi := SkipSpacesBack(s, lo, |s|);
    assert IsBlank(s) ==> lo == |s|;
    assert lo < |s| ==> lo < hi;
    s[lo..hi]
  }

  /** What `Strip` keeps is a contiguous slice of its input with only
      whitespace before and after it. */
  lemma StripIsSlice(s: string)
    ensures exists lo, hi :: 0 <= lo <= hi <= |s| && Strip(s) == s[lo..hi] && IsBlank(s[..lo]) && IsBlank(s[hi..])
  {
    var lo := SkipSpaces(s, 0);
    var hi := SkipSpacesBack(s, lo, |s|);
    assert Strip(s) == s[lo..hi];
    assert IsBlank(s[..lo]) && IsBlank(s[hi..]);
  }

  /** Whitespace padding on either side does not change what `Strip` keeps:
      a trimmed core surrounded by blanks is exactly what `Strip` returns. */
  lemma StripUnique(a: string, core: string, b: string)
    requires IsBlank(a) && IsBlank(b) && IsTrimmed(core)
    ensures Strip(a + core + b) == core
  {
    var s := a + core + b;
    if core == [] {
      assert IsBlank(s) by {
        forall i | 0 <= i < |s| ensures IsSpace(s[i]) {
          if i < |a| { assert s[i] == a[i]; } else { assert s[i] == b[i - |a|]; }
        }
      }
    } else {
      var lo := |a|;
      var hi := |a| + |core|;
      assert s[lo] == core[0] && s[hi - 1] == core[|core| - 1];
      assert forall k :: 0 <= k < lo ==> s[k] == a[k];
      assert forall k :: hi <= k < |s| ==> s[k] == b[k - hi];
      SkipSpacesAt(s, 0, lo);
      SkipSpacesBackAt(s, lo, hi, |s|);
      assert s[lo..hi] == core;
    }
  }

  /** A trimmed string is its own strip. */
  lemma StripTrimmed(s: string)
    requires IsTrimmed(s)
    ensures Strip(s) == s
  {
    assert [] + s + [] == s;
    StripUnique([], s, []);
  }

  /** Stripping is idempotent. */
  lemma StripIdempotent(s: string)
    ensures Strip(Strip(s)) == Strip(s)
  {
    StripTrimmed(Strip(s));
  }

  /** ASCII lower-casing of one character: the result is never an upper-case
      letter, and characters other than 'A'-'Z' are left alone. */
  function ToLower(c: char): (l: char)
    ensures !('A' <= l <= 'Z')
    ensures !('A' <= c <= 'Z') ==> l == c
    ensures IsSpace(l) <==> IsSpace(c)
  {
    if 'A' <= c <= 'Z' then (c as int + 32) as char else c
  }

  /** ASCII upper-casing of one character: the result is never a lower-case
      letter, it lower-cases back to what `c` lower-cases to, and characters
      other than 'a'-'z' are left alone. */
  function ToUpper(c: char): (u: char)
    ensures !('a' <= u <= 'z') && ToLower(u) == ToLower(c)
    ensures !('a' <= c <= 'z') ==> u == c
    ensures IsSpace(u) <==> IsSpace(c)
  {
    if 'a' <= c <= 'z' then (c as int - 32) as char else c
  }

  /** Lower-casing a character and upper-casing it again is upper-casing it,
      so the two maps pair 'a'-'z' with 'A'-'Z' one to one. */
  lemma CaseRoundTrip(c: char)
    ensures ToUpper(ToLower(c)) == ToUpper(c)
    ensures 'A' <= c <= 'Z' ==> ToLower(c) != c
    ensures 'a' <= c <= 'z' ==> ToUpper(c) != c
  {
  }

  /** The characters of `s` from position `i` on, lower-cased. */
  function LowerFrom(s: string, i: nat): (r: string)
    requires i <= |s|
    ensures |r| == |s| - i
    ensures forall k :: 0 <= k < |r| ==> r[k] == ToLower(s[i + k])
    decreases |s| - i
  {
    if i == |s| then [] else [ToLower(s[i])] + LowerFrom(s, i + 1)
  }

  /** Python's `s.capitalize()`: the first character upper-cased, every other
      character lower-cased. */
  function Capitalize(s: string): (r: string)
    ensures |r| == |s|
    ensures |s| > 0 ==> r[0] == ToUpper(s[0])
    ensures forall i :: 1 <= i < |s| ==> r[i] == ToLower(s[i])
  {
    if s == [] then [] else [ToUpper(s[0])] + LowerFrom(s, 1)
  }

  /** Capitalising an already capitalised string changes nothing. */
  lemma CapitalizeIdempotent(s: string)
    ensures Capitalize(Capitalize(s)) == Capitalize(s)
  {
  }

  /** Capitalisation neither adds nor removes whitespace, so a trimmed string
      stays trimmed and a non-blank one stays non-blank. */
  lemma CapitalizeKeepsTrimmed(s: string)
    requires IsTrimmed(s)
    ensures IsTrimmed(Capitalize(s))
    ensures IsBlank(Capitalize(s)) <==> IsBlank(s)
  {
  }

  /** Python's `s or default` for strings: the empty string is falsy. */
  function OrElse(s: string, default: string): (r: string)
    ensures s != [] ==> r == s
    ensures s == [] ==> r == default
    ensures r == [] <==> s == [] && default == []
  {
    if s == [] then default else s
  }
}
