/**
 Whitespace handling of the entry forms.

 Every value read from an entry widget goes through Python's `str.strip()`
 with no argument, which removes leading and trailing characters for which
 `str.isspace()` holds. A field is "blank" when nothing is left afterwards.
 */
module Text {

  /** The code points Python's `str.isspace()` accepts. */
  predicate IsSpace(c: char) {
    var n := c as int;
    || n == 0x20
    || 0x09 <= n <= 0x0d
    || 0x1c <= n <= 0x1f
    || n == 0x85
    || n == 0xa0
    || n == 0x1680
    || 0x2000 <= n <= 0x200a
    || n == 0x2028
    || n == 0x2029
    || n == 0x202f
    || n == 0x205f
    || n == 0x3000
  }

  /** True iff every character of `s` is whitespace (in particular, "" is blank). */
  predicate IsBlank(s: string) {
    forall k :: 0 <= k < |s| ==> IsSpace(s[k])
  }

  /** The first position at or after `i` that does not hold whitespace (`|s|` if none). */
  function SkipSpaces(s: string, i: nat): (j: nat)
    requires i <= |s|
    ensures i <= j <= |s|
    ensures forall k :: i <= k < j ==> IsSpace(s[k])
    ensures j == |s| || !IsSpace(s[j])
    decreases |s| - i
  {
    if i < |s| && IsSpace(s[i]) then SkipSpaces(s, i + 1) else i
  }

  /** Walking down from `j` but not below `lo`: the end of the last non-whitespace
      character (`lo` if none). */
  function SkipSpacesBack(s: string, lo: nat, j: nat): (e: nat)
    requires lo <= j <= |s|
    ensures lo <= e <= j
    ensures forall k :: e <= k < j ==> IsSpace(s[k])
    ensures e == lo || !IsSpace(s[e - 1])
    decreases j
  {
    if j > lo && IsSpace(s[j - 1]) then SkipSpacesBack(s, lo, j - 1) else j
  }

  /** `s.strip()`: the infix of `s` that neither starts nor ends with whitespace,
      all of `s` before and after it being whitespace. */
  function Strip(s: string): (r: string)
    ensures var i := SkipSpaces(s, 0);
              && i + |r| <= |s|
              && r == s[i..i + |r|]
              && (forall k :: 0 <= k < i ==> IsSpace(s[k]))
              && (forall k :: i + |r| <= k < |s| ==> IsSpace(s[k]))
    ensures r == [] || (!IsSpace(r[0]) && !IsSpace(r[|r| - 1]))
  {
    var i := SkipSpaces(s, 0);
    s[i..SkipSpacesBack(s, i, |s|)]
  }

  /** Stripping leaves nothing exactly when the input is all whitespace. */
  lemma StripEmptyIffBlank(s: string)
    ensures Strip(s) == [] <==> IsBlank(s)
  {
    var i := SkipSpaces(s, 0);
    if Strip(s) != [] {
      assert s[i] == Strip(s)[0];
    }
  }

  /** Stripping an already stripped value changes nothing. */
  lemma StripIdempotent(s: string)
    ensures Strip(Strip(s)) == Strip(s)
  {
    var r := Strip(s);
    StripNoop(r);
  }

  /** A value with no whitespace at either end is its own strip. */
  lemma StripNoop(r: string)
    requires r == [] || (!IsSpace(r[0]) && !IsSpace(r[|r| - 1]))
    ensures Strip(r) == r
  {
    assert SkipSpaces(r, 0) == 0;
    assert SkipSpacesBack(r, 0, |r|) == |r|;
    assert r[0..|r|] == r;
  }
}
