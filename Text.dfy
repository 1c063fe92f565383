/** Character-level rules the views apply to form and JSON input: Python's
    whitespace (what `str.strip()` removes) and upper-casing of the section
    field (`str.upper()`, modelled on ASCII letters). */
module Text {

  /** The characters for which Python's `str.isspace()` holds; these are
      exactly the characters `str.strip()` removes from both ends. */
  predicate IsSpace(c: char) {
    || ('\t' <= c <= '\r')
    || ('\U{1C}' <= c <= '\U{1F}')
    || c == ' '
    || c == '\U{85}'
    || c == '\U{A0}'
    || c == '\U{1680}'
    || ('\U{2000}' <= c <= '\U{200A}')
    || c == '\U{2028}'
    || c == '\U{2029}'
    || c == '\U{202F}'
    || c == '\U{205F}'
    || c == '\U{3000}'
  }

  /** `s` without its leading whitespace: a suffix of `s` that does not start
      with whitespace, everything dropped being whitespace. */
  function StripLeading(s: string): (r: string)
    ensures |r| <= |s| && r == s[|s| - |r|..]
    ensures r == [] || !IsSpace(r[0])
    ensures forall i :: 0 <= i < |s| - |r| ==> IsSpace(s[i])
  {
    if s == [] || !IsSpace(s[0]) then s else StripLeading(s[1..])
  }

  /** `s` without its trailing whitespace: a prefix of `s` that does not end
      with whitespace, everything dropped being whitespace. */
  function StripTrailing(s: string): (r: string)
    ensures |r| <= |s| && r == s[..|r|]
    ensures r == [] || !IsSpace(r[|r| - 1])
    ensures forall i :: |r| <= i < |s| ==> IsSpace(s[i])
  {
    if s == [] || !IsSpace(s[|s| - 1]) then s else StripTrailing(s[..|s| - 1])
  }

  /** Python's `s.strip()`: it neither starts nor ends with whitespace. */
  function Strip(s: string): (r: string)
    ensures |r| <= |s|
    ensures r == [] || (!IsSpace(r[0]) && !IsSpace(r[|r| - 1]))
  {
    StripTrailing(StripLeading(s))
  }

  /** The stripped string is the slice of `s` that starts after the leading
      whitespace: a prefix of what follows it. */
  lemma StripIsSlice(s: string)
    ensures Strip(s) <= s[|s| - |StripLeading(s)|..]
  {
    var l := StripLeading(s);
    PrefixOfSuffix(s, l, StripTrailing(l));
  }

  /** Everything outside that slice is whitespace. */
  lemma StripDropsOnlySpace(s: string)
    ensures forall i :: 0 <= i < |s| - |StripLeading(s)| ==> IsSpace(s[i])
    ensures forall i :: |s| - |StripLeading(s)| + |Strip(s)| <= i < |s| ==> IsSpace(s[i])
  {
    var l := StripLeading(s);
    PrefixOfSuffix(s, l, StripTrailing(l));
  }

  /** A prefix `r` of a suffix `l` of `s` is a slice of `s`, and whitespace
      after `r` in `l` is whitespace in `s`. */
  lemma PrefixOfSuffix(s: string, l: string, r: string)
    requires |l| <= |s| && l == s[|s| - |l|..]
    requires |r| <= |l| && r == l[..|r|]
    requires forall j :: |r| <= j < |l| ==> IsSpace(l[j])
    ensures var d := |s| - |l|;
            && r == s[d..d + |r|]
            && forall i :: d + |r| <= i < |s| ==> IsSpace(s[i])
  {
    var d := |s| - |l|;
    forall i | d + |r| <= i < |s|
      ensures IsSpace(s[i])
    {
      assert s[i] == l[i - d];
    }
  }

  /** Every character of `s` is whitespace (the empty string included). */
  predicate Blank(s: string) {
    forall i :: 0 <= i < |s| ==> IsSpace(s[i])
  }

  /** A string with a non-whitespace character keeps it through both strips. */
  lemma StripKeeps(s: string, i: nat)
    requires i < |s| && !IsSpace(s[i])
    ensures Strip(s) != []
  {
    var l := StripLeading(s);
    assert i >= |s| - |l|;
    assert l[i - (|s| - |l|)] == s[i];
    assert StripTrailing(l) != [];
  }

  /** The test `not s or s.strip() == ""` that the views apply to a title or a
      username holds exactly for the blank strings. */
  lemma MissingIffBlank(s: string)
    ensures (s == [] || Strip(s) == []) <==> Blank(s)
  {
    if !Blank(s) {
      var i :| 0 <= i < |s| && !IsSpace(s[i]);
      StripKeeps(s, i);
    }
  }

  function UpperChar(c: char): char {
    if 'a' <= c <= 'z' then (c as int - 32) as char else c
  }

  /** Python's `s.upper()` on ASCII: every lower-case letter becomes its
      capital and every other character is kept. */
  function Upper(s: string): (r: string)
    ensures |r| == |s|
    ensures forall i :: 0 <= i < |r| ==> !('a' <= r[i] <= 'z')
    ensures forall i :: 0 <= i < |r| ==>
      if 'a' <= s[i] <= 'z' then 'A' <= r[i] <= 'Z' && r[i] as int == s[i] as int - 32 else r[i] == s[i]
  {
    seq(|s|, i requires 0 <= i < |s| => UpperChar(s[i]))
  }

  /** Upper-casing twice is upper-casing once, so a section that was stored
      upper-cased is unchanged by the next `upper()`. */
  lemma UpperIdempotent(s: string)
    ensures Upper(Upper(s)) == Upper(s)
  {
  }
}
