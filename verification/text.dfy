/** String helpers the proxy takes from Go's `strings` package:
    `strings.TrimSpace` and the first field of `strings.Split(s, ",")`. */
module Text {

  /** Go's `unicode.IsSpace`: the Latin-1 spaces plus the Unicode White_Space property. */
  predicate IsSpace(c: char) {
    || c == '\t' || c == '\n' || c == '\U{000B}' || c == '\U{000C}' || c == '\r' || c == ' '
    || c == '\U{0085}' || c == '\U{00A0}' || c == '\U{1680}'
    || ('\U{2000}' <= c <= '\U{200A}')
    || c == '\U{2028}' || c == '\U{2029}' || c == '\U{202F}' || c == '\U{205F}' || c == '\U{3000}'
  }

  /** Drops the leading spaces of `s`; what remains is a suffix that starts with a non-space. */
  function TrimLeft(s: string): (r: string)
    ensures |r| <= |s| && r == s[|s| - |r|..]
    ensures forall i :: 0 <= i < |s| - |r| ==> IsSpace(s[i])
    ensures r == [] || !IsSpace(r[0])
  {
    if s != [] && IsSpace(s[0]) then TrimLeft(s[1..]) else s
  }

  /** Drops the trailing spaces of `s`; what remains is a prefix that ends with a non-space. */
  function TrimRight(s: string): (r: string)
    ensures |r| <= |s| && r == s[..|r|]
    ensures forall i :: |r| <= i < |s| ==> IsSpace(s[i])
    ensures r == [] || !IsSpace(r[|r| - 1])
  {
    if s != [] && IsSpace(s[|s| - 1]) then TrimRight(s[..|s| - 1]) else s
  }

  /** `r` is `s` with `start` leading and some trailing spaces cut off, and has no space at either end. */
  predicate IsTrimmedAt(s: string, r: string, start: nat) {
    && start + |r| <= |s|
    && r == s[start..start + |r|]
    && (forall i :: 0 <= i < start ==> IsSpace(s[i]))
    && (forall i :: start + |r| <= i < |s| ==> IsSpace(s[i]))
    && (r == [] || (!IsSpace(r[0]) && !IsSpace(r[|r| - 1])))
  }

  /** Trimming the left end and then the right end cuts `s` down to a trimmed middle. */
  lemma TrimmedInTwoSteps(s: string, left: string, r: string)
    requires |left| <= |s| && left == s[|s| - |left|..]
    requires forall i :: 0 <= i < |s| - |left| ==> IsSpace(s[i])
    requires left == [] || !IsSpace(left[0])
    requires |r| <= |left| && r == left[..|r|]
    requires forall i :: |r| <= i < |left| ==> IsSpace(left[i])
    requires r == [] || !IsSpace(r[|r| - 1])
    ensures IsTrimmedAt(s, r, |s| - |left|)
  {
    var start := |s| - |left|;
    assert r == s[start..start + |r|];
    assert forall i :: start + |r| <= i < |s| ==> s[i] == left[i - start];
  }

  /** Go's `strings.TrimSpace`. */
  function TrimSpace(s: string): (r: string)
    ensures exists start: nat :: IsTrimmedAt(s, r, start)
  {
    var left := TrimLeft(s);
    var r := TrimRight(left);
    TrimmedInTwoSteps(s, left, r);
    r
  }

  /** The first element of Go's `strings.Split(s, ",")`: everything before the first comma,
      or the whole string when it has none. */
  function FirstField(s: string): (r: string)
    ensures |r| <= |s| && r == s[..|r|]
    ensures ',' !in r
    ensures |r| == |s| || s[|r|] == ','
  {
    if s == [] || s[0] == ',' then [] else [s[0]] + FirstField(s[1..])
  }

  /** The first field is pinned down by the position of the first comma. */
  lemma FirstFieldUpTo(s: string, k: nat)
    requires k <= |s| && ',' !in s[..k] && (k == |s| || s[k] == ',')
    ensures FirstField(s) == s[..k]
  {
  }
}
