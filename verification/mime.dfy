/** Canonical MIME header keys, as Go's `textproto.CanonicalMIMEHeaderKey` computes them:
    the first letter and every letter after a hyphen upper-case, all other letters lower-case.
    A key holding a byte that may not appear in a header field name is left as it is. */
module Mime {

  /** A character allowed in an HTTP header field name (a `token` in RFC 7230). */
  predicate IsTokenChar(c: char) {
    || ('a' <= c <= 'z') || ('A' <= c <= 'Z') || ('0' <= c <= '9')
    || c == '!' || c == '#' || c == '$' || c == '%' || c == '&' || c == '\'' || c == '*'
    || c == '+' || c == '-' || c == '.' || c == '^' || c == '_' || c == '`' || c == '|' || c == '~'
  }

  predicate IsToken(key: string) {
    forall i :: 0 <= i < |key| ==> IsTokenChar(key[i])
  }

  function ToUpper(c: char): char {
    if 'a' <= c <= 'z' then (c as int - 32) as char else c
  }

  function ToLower(c: char): char {
    if 'A' <= c <= 'Z' then (c as int + 32) as char else c
  }

  /** The case mapping applied to one character: `upper` holds at the start of the key
      and right after a hyphen. */
  function CaseAt(c: char, upper: bool): char {
    if upper then ToUpper(c) else ToLower(c)
  }

  function CanonicalFrom(s: string, upper: bool): (r: string)
    ensures |r| == |s|
  {
    if s == [] then [] else
      var c := CaseAt(s[0], upper);
      [c] + CanonicalFrom(s[1..], c == '-')
  }

  /** Go's `textproto.CanonicalMIMEHeaderKey`. */
  function Canonical(key: string): (r: string)
    ensures |r| == |key|
  {
    if IsToken(key) then CanonicalFrom(key, true) else key
  }

  /** `s` is left unchanged by the case mapping when it starts in state `upper`,
      stated character by character. */
  predicate FixedFrom(s: string, upper: bool) {
    && IsToken(s)
    && (|s| > 0 ==> CaseAt(s[0], upper) == s[0])
    && forall i :: 0 < i < |s| ==> CaseAt(s[i], s[i - 1] == '-') == s[i]
  }

  /** A key already in canonical form. */
  predicate IsCanonical(key: string) {
    FixedFrom(key, true)
  }

  lemma FixedFromConcat(a: string, b: string, upper: bool)
    requires FixedFrom(a, upper)
    requires FixedFrom(b, if a == [] then upper else a[|a| - 1] == '-')
    ensures FixedFrom(a + b, upper)
  {
    var s := a + b;
    forall i | 0 < i < |s|
      ensures CaseAt(s[i], s[i - 1] == '-') == s[i]
    {
      if i > |a| {
        assert s[i] == b[i - |a|] && s[i - 1] == b[i - 1 - |a|];
      }
    }
  }

  lemma {:induction false} CanonicalFromFixed(s: string, upper: bool)
    requires FixedFrom(s, upper)
    ensures CanonicalFrom(s, upper) == s
    decreases |s|
  {
    if s != [] {
      var t := s[1..];
      assert forall i :: 0 < i < |t| ==> t[i] == s[i + 1] && t[i - 1] == s[i];
      CanonicalFromFixed(t, s[0] == '-');
    }
  }

  lemma {:induction false} FixedFromCanonical(s: string, upper: bool)
    requires IsToken(s) && CanonicalFrom(s, upper) == s
    ensures FixedFrom(s, upper)
    decreases |s|
  {
    if s != [] {
      var t := s[1..];
      assert CanonicalFrom(s, upper) == [CaseAt(s[0], upper)] + CanonicalFrom(t, CaseAt(s[0], upper) == '-');
      assert CaseAt(s[0], upper) == s[0];
      assert CanonicalFrom(t, s[0] == '-') == t;
      assert IsToken(t);
      FixedFromCanonical(t, s[0] == '-');
      assert FixedFrom([s[0]], upper);
      FixedFromConcat([s[0]], t, upper);
      assert [s[0]] + t == s;
    }
  }

  /** Among valid field names, `Canonical` leaves exactly the canonical keys unchanged. */
  lemma CanonicalFixesCanonical(key: string)
    ensures IsCanonical(key) ==> Canonical(key) == key
    ensures IsToken(key) && Canonical(key) == key ==> IsCanonical(key)
  {
    if IsCanonical(key) {
      CanonicalFromFixed(key, true);
    }
    if IsToken(key) && Canonical(key) == key {
      FixedFromCanonical(key, true);
    }
  }

  /** Two keys that differ only in the case of ASCII letters. */
  predicate EqualFold(a: string, b: string) {
    |a| == |b| && forall i :: 0 <= i < |a| ==> ToLower(a[i]) == ToLower(b[i])
  }

  lemma {:induction false} CanonicalFromIdempotent(s: string, upper: bool)
    ensures CanonicalFrom(CanonicalFrom(s, upper), upper) == CanonicalFrom(s, upper)
    decreases |s|
  {
    if s != [] {
      var c := CaseAt(s[0], upper);
      var r := CanonicalFrom(s, upper);
      assert r[0] == c && r[1..] == CanonicalFrom(s[1..], c == '-');
      assert CaseAt(c, upper) == c;
      CanonicalFromIdempotent(s[1..], c == '-');
    }
  }

  lemma {:induction false} CanonicalFromKeepsToken(s: string, upper: bool)
    requires IsToken(s)
    ensures IsToken(CanonicalFrom(s, upper))
    decreases |s|
  {
    if s != [] {
      var c := CaseAt(s[0], upper);
      assert IsTokenChar(s[0]);
      assert IsToken(s[1..]);
      CanonicalFromKeepsToken(s[1..], c == '-');
      var r := CanonicalFrom(s, upper);
      assert r == [c] + CanonicalFrom(s[1..], c == '-');
      forall i | 0 <= i < |r|
        ensures IsTokenChar(r[i])
      {
        if i > 0 {
          assert r[i] == CanonicalFrom(s[1..], c == '-')[i - 1];
        }
      }
    }
  }

  /** Canonicalising twice is canonicalising once, so `Add` and `Del` store and look up
      the same key whatever spelling the caller used. */
  lemma CanonicalIdempotent(key: string)
    ensures Canonical(Canonical(key)) == Canonical(key)
  {
    if IsToken(key) {
      CanonicalFromKeepsToken(key, true);
      CanonicalFromIdempotent(key, true);
    }
  }

  lemma {:induction false} CanonicalFromEqualFold(a: string, b: string, upper: bool)
    requires EqualFold(a, b)
    ensures CanonicalFrom(a, upper) == CanonicalFrom(b, upper)
    decreases |a|
  {
    if a != [] {
      assert ToLower(a[0]) == ToLower(b[0]);
      assert CaseAt(a[0], upper) == CaseAt(b[0], upper);
      assert EqualFold(a[1..], b[1..]) by {
        forall i | 0 <= i < |a| - 1
          ensures ToLower(a[1..][i]) == ToLower(b[1..][i])
        {
          assert a[1..][i] == a[i + 1] && b[1..][i] == b[i + 1];
        }
      }
      CanonicalFromEqualFold(a[1..], b[1..], CaseAt(a[0], upper) == '-');
    }
  }

  lemma EqualFoldKeepsToken(a: string, b: string)
    requires EqualFold(a, b)
    ensures IsToken(a) <==> IsToken(b)
  {
    forall i | 0 <= i < |a|
      ensures IsTokenChar(a[i]) <==> IsTokenChar(b[i])
    {
      assert ToLower(a[i]) == ToLower(b[i]);
    }
  }

  /** Header keys are case-insensitive: keys that differ only in letter case
      share one canonical form, provided they are valid field names. */
  lemma CanonicalIgnoresCase(a: string, b: string)
    requires EqualFold(a, b) && IsToken(a)
    ensures Canonical(a) == Canonical(b)
  {
    EqualFoldKeepsToken(a, b);
    CanonicalFromEqualFold(a, b, true);
  }
}
