/**
  String helpers used by the function registry. Case-insensitive keys and
  `to_lowercase` are modelled by ASCII lower-casing: full Unicode case
  folding is not part of this model.
 */
module Ascii {
  import opened Wrappers

  function LowerChar(c: char): char {
    if 'A' <= c <= 'Z' then (c as int + 32) as char else c
  }

  /** Every character of `s` is already lower case. */
  predicate IsLower(s: string) {
    forall i :: 0 <= i < |s| ==> LowerChar(s[i]) == s[i]
  }

  function ToLower(s: string): (r: string)
    ensures |r| == |s|
    ensures forall i :: 0 <= i < |s| ==> r[i] == LowerChar(s[i])
    ensures IsLower(r)
  {
    seq(|s|, i requires 0 <= i < |s| => LowerChar(s[i]))
  }

  /** Equality of keys up to case, as a case-insensitive map key compares them. */
  predicate EqualsIgnoreCase(a: string, b: string) {
    ToLower(a) == ToLower(b)
  }

  predicate EndsWith(s: string, suffix: string) {
    |suffix| <= |s| && s[|s| - |suffix|..] == suffix
  }

  /** `str::strip_suffix`: the part of `s` before `suffix`, when `s` ends with it. */
  function StripSuffix(s: string, suffix: string): (r: Option<string>)
    ensures r.Some? <==> EndsWith(s, suffix)
    ensures r.Some? ==> r.value + suffix == s
  {
    if EndsWith(s, suffix) then Some(s[..|s| - |suffix|]) else None
  }

  /** Stripping is the inverse of appending the suffix. */
  lemma StripAppended(p: string, suffix: string)
    ensures StripSuffix(p + suffix, suffix) == Some(p)
  {
    assert (p + suffix)[|p|..] == suffix;
    assert (p + suffix)[..|p|] == p;
  }

  /** A prefix of a lower-case string is lower case. */
  lemma PrefixOfLower(s: string, p: string)
    requires IsLower(s)
    requires p <= s
    ensures IsLower(p)
  {
    forall i | 0 <= i < |p|
      ensures LowerChar(p[i]) == p[i]
    {
      assert p[i] == s[i];
    }
  }
}
