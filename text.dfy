/** String helpers over `seq<char>`: `toLowerCase`, `includes` and the
    case-sensitive and case-insensitive substring searches that the source's
    regular expression and `String.prototype.replace` perform. */
module Text {
  import opened Base

  /** `toLowerCase` of one character, restricted to ASCII letters. */
  function LowerChar(c: char): (r: char)
    ensures 'A' <= c <= 'Z' ==> r as int == c as int + 32
    ensures !('A' <= c <= 'Z') ==> r == c
    ensures !('A' <= r <= 'Z')
  {
    if 'A' <= c <= 'Z' then (c as int + 32) as char else c
  }

  /** `s.toLowerCase()`, character by character. */
  function Lower(s: string): (r: string)
    ensures |r| == |s|
    ensures forall i :: 0 <= i < |s| ==> r[i] == LowerChar(s[i])
  {
    if s == [] then [] else [LowerChar(s[0])] + Lower(s[1..])
  }

  predicate IsLower(s: string)
  {
    forall i :: 0 <= i < |s| ==> !('A' <= s[i] <= 'Z')
  }

  lemma LowerIsLower(s: string)
    ensures IsLower(Lower(s))
    ensures Lower(Lower(s)) == Lower(s)
  {
  }

  /** Lowering neither adds nor removes a hyphen, so `tag.includes('-')`
      gives the same answer before and after `toLowerCase`. */
  lemma HyphenSurvivesLowering(s: string)
    ensures '-' in Lower(s) <==> '-' in s
  {
    if '-' in s {
      var i :| 0 <= i < |s| && s[i] == '-';
      assert Lower(s)[i] == '-';
    }
    if '-' in Lower(s) {
      var i :| 0 <= i < |s| && Lower(s)[i] == '-';
      assert s[i] == '-';
    }
  }

  /** Character equality, optionally up to ASCII case (the regular
      expression's `i` flag). */
  predicate SameChar(a: char, b: char, ignoreCase: bool)
  {
    if ignoreCase then LowerChar(a) == LowerChar(b) else a == b
  }

  /** `pat` occurs in `s` starting at index `i`. */
  predicate OccursAt(s: string, i: int, pat: string, ignoreCase: bool)
  {
    0 <= i && i + |pat| <= |s| &&
    forall j :: 0 <= j < |pat| ==> SameChar(s[i + j], pat[j], ignoreCase)
  }

  /** The leftmost occurrence of `pat` in `s` at or after `from`. */
  function IndexOf(s: string, pat: string, from: nat, ignoreCase: bool): (r: Option<nat>)
    decreases |s| - from
    ensures r.Some? ==> from <= r.value && OccursAt(s, r.value, pat, ignoreCase)
    ensures r.Some? ==> forall j :: from <= j < r.value ==> !OccursAt(s, j, pat, ignoreCase)
    ensures r.None? ==> forall j :: from <= j ==> !OccursAt(s, j, pat, ignoreCase)
  {
    if |s| < from + |pat| then None
    else if OccursAt(s, from, pat, ignoreCase) then Some(from)
    else IndexOf(s, pat, from + 1, ignoreCase)
  }
}
