/**
 * The C string library calls the search relies on, over `string`:
 * `strstr` (substring search) and `strncmp(s, p, strlen(p)) == 0`
 * (prefix test).  A `char` stands for one byte of a C string; no
 * string here contains the terminating NUL.
 */
module Text {
  import opened Wrappers

  /** `needle` occurs in `hay` starting at offset `k`. */
  predicate OccursAt(needle: string, hay: string, k: nat) {
    k + |needle| <= |hay| && hay[k..k + |needle|] == needle
  }

  /** `needle` is a contiguous substring of `hay` (the empty string is one of every string). */
  ghost predicate IsSubstring(needle: string, hay: string) {
    exists k: nat :: OccursAt(needle, hay, k)
  }

  /** The scan behind `strstr`: the first offset at or after `from` where `needle` occurs. */
  function FindFrom(hay: string, needle: string, from: nat): (r: Option<nat>)
    decreases |hay| - from
    ensures r.Some? ==> from <= r.value && OccursAt(needle, hay, r.value)
    ensures r.Some? ==> forall k: nat :: from <= k < r.value ==> !OccursAt(needle, hay, k)
    ensures r.None? ==> forall k: nat :: from <= k ==> !OccursAt(needle, hay, k)
  {
    if from + |needle| > |hay| then None
    else if hay[from..from + |needle|] == needle then Some(from)
    else FindFrom(hay, needle, from + 1)
  }

  /** `strstr(hay, needle)`: the offset of the first occurrence, or None for NULL. */
  function Strstr(hay: string, needle: string): (r: Option<nat>)
    ensures r.Some? <==> IsSubstring(needle, hay)
    ensures r.Some? ==> OccursAt(needle, hay, r.value)
    ensures r.Some? ==> forall k: nat :: k < r.value ==> !OccursAt(needle, hay, k)
  {
    var r := FindFrom(hay, needle, 0);
    if r.Some? then r else
      assert !IsSubstring(needle, hay) by {
        forall k: nat ensures !OccursAt(needle, hay, k) { }
      }
      r
  }

  /** `strstr(hay, needle) != NULL`. */
  function Contains(hay: string, needle: string): (b: bool)
    ensures b <==> IsSubstring(needle, hay)
  {
    Strstr(hay, needle).Some?
  }

  /** `strncmp(s, prefix, strlen(prefix)) == 0`: the comparison stops at the
      end of `prefix` and fails where `s` ends first. */
  function HasPrefix(s: string, prefix: string): (b: bool)
    ensures b <==> |prefix| <= |s| && forall i :: 0 <= i < |prefix| ==> s[i] == prefix[i]
  {
    |prefix| <= |s| && s[..|prefix|] == prefix
  }

  /** The empty string is found at offset 0 of every string: `strstr(s, "")` is `s`. */
  lemma EmptyNeedleAlwaysFound(hay: string)
    ensures Strstr(hay, "") == Some(0)
  {
    assert OccursAt("", hay, 0);
  }

  /** A substring of a substring is a substring (a name containing an excluded
      word keeps containing it inside any longer name). */
  lemma {:induction false} SubstringOfExtension(needle: string, hay: string, pre: string, post: string)
    requires IsSubstring(needle, hay)
    ensures IsSubstring(needle, pre + hay + post)
  {
    var k: nat :| OccursAt(needle, hay, k);
    var big := pre + hay + post;
    assert big[|pre| + k..|pre| + k + |needle|] == hay[k..k + |needle|];
    assert OccursAt(needle, big, |pre| + k);
  }
}
