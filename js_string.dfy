/**
 * The two String.prototype methods the link rewriter calls: startsWith, and
 * replace with a string pattern and an empty replacement, which removes the
 * FIRST occurrence of the pattern wherever it is (not only at the front).
 *
 * The patterns used are ASCII, so working on code points rather than
 * UTF-16 code units changes neither the test nor the resulting string.
 */
module JsString {
  import opened Options

  /** `s.startsWith(prefix)`: the characters of `prefix` open `s`, one by one. */
  predicate StartsWith(s: string, prefix: string)
    ensures StartsWith(s, prefix) <==> |prefix| <= |s| && forall i :: 0 <= i < |prefix| ==> s[i] == prefix[i]
  {
    |prefix| <= |s| && s[..|prefix|] == prefix
  }

  /** `pat` occurs in `s` at index `i`. */
  predicate OccursAt(s: string, pat: string, i: nat)
  {
    i + |pat| <= |s| && s[i..i + |pat|] == pat
  }

  /** `s.indexOf(pat, from)`, as None when `pat` does not occur at or after `from`. */
  function IndexOf(s: string, pat: string, from: nat): (r: Option<nat>)
    requires from <= |s|
    ensures r.Some? ==> from <= r.value && OccursAt(s, pat, r.value)
    ensures forall j :: from <= j && (r.None? || j < r.value) ==> !OccursAt(s, pat, j)
    decreases |s| - from
  {
    if OccursAt(s, pat, from) then Some(from)
    else if from + |pat| >= |s| then None
    else IndexOf(s, pat, from + 1)
  }

  /**
   * `s.replace(pat, '')`: the first occurrence of `pat` cut out, or `s`
   * itself when there is none. Putting the pattern back where it was cut
   * gives `s` again.
   */
  function RemoveFirst(s: string, pat: string): (r: string)
    ensures IndexOf(s, pat, 0).None? ==> r == s
    ensures IndexOf(s, pat, 0).Some? ==>
      var i := IndexOf(s, pat, 0).value;
      |r| == |s| - |pat| && i <= |r| && r[..i] + pat + r[i..] == s
  {
    match IndexOf(s, pat, 0)
    case None => s
    case Some(i) => s[..i] + s[i + |pat|..]
  }

  /** When `s` starts with the pattern, replace strips exactly that prefix. */
  lemma RemovePrefix(s: string, pat: string)
    ensures StartsWith(s, pat) ==> RemoveFirst(s, pat) == s[|pat|..]
  {
    if StartsWith(s, pat) {
      assert OccursAt(s, pat, 0);
      assert s[..0] + s[|pat|..] == s[|pat|..];
    }
  }

  /** A string starts with whatever it was built from at the front. */
  lemma StartsWithConcat(a: string, b: string, prefix: string)
    requires StartsWith(a, prefix)
    ensures StartsWith(a + b, prefix)
  {
    assert (a + b)[..|prefix|] == a[..|prefix|];
  }

  lemma StartsWithSelf(a: string, b: string)
    ensures StartsWith(a + b, a)
  {
    assert (a + b)[..|a|] == a;
  }

  lemma StartsWithTrans(s: string, p: string, q: string)
    requires StartsWith(s, p) && StartsWith(p, q)
    ensures StartsWith(s, q)
  {
    assert s[..|q|] == s[..|p|][..|q|];
  }

  /** What is left after a prefix is what followed it. */
  lemma DropPrefix(a: string, b: string)
    ensures (a + b)[|a|..] == b
  {
  }
}
