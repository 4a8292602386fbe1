/** Optional values, used for lookups that may find nothing. */
module Wrappers {
  datatype Option<+T> = None | Some(value: T)
}

/**
 * The few JavaScript string operations the front end relies on:
 * `startsWith`, `indexOf` and `replace` with a plain string pattern.
 */
module Strings {
  import opened Wrappers

  /** `pat` occurs in `text` starting at index `k`. */
  predicate OccursAt(text: string, pat: string, k: int) {
    0 <= k && k + |pat| <= |text| && text[k..k + |pat|] == pat
  }

  /** `String.prototype.startsWith(prefix)`. */
  predicate StartsWith(s: string, prefix: string) {
    OccursAt(s, prefix, 0)
  }

  /** `k` is the leftmost index at which `pat` occurs in `text`. */
  predicate IsFirstOccurrence(text: string, pat: string, k: int) {
    OccursAt(text, pat, k) && forall j :: 0 <= j < k ==> !OccursAt(text, pat, j)
  }

  /** `text.indexOf(pat, from)`, with `None` for -1. */
  function IndexFrom(text: string, pat: string, from: nat): (r: Option<nat>)
    ensures r.Some? ==> from <= r.value && OccursAt(text, pat, r.value)
    ensures r.Some? ==> forall j :: from <= j < r.value ==> !OccursAt(text, pat, j)
    ensures r.None? ==> forall j :: from <= j ==> !OccursAt(text, pat, j)
    decreases |text| - from
  {
    if from + |pat| > |text| then None
    else if OccursAt(text, pat, from) then Some(from)
    else IndexFrom(text, pat, from + 1)
  }

  /** `text.indexOf(pat)`: the first occurrence, if there is one. */
  function IndexOf(text: string, pat: string): (r: Option<nat>)
    ensures r.Some? ==> IsFirstOccurrence(text, pat, r.value)
    ensures r.None? <==> forall j :: !OccursAt(text, pat, j)
  {
    IndexFrom(text, pat, 0)
  }

  /**
   * `text.replace(pat, rep)` with a string pattern: only the leftmost
   * occurrence of `pat` is replaced, and `text` is returned as it is when
   * `pat` does not occur.
   */
  function ReplaceFirst(text: string, pat: string, rep: string): (r: string)
    ensures (forall j :: !OccursAt(text, pat, j)) ==> r == text
    ensures forall k :: IsFirstOccurrence(text, pat, k) ==>
              r == text[..k] + rep + text[k + |pat|..]
  {
    match IndexOf(text, pat)
    case None => text
    case Some(k) =>
      assert forall k' :: IsFirstOccurrence(text, pat, k') ==> k' == k by {
        forall k' | IsFirstOccurrence(text, pat, k') ensures k' == k {
          FirstOccurrenceUnique(text, pat, k', k);
        }
      }
      text[..k] + rep + text[k + |pat|..]
  }

  /**
   * An occurrence of `pat` that lies wholly after the first one survives
   * the replacement, shifted by the difference in length.
   */
  lemma LaterOccurrenceSurvives(text: string, pat: string, rep: string, k: nat, m: nat)
    requires IsFirstOccurrence(text, pat, k)
    requires OccursAt(text, pat, m) && k + |pat| <= m
    ensures OccursAt(ReplaceFirst(text, pat, rep), pat, m - |pat| + |rep|)
  {
    SpliceKeepsLaterOccurrence(text, pat, rep, k, m);
  }

  lemma SpliceKeepsLaterOccurrence(text: string, pat: string, rep: string, k: nat, m: nat)
    requires OccursAt(text, pat, m) && k + |pat| <= m
    ensures OccursAt(text[..k] + rep + text[k + |pat|..], pat, m - |pat| + |rep|)
  {
    var tail := text[k + |pat|..];
    var r := text[..k] + rep + tail;
    var m' := m - |pat| + |rep|;
    forall i | 0 <= i < |pat|
      ensures r[m' + i] == pat[i]
    {
      assert r[m' + i] == tail[m - k - |pat| + i];
      assert text[m..m + |pat|][i] == pat[i];
    }
    assert r[m'..m' + |pat|] == pat;
  }

  /** The replacement at a known first occurrence. */
  lemma ReplaceFirstAt(text: string, pat: string, rep: string, k: nat)
    requires IsFirstOccurrence(text, pat, k)
    ensures ReplaceFirst(text, pat, rep) == text[..k] + rep + text[k + |pat|..]
  {
  }

  /** The first occurrence of a pattern is unique. */
  lemma FirstOccurrenceUnique(text: string, pat: string, k1: int, k2: int)
    requires IsFirstOccurrence(text, pat, k1) && IsFirstOccurrence(text, pat, k2)
    ensures k1 == k2
  {
  }
}
