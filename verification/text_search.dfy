/** PHP's `stripos` over characters: the first position of a needle in a haystack,
    comparing under ASCII case folding (only 'A'..'Z' are folded). Positions are
    character indices, not the byte offsets PHP reports. */
module TextSearch {
  import opened Wrappers

  /** ASCII case folding of one character. */
  function Lower(c: char): char {
    if 'A' <= c <= 'Z' then (c as int + 32) as char else c
  }

  /** ASCII case folding of a whole string. */
  function LowerStr(s: string): string {
    seq(|s|, k requires 0 <= k < |s| => Lower(s[k]))
  }

  /** The needle occurs in the haystack at position i, ignoring ASCII case. */
  predicate MatchesAt(hay: string, needle: string, i: int) {
    0 <= i && i + |needle| <= |hay| &&
    forall k :: 0 <= k < |needle| ==> Lower(hay[i + k]) == Lower(needle[k])
  }

  /** The search from position `from` onwards: the first match, or None when there is none. */
  function StriposFrom(hay: string, needle: string, from: nat): (r: Option<nat>)
    decreases |hay| - from
    ensures r.Some? ==> from <= r.value && MatchesAt(hay, needle, r.value)
    ensures r.Some? ==> forall j :: from <= j < r.value ==> !MatchesAt(hay, needle, j)
    ensures r.None? ==> forall j :: from <= j ==> !MatchesAt(hay, needle, j)
  {
    if from + |needle| > |hay| then None
    else if MatchesAt(hay, needle, from) then Some(from)
    else StriposFrom(hay, needle, from + 1)
  }

  /** `stripos($hay, $needle)`; None stands for PHP's `false`. */
  function Stripos(hay: string, needle: string): (r: Option<nat>)
    ensures r.Some? <==> exists j :: MatchesAt(hay, needle, j)
    ensures r.Some? ==> MatchesAt(hay, needle, r.value)
    ensures r.Some? ==> forall j :: 0 <= j < r.value ==> !MatchesAt(hay, needle, j)
  {
    StriposFrom(hay, needle, 0)
  }

  /** The two strings are equal once ASCII case is folded. */
  predicate FoldEqual(a: string, b: string) {
    |a| == |b| && forall j :: 0 <= j < |a| ==> Lower(a[j]) == Lower(b[j])
  }

  lemma FoldEqualOfLowerStr(a: string, b: string)
    requires LowerStr(a) == LowerStr(b)
    ensures FoldEqual(a, b)
  {
    assert |a| == |LowerStr(a)| == |b|;
    forall j | 0 <= j < |a|
      ensures Lower(a[j]) == Lower(b[j])
    {
      assert LowerStr(a)[j] == LowerStr(b)[j];
    }
  }

  /** Haystacks equal up to ASCII case have the needle at the same positions. */
  lemma MatchesAtFoldEqual(a: string, b: string, needle: string, i: int)
    requires FoldEqual(a, b)
    ensures MatchesAt(a, needle, i) <==> MatchesAt(b, needle, i)
  {
  }

  /** Two haystacks with the same match positions give the same search answer. */
  lemma StriposFromSameMatches(a: string, b: string, needle: string, from: nat)
    requires forall j :: MatchesAt(a, needle, j) <==> MatchesAt(b, needle, j)
    ensures StriposFrom(a, needle, from) == StriposFrom(b, needle, from)
  {
  }

  /** The search is case-insensitive: haystacks that agree after ASCII folding give the
      same answer. */
  lemma StriposCaseInsensitive(a: string, b: string, needle: string)
    requires LowerStr(a) == LowerStr(b)
    ensures Stripos(a, needle) == Stripos(b, needle)
  {
    FoldEqualOfLowerStr(a, b);
    forall j
      ensures MatchesAt(a, needle, j) <==> MatchesAt(b, needle, j)
    {
      MatchesAtFoldEqual(a, b, needle, j);
    }
    StriposFromSameMatches(a, b, needle, 0);
  }
}
