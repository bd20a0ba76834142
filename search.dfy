/** First-match search, the lookup rule shared by the C++ key, tensor and architecture searches. */
module Search {

  /** The least index i with s[i] == x, or -1 when x does not occur in s. */
  function FirstIndex<T(==)>(s: seq<T>, x: T): (r: int)
    ensures -1 <= r < |s|
    ensures r == -1 <==> x !in s
    ensures r >= 0 ==> s[r] == x && x !in s[..r]
    decreases |s|
  {
    if |s| == 0 then -1
    else if s[0] == x then 0
    else
      var k := FirstIndex(s[1..], x);
      assert s[1..][..k + 1] == s[1..k + 2] by { if k >= 0 {} }
      if k == -1 then -1 else k + 1
  }

  /** An index whose element is x, with no x before it, is the first match. */
  lemma {:induction false} FirstIndexAt<T>(s: seq<T>, x: T, i: nat)
    requires i < |s| && s[i] == x && x !in s[..i]
    ensures FirstIndex(s, x) == i
    decreases i
  {
    if i > 0 {
      assert s[..i] == [s[0]] + s[1..][..i - 1];
      FirstIndexAt(s[1..], x, i - 1);
    }
  }

  /** When the elements are pairwise distinct, the first match of s[i] is i itself. */
  lemma FirstIndexOfDistinct<T>(s: seq<T>, i: nat)
    requires i < |s|
    requires forall j, k :: 0 <= j < k < |s| ==> s[j] != s[k]
    ensures FirstIndex(s, s[i]) == i
  {
    forall j | 0 <= j < i
      ensures s[..i][j] != s[i]
    {
    }
    FirstIndexAt(s, s[i], i);
  }
}
