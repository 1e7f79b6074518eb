/** Rearranging a stretch of a sequence: what in-place sorting may do to an array. */
module Rearrangement {

  // The cells [lo, hi) of t hold the elements of s in some order; every other cell is untouched.
  ghost predicate Rearranged<T>(s: seq<T>, t: seq<T>, lo: nat, hi: nat) {
    && lo <= hi <= |s| == |t|
    && s[..lo] == t[..lo]
    && s[hi..] == t[hi..]
    && multiset(s[lo..hi]) == multiset(t[lo..hi])
  }

  ghost function SwapAt<T>(s: seq<T>, i: nat, j: nat): seq<T>
    requires i < |s| && j < |s|
  {
    s[i := s[j]][j := s[i]]
  }

  lemma SwapMultiset<T>(s: seq<T>, i: nat, j: nat)
    requires i < |s| && j < |s|
    ensures multiset(SwapAt(s, i, j)) == multiset(s)
  {
  }

  lemma SwapRearranges<T>(s: seq<T>, i: nat, j: nat, lo: nat, hi: nat)
    requires lo <= i < hi <= |s| && lo <= j < hi
    ensures Rearranged(s, SwapAt(s, i, j), lo, hi)
  {
    var t := SwapAt(s, i, j);
    assert t[lo..hi] == SwapAt(s[lo..hi], i - lo, j - lo);
    SwapMultiset(s[lo..hi], i - lo, j - lo);
  }

  lemma RearrangedReflexive<T>(s: seq<T>, lo: nat, hi: nat)
    requires lo <= hi <= |s|
    ensures Rearranged(s, s, lo, hi)
  {
  }

  lemma RearrangedTransitive<T>(s: seq<T>, t: seq<T>, u: seq<T>, lo: nat, hi: nat)
    requires Rearranged(s, t, lo, hi) && Rearranged(t, u, lo, hi)
    ensures Rearranged(s, u, lo, hi)
  {
  }

  lemma RearrangedWidens<T>(s: seq<T>, t: seq<T>, lo: nat, hi: nat, lo': nat, hi': nat)
    requires Rearranged(s, t, lo, hi) && lo' <= lo && hi <= hi' <= |s|
    ensures Rearranged(s, t, lo', hi')
  {
    assert s[lo'..hi'] == s[lo'..lo] + s[lo..hi] + s[hi..hi'];
    assert t[lo'..hi'] == t[lo'..lo] + t[lo..hi] + t[hi..hi'];
    assert s[lo'..lo] == s[..lo][lo'..] == t[..lo][lo'..] == t[lo'..lo];
    assert s[hi..hi'] == s[hi..][..hi' - hi] == t[hi..][..hi' - hi] == t[hi..hi'];
    assert s[..lo'] == s[..lo][..lo'] == t[..lo][..lo'] == t[..lo'];
    assert s[hi'..] == s[hi..][hi' - hi..] == t[hi..][hi' - hi..] == t[hi'..];
  }

  // Every element found in the stretch afterwards was somewhere in it before.
  lemma RearrangedOrigin<T>(s: seq<T>, t: seq<T>, lo: nat, hi: nat, p: nat) returns (p': nat)
    requires Rearranged(s, t, lo, hi) && lo <= p < hi
    ensures lo <= p' < hi && s[p'] == t[p]
  {
    assert t[p] == t[lo..hi][p - lo];
    assert t[p] in multiset(t[lo..hi]);
    assert t[p] in s[lo..hi];
    var k :| 0 <= k < hi - lo && s[lo..hi][k] == t[p];
    p' := lo + k;
  }

  lemma RearrangedOutside<T>(s: seq<T>, t: seq<T>, lo: nat, hi: nat, p: nat)
    requires Rearranged(s, t, lo, hi) && p < |s| && (p < lo || hi <= p)
    ensures s[p] == t[p]
  {
    if p < lo {
      assert s[p] == s[..lo][p];
    } else {
      assert s[p] == s[hi..][p - hi];
    }
  }
}
