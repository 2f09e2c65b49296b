/** Texts that agree up to some position. */
module Texts {

  lemma SplitLast<T>(s: seq<T>)
    requires s != []
    ensures s == s[..|s| - 1] + [s[|s| - 1]]
  {
  }

  lemma SamePart(s: string, s': string, e: nat, lo: nat, hi: nat)
    requires e <= |s| && e <= |s'| && s[..e] == s'[..e] && lo <= hi <= e
    ensures s[lo..hi] == s'[lo..hi]
  {
    SameChars(s, s', e);
    forall i | 0 <= i < hi - lo
      ensures s[lo..hi][i] == s'[lo..hi][i]
    {
      assert s[lo..hi][i] == s[lo + i] && s'[lo..hi][i] == s'[lo + i];
    }
  }

  lemma SameChars(s: string, s': string, e: nat)
    requires e <= |s| && e <= |s'| && s[..e] == s'[..e]
    ensures forall i :: 0 <= i < e ==> s[i] == s'[i]
  {
    forall i | 0 <= i < e
      ensures s[i] == s'[i]
    {
      assert s[i] == s[..e][i] && s'[i] == s'[..e][i];
    }
  }
}
