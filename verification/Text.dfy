/** Searching in text. */
module Text {

  /** The first index of c, or the length (strchr). */
  function Find(s: string, c: char): (k: nat)
    ensures k <= |s| && (k < |s| ==> s[k] == c) && forall j :: 0 <= j < k ==> s[j] != c
  {
    if s == "" || s[0] == c then 0 else 1 + Find(s[1..], c)
  }

  lemma FindUnique(s: string, c: char, k: nat)
    requires k <= |s| && (k < |s| ==> s[k] == c) && forall j :: 0 <= j < k ==> s[j] != c
    ensures Find(s, c) == k
  {
  }

  lemma FindAt(pre: string, c: char, post: string)
    requires c !in pre
    ensures Find(pre + [c] + post, c) == |pre|
    ensures (pre + [c] + post)[..|pre|] == pre && (pre + [c] + post)[|pre| + 1..] == post
  {
    var s := pre + [c] + post;
    assert forall j :: 0 <= j < |pre| ==> s[j] == pre[j];
    FindUnique(s, c, |pre|);
  }

  method Seek(s: string, i: nat, c: char) returns (k: nat)
    requires i <= |s|
    ensures i <= k <= |s| && k - i == Find(s[i..], c)
  {
    k := i;
    while k < |s| && s[k] != c
      invariant i <= k <= |s|
      invariant Find(s[i..], c) == k - i + Find(s[k..], c)
    {
      assert s[k..][1..] == s[k + 1..];
      k := k + 1;
    }
  }

  lemma Suffix(s: string, i: nat, k: nat)
    requires i + k <= |s|
    ensures s[i..][k..] == s[i + k..] && s[i..][..k] == s[i..i + k]
  {
  }
}
