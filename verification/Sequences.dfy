/** Sequences of pool indices, as the lists and chains of the other modules use them. */
module Sequences {
  /** The pointer to the first node, -1 being NULL. */
  function HeadOf(l: seq<int>): int {
    if l == [] then -1 else l[0]
  }

  ghost predicate Distinct(l: seq<int>) {
    forall i, j :: 0 <= i < j < |l| ==> l[i] != l[j]
  }

  ghost predicate Apart(a: seq<int>, b: seq<int>) {
    forall i, j :: 0 <= i < |a| && 0 <= j < |b| ==> a[i] != b[j]
  }

  /** Distinct indices below n are at most n, and n exactly if none is missing. */
  lemma {:induction false} DistinctBelow(s: seq<int>, n: nat)
    requires Distinct(s) && forall k :: 0 <= k < |s| ==> 0 <= s[k] < n
    ensures |s| <= n
    ensures |s| == n <==> forall i :: 0 <= i < n ==> i in s
    decreases n
  {
    if s != [] {
      assert 0 <= s[0] < n;
      if n - 1 in s {
        var k :| 0 <= k < |s| && s[k] == n - 1;
        var rest := s[..k] + s[k + 1..];
        assert forall j :: 0 <= j < |rest| ==> rest[j] == if j < k then s[j] else s[j + 1];
        WithoutOne(s, k);
        DistinctBelow(rest, n - 1);
        assert forall i :: 0 <= i < n - 1 ==> (i in s <==> i in rest);
        assert (forall i :: 0 <= i < n ==> i in s) <==> (forall i :: 0 <= i < n - 1 ==> i in rest);
      } else {
        assert forall k :: 0 <= k < |s| ==> s[k] in s;
        DistinctBelow(s, n - 1);
      }
    } else {
      assert 0 !in s;
    }
  }

  lemma WithoutOne(s: seq<int>, k: nat)
    requires k < |s|
    ensures forall i :: i != s[k] ==> (i in s <==> i in s[..k] + s[k + 1..])
  {
    assert s == s[..k] + [s[k]] + s[k + 1..];
  }
}
