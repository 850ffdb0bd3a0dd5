/** The two Python list operations the rotors are built on: `list.index`
    (first occurrence, ValueError when absent) and the slice rotation
    `s[k:] + s[:k]`. */
module PyLists {
  import opened Wrappers

  /** No symbol occurs twice in `s`. */
  predicate Distinct(s: seq<int>) {
    forall i, j :: 0 <= i < j < |s| ==> s[i] != s[j]
  }

  /** `s.index(x)` for a present `x`: the least position holding `x`. */
  function IndexOf(s: seq<int>, x: int): (i: nat)
    requires x in s
    ensures i < |s| && s[i] == x
    ensures forall j :: 0 <= j < i ==> s[j] != x
  {
    if s[0] == x then 0 else 1 + IndexOf(s[1..], x)
  }

  /** `s.index(x)` with its ValueError made explicit as `None`. */
  function Find(s: seq<int>, x: int): (r: Option<nat>)
    ensures r.None? <==> x !in s
    ensures r.Some? ==> r.value < |s| && s[r.value] == x
    ensures r.Some? ==> forall j :: 0 <= j < r.value ==> s[j] != x
  {
    if x in s then Some(IndexOf(s, x)) else None
  }

  /** In a duplicate-free sequence the first occurrence of `s[i]` is `i`. */
  lemma IndexOfDistinct(s: seq<int>, i: int)
    requires Distinct(s) && 0 <= i < |s|
    ensures IndexOf(s, s[i]) == i
  {
  }

  /** `s[k:] + s[:k]`: the elements from position `k` on, then those
      before it. */
  function RotateLeft(s: seq<int>, k: nat): (r: seq<int>)
    requires k <= |s|
    ensures |r| == |s|
    ensures forall i :: 0 <= i < |s| - k ==> r[i] == s[i + k]
    ensures forall i :: |s| - k <= i < |s| ==> r[i] == s[i - (|s| - k)]
    ensures multiset(r) == multiset(s)
  {
    assert s == s[..k] + s[k..];
    s[k..] + s[..k]
  }

  /** Rotation neither creates nor removes duplicates. */
  lemma RotatePreservesDistinct(s: seq<int>, k: nat)
    requires k <= |s| && Distinct(s)
    ensures Distinct(RotateLeft(s, k))
  {
    var r := RotateLeft(s, k);
    assert r == s[k..] + s[..k];
    forall i, j | 0 <= i < j < |r| ensures r[i] != r[j] {
      if j < |s| - k {
        assert r[i] == s[i + k] && r[j] == s[j + k];
      } else if i >= |s| - k {
        assert r[i] == s[i - (|s| - k)] && r[j] == s[j - (|s| - k)];
      } else {
        assert r[i] == s[i + k] && r[j] == s[j - (|s| - k)];
      }
    }
  }
}
