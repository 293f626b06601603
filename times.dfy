/** The `Times` slice of access timestamps and the in-place sort that the
    eviction step runs on a prefix of it. A Go slice `t[:n]` is modelled as
    the backing array `t` together with the length `n`. */
module Times {

  ghost predicate Sorted(s: seq<int>)
  {
    forall i, j :: 0 <= i < j < |s| ==> s[i] <= s[j]
  }

  /** `Times.Less`: strict order on two positions. */
  predicate Less(t: array<int>, i: nat, j: nat)
    requires i < t.Length && j < t.Length
    reads t
  {
    t[i] < t[j]
  }

  /** `Times.Swap`: exchanges two positions and leaves the rest alone. */
  method Swap(t: array<int>, i: nat, j: nat)
    requires i < t.Length && j < t.Length
    modifies t
    ensures t[..] == old(t[..])[i := old(t[j])][j := old(t[i])]
  {
    t[i], t[j] := t[j], t[i];
  }

  /** `sort.Sort(t[:n])` through `Less` and `Swap`, as the insertion sort
      Go's sort package runs on short ranges: the prefix ends up ascending
      and a permutation of what it held, and the rest of the array is
      untouched. */
  method Sort(t: array<int>, n: nat)
    requires n <= t.Length
    modifies t
    ensures Sorted(t[..n])
    ensures multiset(t[..n]) == multiset(old(t[..n]))
    ensures t[n..] == old(t[n..])
  {
    var i := 0;
    while i < n
      invariant 0 <= i <= n
      invariant Sorted(t[..i])
      invariant multiset(t[..]) == multiset(old(t[..]))
      invariant t[n..] == old(t[n..])
    {
      ghost var before := t[..];
      Insert(t, i);
      assert t[n..] == t[i + 1..][n - (i + 1)..] && before[n..] == before[i + 1..][n - (i + 1)..];
      i := i + 1;
    }
    SplitMultiset(t[..], old(t[..]), n);
  }

  /** The state of one insertion round over `s[..i + 1]`: sorted except
      for the element travelling left, now at `j`, which is no larger than
      anything to its right and whose neighbours are in order. */
  ghost predicate Inserting(s: seq<int>, i: nat, j: nat)
  {
    && j <= i < |s|
    && (forall p, q :: 0 <= p < q <= i && p != j && q != j ==> s[p] <= s[q])
    && (forall q :: j < q <= i ==> s[j] <= s[q])
    && (0 < j < i ==> s[j - 1] <= s[j + 1])
  }

  lemma InsertingStart(s: seq<int>, i: nat)
    requires i < |s| && Sorted(s[..i])
    ensures Inserting(s, i, i)
  {
    assert forall p :: 0 <= p < i ==> s[p] == s[..i][p];
  }

  /** Two sequences with the same multiset and the same tail from `n` on
      have the same multiset below `n`. */
  lemma SplitMultiset(a: seq<int>, b: seq<int>, n: nat)
    requires n <= |a| == |b| && multiset(a) == multiset(b) && a[n..] == b[n..]
    ensures multiset(a[..n]) == multiset(b[..n])
  {
    assert a == a[..n] + a[n..];
    assert b == b[..n] + b[n..];
    assert multiset(a) == multiset(a[..n]) + multiset(a[n..]);
    assert multiset(b) == multiset(b[..n]) + multiset(b[n..]);
    forall x ensures multiset(a[..n])[x] == multiset(b[..n])[x] {
      assert multiset(a)[x] == multiset(a[..n])[x] + multiset(a[n..])[x];
      assert multiset(b)[x] == multiset(b[..n])[x] + multiset(b[n..])[x];
    }
  }

  /** One step of the round: swapping the travelling element with its
      larger left neighbour keeps the round's shape, the multiset of the
      prefix and everything from `n` on. */
  lemma InsertingStep(s: seq<int>, i: nat, j: nat)
    requires Inserting(s, i, j) && 0 < j && s[j] < s[j - 1]
    ensures Inserting(s[j := s[j - 1]][j - 1 := s[j]], i, j - 1)
  {
  }

  lemma InsertingDone(s: seq<int>, i: nat, j: nat)
    requires Inserting(s, i, j) && (j == 0 || s[j - 1] <= s[j])
    ensures Sorted(s[..i + 1])
  {
    forall p, q | 0 <= p < q <= i
      ensures s[p] <= s[q]
    {
      if q == j && p < j - 1 {
        assert s[p] <= s[j - 1];
      }
    }
  }

  /** One round of the insertion sort: moves `t[i]` left past every larger
      element, so that a sorted `t[..i]` becomes a sorted `t[..i + 1]`;
      nothing from `i + 1` on moves. */
  method Insert(t: array<int>, i: nat)
    requires i < t.Length
    requires Sorted(t[..i])
    modifies t
    ensures Sorted(t[..i + 1])
    ensures multiset(t[..]) == multiset(old(t[..]))
    ensures t[i + 1..] == old(t[i + 1..])
  {
    InsertingStart(t[..], i);
    var j := i;
    while j > 0 && Less(t, j, j - 1)
      invariant 0 <= j <= i
      invariant Inserting(t[..], i, j)
      invariant multiset(t[..]) == multiset(old(t[..]))
      invariant t[i + 1..] == old(t[i + 1..])
    {
      ghost var before := t[..];
      Swap(t, j, j - 1);
      InsertingStep(before, i, j);
      j := j - 1;
    }
    InsertingDone(t[..], i, j);
  }
}
