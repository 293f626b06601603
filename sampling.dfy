/** The eviction step's two selection passes, as functions of the cache's
    access times. `acc` maps every key to its last access time (Unix
    seconds); `order` is the order in which a `range` over the Go map
    happens to visit the keys, which the language leaves unspecified. */
module Sampling {

  import Times

  /** `order` visits every key of `keys` exactly once: it holds those keys
      and no more elements than there are keys. */
  ghost predicate Enumerates(order: seq<string>, keys: set<string>)
  {
    && KeySet(order) == keys
    && |order| == |keys|
  }

  ghost predicate Distinct<T>(s: seq<T>)
  {
    forall i, j :: 0 <= i < j < |s| ==> s[i] != s[j]
  }

  function KeySet(s: seq<string>): set<string>
  {
    set k | k in s
  }

  /** The number of random draws that admit their entry to the sample:
      an entry is skipped exactly when its draw exceeds the width. */
  function Admitted(draws: seq<int>, width: int): (c: nat)
    ensures c <= |draws|
  {
    if draws == [] then 0
    else Admitted(draws[..|draws| - 1], width) + (if draws[|draws| - 1] > width then 0 else 1)
  }

  /** The first pass of an eviction round over the entries visited in
      `order`: the access time of each visited entry whose draw does not
      exceed `width`, in visiting order, until `width` have been taken.
      (A key `acc` lacks is passed over; the passes only ever visit keys of
      the store.) */
  function Sample(acc: map<string, int>, order: seq<string>, draws: seq<int>, width: nat): (r: seq<int>)
    requires |draws| == |order|
    ensures |r| <= width
  {
    if order == [] then []
    else
      var n := |order| - 1;
      var r := Sample(acc, order[..n], draws[..n], width);
      if |r| == width || order[n] !in acc || draws[n] > width then r else r + [acc[order[n]]]
  }

  /** Every sampled time is the access time of a visited key. */
  lemma {:induction false} SampleFromVisited(acc: map<string, int>, order: seq<string>, draws: seq<int>, width: nat)
    requires |draws| == |order|
    ensures forall x :: x in Sample(acc, order, draws, width) ==> exists k :: k in order && k in acc && acc[k] == x
  {
    if order != [] {
      var n := |order| - 1;
      SampleFromVisited(acc, order[..n], draws[..n], width);
      assert forall k :: k in order[..n] ==> k in order;
    }
  }

  /** The sample holds exactly as many times as there were admitting draws,
      capped at the width. */
  lemma {:induction false} SampleSize(acc: map<string, int>, order: seq<string>, draws: seq<int>, width: nat)
    requires |draws| == |order|
    requires forall k :: k in order ==> k in acc
    ensures |Sample(acc, order, draws, width)| == if Admitted(draws, width) < width then Admitted(draws, width) else width
  {
    if order != [] {
      var n := |order| - 1;
      assert forall k :: k in order[..n] ==> k in order;
      assert order[n] in order;
      SampleSize(acc, order[..n], draws[..n], width);
    }
  }

  /** When every draw is within the width, every draw admits its entry. */
  lemma {:induction false} AdmittedAll(draws: seq<int>, width: int)
    requires forall d :: d in draws ==> d <= width
    ensures Admitted(draws, width) == |draws|
  {
    if draws != [] {
      var n := |draws| - 1;
      assert forall d :: d in draws[..n] ==> d in draws;
      assert draws[n] in draws;
      AdmittedAll(draws[..n], width);
    }
  }

  /** When no draw exceeds the width and there are no more entries than
      the width, the first pass samples every visited entry, in visiting
      order. */
  lemma {:induction false} SampleWhole(acc: map<string, int>, order: seq<string>, draws: seq<int>, width: nat)
    requires |draws| == |order| <= width
    requires forall d :: d in draws ==> d <= width
    requires forall k :: k in order ==> k in acc
    ensures |Sample(acc, order, draws, width)| == |order|
    ensures forall i :: 0 <= i < |order| ==> Sample(acc, order, draws, width)[i] == acc[order[i]]
  {
    if order != [] {
      var n := |order| - 1;
      assert forall k :: k in order[..n] ==> k in order;
      assert forall d :: d in draws[..n] ==> d in draws;
      assert order[n] in order && draws[n] in draws;
      SampleWhole(acc, order[..n], draws[..n], width);
    }
  }

  /** Once the sample is full, visiting more entries adds nothing:
      `prune`'s first loop in scache.go breaks there. */
  lemma {:induction false} SampleSaturated(acc: map<string, int>, order: seq<string>, draws: seq<int>, width: nat, i: nat)
    requires |draws| == |order| && i <= |order|
    requires |Sample(acc, order[..i], draws[..i], width)| == width
    ensures Sample(acc, order, draws, width) == Sample(acc, order[..i], draws[..i], width)
    decreases |order|
  {
    if i < |order| {
      var n := |order| - 1;
      assert order[..n][..i] == order[..i] && draws[..n][..i] == draws[..i];
      SampleSaturated(acc, order[..n], draws[..n], width, i);
    } else {
      assert order[..i] == order && draws[..i] == draws;
    }
  }

  /** The smallest element of a non-empty sequence. */
  function Min(s: seq<int>): (m: int)
    requires s != []
    ensures m in s
    ensures forall x :: x in s ==> m <= x
  {
    if |s| == 1 then s[0]
    else
      var rest := Min(s[1..]);
      assert forall x :: x in s ==> x == s[0] || x in s[1..];
      if s[0] <= rest then s[0] else rest
  }

  /** After sorting a permutation of a non-empty sample, the first element
      is the sample's minimum. */
  lemma SortedHeadIsMin(sorted: seq<int>, sample: seq<int>)
    requires Times.Sorted(sorted) && multiset(sorted) == multiset(sample)
    requires sample != []
    ensures sorted != [] && sorted[0] == Min(sample)
  {
    var m := Min(sample);
    assert m in multiset(sorted);
    var i :| 0 <= i < |sorted| && sorted[i] == m;
    assert sorted[0] <= m;
    assert sorted[0] in multiset(sample);
    assert sorted[0] in sample;
  }

  /** The eviction threshold `times[0]` after sorting the sample: its
      minimum, or, when nothing was sampled, whatever an earlier round left
      in `times[0]`. */
  function Threshold(sample: seq<int>, stale: int): (target: int)
    ensures sample != [] ==> target in sample && forall x :: x in sample ==> target <= x
    ensures sample == [] ==> target == stale
  {
    if sample == [] then stale else Min(sample)
  }

  /** The second pass of an eviction round over the keys visited in
      `order`: each visited key whose access time is at most `target`, in
      visiting order, until `width` have been taken. (A key `acc` lacks is
      passed over, as in `Sample`.) */
  function Victims(acc: map<string, int>, order: seq<string>, target: int, width: nat): (r: seq<string>)
    ensures |r| <= width
  {
    if order == [] then []
    else
      var n := |order| - 1;
      var r := Victims(acc, order[..n], target, width);
      if |r| == width || order[n] !in acc || acc[order[n]] > target then r else r + [order[n]]
  }

  /** Every victim is a visited key accessed at or before the threshold. */
  lemma {:induction false} VictimsQualify(acc: map<string, int>, order: seq<string>, target: int, width: nat)
    ensures forall k :: k in Victims(acc, order, target, width) ==> k in order && k in acc && acc[k] <= target
  {
    if order != [] {
      var n := |order| - 1;
      VictimsQualify(acc, order[..n], target, width);
      assert forall k :: k in order[..n] ==> k in order;
    }
  }

  /** Once the victims are `width` many, visiting more keys adds nothing:
      `prune`'s second loop in scache.go breaks there. */
  lemma {:induction false} VictimsSaturated(acc: map<string, int>, order: seq<string>, target: int, width: nat, i: nat)
    requires i <= |order|
    requires |Victims(acc, order[..i], target, width)| == width
    ensures Victims(acc, order, target, width) == Victims(acc, order[..i], target, width)
    decreases |order|
  {
    if i < |order| {
      var n := |order| - 1;
      assert order[..n][..i] == order[..i];
      VictimsSaturated(acc, order[..n], target, width, i);
    } else {
      assert order[..i] == order;
    }
  }

  /** Visiting each key once, the second pass never names a key twice. */
  lemma {:induction false} VictimsDistinct(acc: map<string, int>, order: seq<string>, target: int, width: nat)
    requires Distinct(order)
    ensures Distinct(Victims(acc, order, target, width))
  {
    if order != [] {
      var n := |order| - 1;
      var prefix := order[..n];
      assert Distinct(prefix) by {
        forall i, j | 0 <= i < j < |prefix| ensures prefix[i] != prefix[j] {
          assert prefix[i] == order[i] && prefix[j] == order[j];
        }
      }
      VictimsDistinct(acc, prefix, target, width);
      VictimsQualify(acc, prefix, target, width);
      var r := Victims(acc, prefix, target, width);
      assert order[n] !in prefix by {
        forall i | 0 <= i < n ensures prefix[i] != order[n] {
          assert prefix[i] == order[i];
        }
      }
      if Victims(acc, order, target, width) != r {
        assert order[n] !in r;
        var r' := r + [order[n]];
        forall i, j | 0 <= i < j < |r'| ensures r'[i] != r'[j] {
          if j == |r| {
            assert r'[i] == r[i];
            assert r[i] in r;
          }
        }
      }
    }
  }

  /** When the second pass stops short of its width, it has taken every
      key at or below the threshold: ties are cut off only by the width. */
  lemma {:induction false} VictimsComplete(acc: map<string, int>, order: seq<string>, target: int, width: nat, k: string)
    requires |Victims(acc, order, target, width)| < width
    requires k in order && k in acc && acc[k] <= target
    ensures k in Victims(acc, order, target, width)
  {
    var n := |order| - 1;
    var r := Victims(acc, order[..n], target, width);
    if k != order[n] {
      assert k in order[..n] by {
        var i :| 0 <= i < |order| && order[i] == k;
        assert order[..n][i] == k;
      }
      VictimsComplete(acc, order[..n], target, width, k);
    }
  }

  /** A sequence has at most as many distinct elements as it is long, and
      exactly as many when no element repeats. */
  lemma {:induction false} DistinctCard(s: seq<string>)
    ensures |KeySet(s)| <= |s|
    ensures Distinct(s) <==> |KeySet(s)| == |s|
  {
    if s != [] {
      var t := s[1..];
      DistinctCard(t);
      assert KeySet(s) == {s[0]} + KeySet(t);
      assert Distinct(t) <== Distinct(s) by {
        forall i, j | 0 <= i < j < |t| && Distinct(s) ensures t[i] != t[j] {
          assert t[i] == s[i + 1] && t[j] == s[j + 1];
        }
      }
      if s[0] in t {
        var i :| 0 <= i < |t| && t[i] == s[0];
        assert s[i + 1] == s[0];
        assert KeySet(s) == KeySet(t);
      } else {
        assert Distinct(t) ==> Distinct(s) by {
          if Distinct(t) {
            forall i, j | 0 <= i < j < |s| ensures s[i] != s[j] {
              if i == 0 {
                assert s[j] == t[j - 1];
              } else {
                assert s[i] == t[i - 1] && s[j] == t[j - 1];
              }
            }
          }
        }
      }
    }
  }

  /** What one eviction round removes. With the two passes visiting every
      key of the store once each and a width of at least one:
      the victims are distinct keys of the store, at most `width` of them,
      none accessed after the threshold, and the threshold is at most every
      sampled time; fewer than `width` victims means every key at or below
      the threshold is one; and a non-empty sample guarantees at least one
      victim, so the store shrinks by exactly the number of victims. */
  lemma EvictionRound(acc: map<string, int>, order: seq<string>, draws: seq<int>, order2: seq<string>, width: nat, stale: int)
    requires width >= 1
    requires Enumerates(order, acc.Keys) && Enumerates(order2, acc.Keys)
    requires |draws| == |order|
    ensures var sample := Sample(acc, order, draws, width);
            var target := Threshold(sample, stale);
            var victims := Victims(acc, order2, target, width);
            && Distinct(victims)
            && KeySet(victims) <= acc.Keys
            && |acc - KeySet(victims)| == |acc| - |victims|
            && |victims| <= width
            && (forall k :: k in victims ==> acc[k] <= target)
            && (forall x :: x in sample ==> target <= x)
            && (|victims| < width ==> forall k :: k in acc && acc[k] <= target ==> k in victims)
            && (sample != [] ==> |victims| >= 1)
  {
    var sample := Sample(acc, order, draws, width);
    var target := Threshold(sample, stale);
    var victims := Victims(acc, order2, target, width);
    SampleFromVisited(acc, order, draws, width);
    VictimsQualify(acc, order2, target, width);
    DistinctCard(order2);
    VictimsDistinct(acc, order2, target, width);
    DistinctCard(victims);
    assert (acc - KeySet(victims)).Keys == acc.Keys - KeySet(victims);
    forall k | k in acc && acc[k] <= target && |victims| < width
      ensures k in victims
    {
      assert k in KeySet(order2);
      VictimsComplete(acc, order2, target, width, k);
    }
    if sample != [] {
      var k :| k in order && k in acc && acc[k] == target;
      assert k in KeySet(order);
      assert k in KeySet(order2);
    }
  }
}
