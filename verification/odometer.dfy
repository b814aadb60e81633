/**
 The cross product of per-wire candidate indices that the four nested loops of
 `ChamberHandler::createTrackDescription` walk
 (common/trek/chamberhandler.cpp:33-36): index vectors in lexicographic order,
 the first wire's index varying slowest.
 */
module Odometer {

  /** The product of the counts: how many index vectors there are. */
  function Product(counts: seq<nat>): nat
  {
    if |counts| == 0 then 1 else counts[0] * Product(counts[1..])
  }

  /** Whether `v` picks, for every position, an index below that position's count. */
  predicate InRange(v: seq<nat>, counts: seq<nat>)
  {
    |v| == |counts| && forall i :: 0 <= i < |v| ==> v[i] < counts[i]
  }

  /** Strict lexicographic order on index vectors. */
  predicate LexLess(a: seq<nat>, b: seq<nat>)
    decreases |a|
  {
    |a| > 0 && |b| > 0 && (a[0] < b[0] || (a[0] == b[0] && LexLess(a[1..], b[1..])))
  }

  /** Whether a list of index vectors is strictly increasing lexicographically. */
  predicate StrictlyIncreasing(vs: seq<seq<nat>>)
  {
    forall i, j :: 0 <= i < j < |vs| ==> LexLess(vs[i], vs[j])
  }

  /** Every tail prefixed by each head 0, 1, ..., n-1 in turn. */
  function Prefixed(n: nat, tails: seq<seq<nat>>): (r: seq<seq<nat>>)
    ensures |r| == n * |tails|
  {
    if n == 0 then []
    else
      var front := Prefixed(n - 1, tails);
      assert |front| + |tails| == n * |tails| by {
        assert (n - 1) * |tails| + |tails| == n * |tails|;
      }
      front + seq(|tails|, k requires 0 <= k < |tails| => [n - 1] + tails[k])
  }

  /** All index vectors below `counts`, in the order the nested loops visit them. */
  function Enumerate(counts: seq<nat>): (r: seq<seq<nat>>)
    ensures |r| == Product(counts)
  {
    if |counts| == 0 then [[]] else Prefixed(counts[0], Enumerate(counts[1..]))
  }

  lemma {:induction false} PrefixedMembers(n: nat, tails: seq<seq<nat>>, v: seq<nat>)
    ensures v in Prefixed(n, tails) <==> |v| > 0 && v[0] < n && v[1..] in tails
  {
    if n > 0 {
      PrefixedMembers(n - 1, tails, v);
      var block := seq(|tails|, k requires 0 <= k < |tails| => [n - 1] + tails[k]);
      if v in block {
        var k :| 0 <= k < |tails| && block[k] == v;
        assert v[1..] == tails[k];
      }
      if |v| > 0 && v[0] == n - 1 && v[1..] in tails {
        var k :| 0 <= k < |tails| && tails[k] == v[1..];
        assert block[k] == v;
      }
    }
  }

  /** The enumeration holds exactly the in-range index vectors. */
  lemma {:induction false} EnumerateMembers(counts: seq<nat>, v: seq<nat>)
    ensures v in Enumerate(counts) <==> InRange(v, counts)
    decreases |counts|
  {
    if |counts| > 0 {
      PrefixedMembers(counts[0], Enumerate(counts[1..]), v);
      if |v| > 0 {
        EnumerateMembers(counts[1..], v[1..]);
        if InRange(v, counts) {
          assert InRange(v[1..], counts[1..]);
        }
        if InRange(v[1..], counts[1..]) && v[0] < counts[0] {
          assert forall i :: 1 <= i < |v| ==> v[i] == v[1..][i - 1];
        }
      }
    }
  }

  lemma {:induction false} PrefixedIncreasing(n: nat, tails: seq<seq<nat>>)
    requires StrictlyIncreasing(tails)
    ensures StrictlyIncreasing(Prefixed(n, tails))
  {
    if n > 0 {
      var front := Prefixed(n - 1, tails);
      var block := seq(|tails|, k requires 0 <= k < |tails| => [n - 1] + tails[k]);
      PrefixedIncreasing(n - 1, tails);
      var all := front + block;
      assert all == Prefixed(n, tails);
      forall i, j | 0 <= i < j < |all|
        ensures LexLess(all[i], all[j])
      {
        if j < |front| {
          assert all[i] == front[i] && all[j] == front[j];
        } else if i >= |front| {
          var a, b := i - |front|, j - |front|;
          assert all[i] == [n - 1] + tails[a] && all[j] == [n - 1] + tails[b];
          assert all[i][1..] == tails[a] && all[j][1..] == tails[b];
        } else {
          PrefixedMembers(n - 1, tails, front[i]);
          assert front[i] in front;
          assert all[i] == front[i];
          assert all[j][0] == n - 1;
        }
      }
    }
  }

  /** The enumeration visits index vectors in strictly increasing lexicographic order. */
  lemma {:induction false} EnumerateIncreasing(counts: seq<nat>)
    ensures StrictlyIncreasing(Enumerate(counts))
    decreases |counts|
  {
    if |counts| > 0 {
      EnumerateIncreasing(counts[1..]);
      PrefixedIncreasing(counts[0], Enumerate(counts[1..]));
    }
  }

  lemma {:induction false} LexLessIrreflexive(a: seq<nat>)
    ensures !LexLess(a, a)
    decreases |a|
  {
    if |a| > 0 {
      LexLessIrreflexive(a[1..]);
    }
  }

  /** No index vector is visited twice. */
  lemma EnumerateDistinct(counts: seq<nat>)
    ensures forall i, j :: 0 <= i < j < |Enumerate(counts)| ==> Enumerate(counts)[i] != Enumerate(counts)[j]
  {
    EnumerateIncreasing(counts);
    forall a: seq<nat> {
      LexLessIrreflexive(a);
    }
  }
}
