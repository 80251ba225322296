/** The cyclic scan of `IsgwProxy::get_server` over the health of the listed positions.

    `healthy[i]` says that position i has fewer than max_fail_times_ consecutive failures.  The
    scan starts after the current position and never tests the current position itself. */
module Selection {

  /** The position `k` steps after `cur` on a cycle of `n`. */
  function Step(cur: nat, k: nat, n: nat): (p: nat)
    requires cur < n && k <= n
    ensures p < n
  {
    if cur + k < n then cur + k else cur + k - n
  }

  /** The scan, having rejected the first k - 1 positions after `cur`. */
  function Scan(healthy: seq<bool>, cur: nat, k: nat): (p: nat)
    requires cur < |healthy| && 1 <= k <= |healthy|
    ensures p < |healthy|
    decreases |healthy| - k
  {
    if k == |healthy| then Step(cur, 1, |healthy|)
    else if healthy[Step(cur, k, |healthy|)] then Step(cur, k, |healthy|)
    else Scan(healthy, cur, k + 1)
  }

  /** The position selected after `cur`. */
  function Pick(healthy: seq<bool>, cur: nat): (p: nat)
    requires cur < |healthy|
    ensures p < |healthy|
  {
    Scan(healthy, cur, 1)
  }

  /** Successors computed with the remainder operator, as the loop does. */
  lemma StepByRemainder(p: nat, n: nat)
    requires p < n
    ensures (p + 1) % n == Step(p, 1, n)
  {
    if p + 1 < n {
      assert (p + 1) % n == p + 1;
    }
  }

  lemma Remainder(x: nat, q: nat, n: nat)
    requires n >= 1 && q * n <= x < q * n + n
    ensures x % n == x - q * n
  {
    var r := x - q * n;
    assert x / n == q by {
      if x / n < q {
        Fits(x / n + 1, q, n);
      } else if x / n > q {
        Fits(q + 1, x / n, n);
      }
    }
  }

  lemma Fits(a: nat, b: nat, n: nat)
    requires a <= b
    ensures a * n <= b * n
  {
  }

  lemma StepIsRemainder(cur: nat, k: nat, n: nat)
    requires cur < n && k <= n
    ensures Step(cur, k, n) == (cur + k) % n
  {
    Remainder(cur + k, if cur + k < n then 0 else 1, n);
  }

  /** `p` is the first healthy position strictly after `cur`, found `k` steps on. */
  ghost predicate FirstAfter(healthy: seq<bool>, cur: nat, k: int, p: nat)
    requires cur < |healthy|
  {
    && 1 <= k < |healthy| && p == Step(cur, k, |healthy|) && healthy[p]
    && forall j :: 1 <= j < k ==> !healthy[Step(cur, j, |healthy|)]
  }

  /** Some position other than `cur` is healthy. */
  ghost predicate OtherHealthy(healthy: seq<bool>, cur: nat) {
    exists q :: 0 <= q < |healthy| && q != cur && healthy[q]
  }

  lemma {:induction false} ScanFinds(healthy: seq<bool>, cur: nat, k: nat)
    requires cur < |healthy| && 1 <= k <= |healthy|
    requires forall j :: 1 <= j < k ==> !healthy[Step(cur, j, |healthy|)]
    ensures (exists m :: FirstAfter(healthy, cur, m, Scan(healthy, cur, k)))
         || (&& Scan(healthy, cur, k) == Step(cur, 1, |healthy|)
             && forall j :: 1 <= j < |healthy| ==> !healthy[Step(cur, j, |healthy|)])
    decreases |healthy| - k
  {
    if k < |healthy| {
      if healthy[Step(cur, k, |healthy|)] {
        assert FirstAfter(healthy, cur, k, Scan(healthy, cur, k));
      } else {
        ScanFinds(healthy, cur, k + 1);
      }
    }
  }

  lemma StepsReachAll(cur: nat, q: nat, n: nat) returns (k: nat)
    requires cur < n && q < n
    ensures 1 <= k <= n && Step(cur, k, n) == q
    ensures k == n <==> q == cur
  {
    k := if q > cur then q - cur else q + n - cur;
  }

  /** Scan correctness: the first healthy position after the current one in cyclic order, or,
      when no other position is healthy, the immediate successor. */
  lemma PickCorrect(healthy: seq<bool>, cur: nat)
    requires cur < |healthy|
    ensures OtherHealthy(healthy, cur) ==>
              exists k :: FirstAfter(healthy, cur, k, Pick(healthy, cur))
    ensures !OtherHealthy(healthy, cur) ==> Pick(healthy, cur) == Step(cur, 1, |healthy|)
  {
    ScanFinds(healthy, cur, 1);
    if OtherHealthy(healthy, cur) {
      var q: nat :| q < |healthy| && q != cur && healthy[q];
      var k := StepsReachAll(cur, q, |healthy|);
      assert healthy[Step(cur, k, |healthy|)];
      var m :| FirstAfter(healthy, cur, m, Scan(healthy, cur, 1));
      assert FirstAfter(healthy, cur, m, Pick(healthy, cur));
    } else {
      forall m, p | 0 <= p < |healthy| && healthy[p]
        ensures !FirstAfter(healthy, cur, m, p)
      {
        assert p == cur;
      }
    }
  }

  lemma FirstAfterUnique(healthy: seq<bool>, cur: nat, k: nat, p: nat, m: nat, q: nat)
    requires cur < |healthy| && FirstAfter(healthy, cur, k, p) && FirstAfter(healthy, cur, m, q)
    ensures p == q
  {
  }

  /** Nothing else fits: a first healthy position after `cur` is the one picked. */
  lemma PickUnique(healthy: seq<bool>, cur: nat, k: nat, p: nat)
    requires cur < |healthy| && FirstAfter(healthy, cur, k, p)
    ensures Pick(healthy, cur) == p
  {
    assert p != cur && OtherHealthy(healthy, cur);
    PickCorrect(healthy, cur);
    var m :| FirstAfter(healthy, cur, m, Pick(healthy, cur));
    FirstAfterUnique(healthy, cur, k, p, m, Pick(healthy, cur));
  }

  /** The header promises that unavailable servers are skipped unless all are unavailable.  The
      promise is kept by a pick exactly when some position other than the current one is healthy,
      the list is a single server, or the current server is unavailable too.  The second clause
      says when the pick is healthy. */
  lemma SkipsUnhealthyExactly(healthy: seq<bool>, cur: nat)
    requires cur < |healthy|
    ensures ((exists q :: 0 <= q < |healthy| && healthy[q]) ==> healthy[Pick(healthy, cur)])
       <==> OtherHealthy(healthy, cur) || |healthy| == 1 || !healthy[cur]
    ensures healthy[Pick(healthy, cur)]
       <==> OtherHealthy(healthy, cur) || (|healthy| == 1 && healthy[0])
  {
    PickCorrect(healthy, cur);
  }

  // ------------------------------------------------------- rotation with fixed health

  /** The `m`-th pick (from 0) of repeated selection starting at `cur`. */
  function Nth(healthy: seq<bool>, cur: nat, m: nat): (p: nat)
    requires cur < |healthy|
    ensures p < |healthy|
  {
    if m == 0 then Pick(healthy, cur) else Pick(healthy, Nth(healthy, cur, m - 1))
  }

  /** The healthy positions from `i` on, in increasing order. */
  function Healthy(healthy: seq<bool>, i: nat): (hs: seq<nat>)
    requires i <= |healthy|
    ensures forall j :: 0 <= j < |hs| ==> i <= hs[j] < |healthy| && healthy[hs[j]]
    ensures forall j, k :: 0 <= j < k < |hs| ==> hs[j] < hs[k]
    ensures forall p :: i <= p < |healthy| && healthy[p] ==> p in hs
    decreases |healthy| - i
  {
    if i == |healthy| then []
    else (if healthy[i] then [i] else []) + Healthy(healthy, i + 1)
  }

  /** Between neighbouring members of the increasing list nothing is healthy. */
  lemma NoneBetween(healthy: seq<bool>, r: nat, p: nat)
    requires var hs := Healthy(healthy, 0);
             && r <= |hs| && p < |healthy|
             && (r > 0 ==> hs[r - 1] < p) && (r < |hs| ==> p < hs[r])
    ensures !healthy[p]
  {
    var hs := Healthy(healthy, 0);
    forall j | 0 <= j < |hs|
      ensures hs[j] != p
    {
      if j < r {
        assert hs[j] <= hs[r - 1];
      } else {
        assert hs[r] <= hs[j];
      }
    }
  }

  /** From one of at least two healthy positions the pick is the next one, cyclically. */
  lemma PickNextHealthy(healthy: seq<bool>, r: nat)
    requires var hs := Healthy(healthy, 0); 2 <= |hs| && r < |hs|
    ensures var hs := Healthy(healthy, 0);
            Pick(healthy, hs[r]) == hs[Step(r, 1, |hs|)]
  {
    hide Pick, Scan, Healthy;
    var hs, n := Healthy(healthy, 0), |healthy|;
    var cur, p := hs[r], hs[Step(r, 1, |hs|)];
    var k := StepsReachAll(cur, p, n);
    forall j | 1 <= j < k
      ensures !healthy[Step(cur, j, n)]
    {
      var q := Step(cur, j, n);
      if r + 1 < |hs| {
        NoneBetween(healthy, r + 1, q);
      } else if q > cur {
        NoneBetween(healthy, |hs|, q);
      } else {
        NoneBetween(healthy, 0, q);
      }
    }
    assert FirstAfter(healthy, cur, k, p);
    PickUnique(healthy, cur, k, p);
  }

  lemma PickIsHealthy(healthy: seq<bool>, cur: nat)
    requires cur < |healthy| && 2 <= |Healthy(healthy, 0)|
    ensures healthy[Pick(healthy, cur)]
  {
    var hs := Healthy(healthy, 0);
    assert hs[0] < hs[1];
    assert OtherHealthy(healthy, cur) by {
      assert healthy[if hs[0] != cur then hs[0] else hs[1]];
    }
    PickCorrect(healthy, cur);
  }

  // Going round a cycle of `n` one step at a time.

  function Turn(r: nat, m: nat, n: nat): (p: nat)
    requires r < n
    ensures p < n
  {
    if m == 0 then r else Step(Turn(r, m - 1, n), 1, n)
  }

  lemma {:induction false} TurnSteps(r: nat, m: nat, j: nat, n: nat)
    requires r < n && j < n
    ensures Turn(r, m + j, n) == Step(Turn(r, m, n), j, n)
  {
    if j > 0 {
      TurnSteps(r, m, j - 1, n);
      assert Turn(r, m + j, n) == Step(Turn(r, m + j - 1, n), 1, n);
    }
  }

  /** `j` is the one place in the window of `n` turns from `start` where `t` comes up. */
  lemma TurnWindow(r: nat, start: nat, t: nat, n: nat) returns (j: nat)
    requires r < n && t < n
    ensures start <= j < start + n
    ensures forall i: nat :: start <= i < start + n ==> (Turn(r, i, n) == t <==> i == j)
  {
    var base := Turn(r, start, n);
    j := start + if t >= base then t - base else t + n - base;
    forall i: nat | start <= i < start + n
      ensures Turn(r, i, n) == t <==> i == j
    {
      TurnSteps(r, start, i - start, n);
    }
  }

  /** Rotation, at least two healthy: the picks run through the healthy positions cyclically, for
      ever, from whichever one comes first. */
  lemma {:induction false} RotatesThroughHealthy(healthy: seq<bool>, cur: nat, r: nat, m: nat)
    requires var hs := Healthy(healthy, 0);
             && cur < |healthy| && 2 <= |hs| && r < |hs| && Nth(healthy, cur, 0) == hs[r]
    ensures var hs := Healthy(healthy, 0); Nth(healthy, cur, m) == hs[Turn(r, m, |hs|)]
  {
    hide Pick, Scan, Healthy;
    if m > 0 {
      RotatesThroughHealthy(healthy, cur, r, m - 1);
      PickNextHealthy(healthy, Turn(r, m - 1, |Healthy(healthy, 0)|));
    }
  }

  /** `j` is the one pick in the window of `size` picks from `start` that selects `p`. */
  ghost predicate PickedOnceAt(healthy: seq<bool>, cur: nat, start: nat, size: nat, p: nat, j: nat)
    requires cur < |healthy|
  {
    && start <= j < start + size
    && forall i: nat :: start <= i < start + size ==> (Nth(healthy, cur, i) == p <==> i == j)
  }

  /** Fairness: with |H| >= 2 healthy positions every pick is healthy, and every window of |H|
      consecutive picks visits each healthy position exactly once. */
  lemma WindowVisitsEachOnce(healthy: seq<bool>, cur: nat, start: nat, p: nat)
    requires cur < |healthy| && 2 <= |Healthy(healthy, 0)| && p < |healthy|
    ensures healthy[Nth(healthy, cur, start)]
    ensures healthy[p] ==>
              exists j :: PickedOnceAt(healthy, cur, start, |Healthy(healthy, 0)|, p, j)
  {
    hide Pick, Scan, Healthy, Turn;
    var hs := Healthy(healthy, 0);
    PickIsHealthy(healthy, cur);
    assert Nth(healthy, cur, 0) in hs;
    var r :| 0 <= r < |hs| && hs[r] == Nth(healthy, cur, 0);
    RotatesThroughHealthy(healthy, cur, r, start);
    if healthy[p] {
      var t :| 0 <= t < |hs| && hs[t] == p;
      var j := TurnWindow(r, start, t, |hs|);
      forall i: nat | start <= i < start + |hs|
        ensures Nth(healthy, cur, i) == p <==> i == j
      {
        RotatesThroughHealthy(healthy, cur, r, i);
        DistinctHealthy(healthy, Turn(r, i, |hs|), t);
      }
      assert PickedOnceAt(healthy, cur, start, |hs|, p, j);
    }
  }

  lemma DistinctHealthy(healthy: seq<bool>, a: nat, b: nat)
    requires var hs := Healthy(healthy, 0); a < |hs| && b < |hs|
    ensures var hs := Healthy(healthy, 0); hs[a] == hs[b] <==> a == b
  {
  }

  /** Rotation, one healthy among several: after the healthy position `w` comes its immediate
      successor, after anything else comes `w`; so two consecutive picks always include it. */
  lemma SoleHealthyAlternates(healthy: seq<bool>, cur: nat, w: nat, m: nat)
    requires cur < |healthy| && w < |healthy| && 2 <= |healthy|
    requires forall p :: 0 <= p < |healthy| ==> (healthy[p] <==> p == w)
    ensures Nth(healthy, cur, m + 1)
         == if Nth(healthy, cur, m) == w then Step(w, 1, |healthy|) else w
    ensures Nth(healthy, cur, m) == w || Nth(healthy, cur, m + 1) == w
  {
    var at := Nth(healthy, cur, m);
    PickCorrect(healthy, at);
    assert healthy[w];
  }

  /** Rotation, nobody healthy: plain round robin over all positions. */
  lemma {:induction false} NoneHealthyRotates(healthy: seq<bool>, cur: nat, m: nat)
    requires cur < |healthy|
    requires forall p :: 0 <= p < |healthy| ==> !healthy[p]
    ensures Nth(healthy, cur, m) == Turn(Step(cur, 1, |healthy|), m, |healthy|)
  {
    hide Pick, Scan;
    if m == 0 {
      PickCorrect(healthy, cur);
    } else {
      NoneHealthyRotates(healthy, cur, m - 1);
      PickCorrect(healthy, Nth(healthy, cur, m - 1));
    }
  }

  /** With nobody healthy, every n consecutive picks visit every position exactly once. */
  lemma NoneHealthyVisitsAll(healthy: seq<bool>, cur: nat, start: nat, p: nat)
    requires cur < |healthy| && p < |healthy|
    requires forall q :: 0 <= q < |healthy| ==> !healthy[q]
    ensures exists j :: PickedOnceAt(healthy, cur, start, |healthy|, p, j)
  {
    var n := |healthy|;
    var j := TurnWindow(Step(cur, 1, n), start, p, n);
    forall i: nat | start <= i < start + n
      ensures Nth(healthy, cur, i) == p <==> i == j
    {
      NoneHealthyRotates(healthy, cur, i);
    }
    assert PickedOnceAt(healthy, cur, start, n, p, j);
  }
}
