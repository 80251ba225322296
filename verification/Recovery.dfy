/** Recovery: how many calls pass before a server that answers is found again, when every server has
    reached the threshold and from any other state. */
module Recovery {
  import opened Selection
  import opened ProxyState

  /** The state after consecutive calls with these outcomes and no refresh in between. */
  function Calls(c: Config, s: State, outs: seq<bool>): (r: State)
    requires s.rows != [] && InRange(s)
    ensures r.rows != [] && InRange(r) && |r.rows| == |s.rows|
  {
    if outs == [] then s
    else Called(c, Calls(c, s, outs[..|outs| - 1]), outs[|outs| - 1])
  }

  /** The address that call number `k` goes to. */
  function Asked(c: Config, s: State, outs: seq<bool>, k: nat): string
    requires s.rows != [] && InRange(s) && k <= |outs|
  {
    NextAddr(c, Calls(c, s, outs[..k]))
  }

  ghost predicate AllDown(c: Config, rows: seq<Row>) {
    forall i :: 0 <= i < |rows| ==> rows[i].fail >= c.maxFail
  }

  lemma {:induction false} FailuresRotate(c: Config, s: State, outs: seq<bool>)
    requires s.rows != [] && InRange(s) && AllDown(c, s.rows)
    requires forall k :: 0 <= k < |outs| ==> !outs[k]
    ensures var r := Calls(c, s, outs);
            && AllDown(c, r.rows) && r.index == Turn(s.index, |outs|, |s.rows|)
            && forall i :: 0 <= i < |s.rows| ==> r.rows[i].addr == s.rows[i].addr
  {
    hide Pick;
    if outs != [] {
      var before := Calls(c, s, outs[..|outs| - 1]);
      FailuresRotate(c, s, outs[..|outs| - 1]);
      PickCorrect(Health(c, before.rows), before.index);
    }
  }

  /** Call `k` succeeds and leaves its address with no failures. */
  ghost predicate RecoversAt(c: Config, s: State, outs: seq<bool>, k: int)
    requires s.rows != [] && InRange(s)
  {
    && 0 <= k < |outs| && outs[k]
    && NoFailures(Calls(c, s, outs[..k + 1]).rows, Asked(c, s, outs, k))
  }

  ghost predicate NoFailures(rows: seq<Row>, addr: string) {
    forall i :: 0 <= i < |rows| && rows[i].addr == addr ==> rows[i].fail == 0
  }

  /** The address succeeds whenever it is asked. */
  ghost predicate Answers(c: Config, s: State, outs: seq<bool>, addr: string)
    requires s.rows != [] && InRange(s)
  {
    forall k :: 0 <= k < |outs| && Asked(c, s, outs, k) == addr ==> outs[k]
  }

  /** After d - 1 failures in a row the position d steps on is asked. */
  lemma RotationAsks(c: Config, s: State, outs: seq<bool>, d: nat)
    requires s.rows != [] && InRange(s) && AllDown(c, s.rows)
    requires 1 <= d <= |s.rows| && d - 1 <= |outs|
    requires forall k :: 0 <= k < d - 1 ==> !outs[k]
    ensures Asked(c, s, outs, d - 1) == s.rows[Step(s.index, d, |s.rows|)].addr
  {
    hide Pick, Calls;
    var before := Calls(c, s, outs[..d - 1]);
    FailuresRotate(c, s, outs[..d - 1]);
    PickCorrect(Health(c, before.rows), before.index);
    TurnSteps(s.index, 0, d - 1, |s.rows|);
  }

  lemma SuccessClears(c: Config, s: State, outs: seq<bool>, k: nat)
    requires s.rows != [] && InRange(s) && k < |outs| && outs[k]
    ensures RecoversAt(c, s, outs, k)
  {
    hide Pick;
    assert outs[..k + 1][..k] == outs[..k];
  }

  /** With every position down and position `g` answering whenever it is asked, one of the next n
      calls succeeds, and that success sets the failure count of its address to 0. */
  lemma RecoversWithinOneRound(c: Config, s: State, outs: seq<bool>, g: nat)
    requires s.rows != [] && InRange(s) && AllDown(c, s.rows)
    requires |outs| >= |s.rows| && g < |s.rows| && Answers(c, s, outs, s.rows[g].addr)
    ensures exists k :: k < |s.rows| && RecoversAt(c, s, outs, k)
  {
    hide Calls;
    var d := StepsReachAll(s.index, g, |s.rows|);
    if k: nat :| k < d - 1 && outs[k] {
      SuccessClears(c, s, outs, k);
    } else {
      RotationAsks(c, s, outs, d);
      SuccessClears(c, s, outs, d - 1);
    }
  }

  // ------------------------------------------------------- from any state

  /** How many failures a row is short of the threshold. */
  function Short(c: Config, row: Row): nat {
    if row.fail < c.maxFail then c.maxFail - row.fail else 0
  }

  function Shortfall(c: Config, rows: seq<Row>): nat {
    if rows == [] then 0 else Short(c, rows[0]) + Shortfall(c, rows[1..])
  }

  lemma {:induction false} ShortfallOrder(c: Config, rows: seq<Row>, worn: seq<Row>, p: int)
    requires |worn| == |rows| && p < |rows|
    requires forall i :: 0 <= i < |rows| ==> Short(c, worn[i]) <= Short(c, rows[i])
    requires 0 <= p ==> Short(c, worn[p]) < Short(c, rows[p])
    ensures Shortfall(c, worn) <= Shortfall(c, rows)
    ensures 0 <= p ==> Shortfall(c, worn) < Shortfall(c, rows)
  {
    if rows != [] {
      ShortfallOrder(c, rows[1..], worn[1..], p - 1);
    }
  }

  lemma {:induction false} NoShortfall(c: Config, rows: seq<Row>)
    ensures Shortfall(c, rows) == 0 <==> AllDown(c, rows)
  {
    if rows != [] {
      NoShortfall(c, rows[1..]);
      assert AllDown(c, rows) <==> Short(c, rows[0]) == 0 && AllDown(c, rows[1..]) by {
        assert forall i :: 0 < i < |rows| ==> rows[1..][i - 1] == rows[i];
      }
    }
  }

  /** A failing call wears down the position it selects, and no position is ever further from the
      threshold than before. */
  lemma FailureWears(c: Config, s: State)
    requires s.rows != [] && InRange(s)
    ensures var r, p := Called(c, s, false), Chosen(c, s);
            && r.index == p && |r.rows| == |s.rows|
            && (forall i :: 0 <= i < |s.rows| ==> && r.rows[i].addr == s.rows[i].addr
                                                  && Short(c, r.rows[i]) <= Short(c, s.rows[i]))
            && r.rows[p].fail == s.rows[p].fail + 1
            && Shortfall(c, r.rows) <= Shortfall(c, s.rows)
            && (s.rows[p].fail < c.maxFail ==> Shortfall(c, r.rows) < Shortfall(c, s.rows))
  {
    hide Pick, Shortfall;
    var r, p := Called(c, s, false), Chosen(c, s);
    ShortfallOrder(c, s.rows, r.rows, if s.rows[p].fail < c.maxFail then p else -1);
  }

  lemma {:induction false} CallsCons(c: Config, s: State, outs: seq<bool>)
    requires s.rows != [] && InRange(s) && outs != []
    ensures Calls(c, s, outs) == Calls(c, Called(c, s, outs[0]), outs[1..])
  {
    hide Called;
    var init := outs[..|outs| - 1];
    if init != [] {
      CallsCons(c, s, init);
      assert outs[1..][..|outs[1..]| - 1] == init[1..];
    } else {
      assert Calls(c, s, init) == s;
    }
  }

  lemma AskedLater(c: Config, s: State, outs: seq<bool>, k: nat)
    requires s.rows != [] && InRange(s) && k < |outs|
    ensures Asked(c, s, outs, k + 1) == Asked(c, Called(c, s, outs[0]), outs[1..], k)
  {
    hide Calls, Called;
    CallsCons(c, s, outs[..k + 1]);
    assert outs[..k + 1][1..] == outs[1..][..k];
  }

  lemma RecoversLater(c: Config, s: State, outs: seq<bool>, k: int)
    requires s.rows != [] && InRange(s) && outs != []
    requires RecoversAt(c, Called(c, s, outs[0]), outs[1..], k)
    ensures RecoversAt(c, s, outs, k + 1)
  {
    SuccessClears(c, s, outs, k + 1);
  }

  lemma AnswersLater(c: Config, s: State, outs: seq<bool>, addr: string)
    requires s.rows != [] && InRange(s) && outs != [] && Answers(c, s, outs, addr)
    ensures Answers(c, Called(c, s, outs[0]), outs[1..], addr)
  {
    hide Asked, Called;
    forall k | 0 <= k < |outs[1..]| && Asked(c, Called(c, s, outs[0]), outs[1..], k) == addr
      ensures outs[1..][k]
    {
      AskedLater(c, s, outs, k);
      assert outs[k + 1];
    }
  }

  ghost predicate AtMost(c: Config, rows: seq<Row>, top: nat) {
    forall i :: 0 <= i < |rows| ==> Short(c, rows[i]) <= top
  }

  /** Only `w` is below the threshold. */
  ghost predicate OnlyBelow(c: Config, rows: seq<Row>, w: nat) {
    && w < |rows| && rows[w].fail < c.maxFail
    && forall i :: 0 <= i < |rows| && i != w ==> rows[i].fail >= c.maxFail
  }

  /** A degraded pick, while some position is below the threshold: it is the current one, alone. */
  lemma DegradedLeavesOne(c: Config, s: State)
    requires s.rows != [] && InRange(s) && !AllDown(c, s.rows)
    requires s.rows[Chosen(c, s)].fail >= c.maxFail
    ensures OnlyBelow(c, s.rows, s.index) && Chosen(c, s) != s.index
  {
    hide Pick;
    var healthy := Health(c, s.rows);
    PickCorrect(healthy, s.index);
    var i: nat :| i < |s.rows| && s.rows[i].fail < c.maxFail;
    assert healthy[i];
    assert forall q :: 0 <= q < |healthy| && q != s.index ==> !healthy[q];
  }

  /** The sole position below the threshold is selected from any other. */
  lemma OnlyBelowIsChosen(c: Config, s: State, w: nat)
    requires s.rows != [] && InRange(s) && OnlyBelow(c, s.rows, w) && s.index != w
    ensures Chosen(c, s) == w
  {
    hide Pick;
    var healthy := Health(c, s.rows);
    assert healthy[w];
    PickCorrect(healthy, s.index);
  }

  /** Two failures that start with a degraded pick bring every position closer to the threshold. */
  lemma DegradedPairWears(c: Config, s: State, top: nat)
    requires s.rows != [] && InRange(s) && !AllDown(c, s.rows) && AtMost(c, s.rows, top)
    requires s.rows[Chosen(c, s)].fail >= c.maxFail
    requires !AllDown(c, Called(c, s, false).rows)
    ensures var r := Called(c, Called(c, s, false), false);
            && top >= 1 && AtMost(c, r.rows, top - 1)
            && Shortfall(c, r.rows) < Shortfall(c, s.rows)
  {
    hide Called, Chosen, Shortfall, Health;
    var first := Called(c, s, false);
    var w := s.index;
    DegradedLeavesOne(c, s);
    FailureWears(c, s);
    assert OnlyBelow(c, first.rows, w) by {
      assert forall i :: 0 <= i < |s.rows| && i != w ==> Short(c, first.rows[i]) == 0;
      var i: nat :| i < |first.rows| && first.rows[i].fail < c.maxFail;
      assert i == w;
    }
    OnlyBelowIsChosen(c, first, w);
    FailureWears(c, first);
    var r := Called(c, first, false);
    assert Short(c, r.rows[w]) < Short(c, first.rows[w]);
    assert forall i :: 0 <= i < |s.rows| && i != w ==> Short(c, r.rows[i]) == 0;
  }

  /** Recovery from any state: let every position be at most `top` failures short of the threshold
      and all together Shortfall.  When position `g` answers whenever it is asked, one of the next
      Shortfall + top + n calls succeeds.  The stretch where one other position below the threshold
      alternates with its successor is what `top` pays for. */
  lemma {:induction false} RecoversFromAnywhere(c: Config, s: State, outs: seq<bool>, g: nat,
                                                top: nat)
    requires s.rows != [] && InRange(s) && AtMost(c, s.rows, top)
    requires |outs| >= Shortfall(c, s.rows) + top + |s.rows|
    requires g < |s.rows| && Answers(c, s, outs, s.rows[g].addr)
    ensures exists k :: RecoversAt(c, s, outs, k)
    decreases |outs|
  {
    hide Called, Chosen, Shortfall, RecoversAt, Answers;
    NoShortfall(c, s.rows);
    if AllDown(c, s.rows) {
      RecoversWithinOneRound(c, s, outs, g);
    } else if outs[0] {
      SuccessClears(c, s, outs, 0);
    } else {
      var first := Called(c, s, false);
      FailureWears(c, s);
      AnswersLater(c, s, outs, s.rows[g].addr);
      if Shortfall(c, first.rows) < Shortfall(c, s.rows) {
        RecoversFromAnywhere(c, first, outs[1..], g, top);
        var k :| RecoversAt(c, first, outs[1..], k);
        RecoversLater(c, s, outs, k);
      } else if outs[1] {
        SuccessClears(c, s, outs, 1);
      } else {
        NoShortfall(c, first.rows);
        DegradedPairWears(c, s, top);
        FailureWears(c, first);
        AnswersLater(c, first, outs[1..], s.rows[g].addr);
        RecoversFromAnywhere(c, Called(c, first, false), outs[1..][1..], g, top - 1);
        var k :| RecoversAt(c, Called(c, first, false), outs[1..][1..], k);
        RecoversLater(c, first, outs[1..], k);
        RecoversLater(c, s, outs, k + 1);
      }
    }
  }
}
