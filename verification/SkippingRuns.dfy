/** When an unavailable server is avoided, and runs in which the promises of the header fail. */
module SkippingRuns {
  import opened AdminFallback
  import opened Selection
  import opened ProxyState
  import opened Threads
  import opened RunSteps

  /** A position other than `cur` has not reached the threshold. */
  ghost predicate OtherBelow(c: Config, rows: seq<Row>, cur: nat) {
    exists q :: 0 <= q < |rows| && q != cur && rows[q].fail < c.maxFail
  }

  /** A server that has reached max_fail_times_ is selected exactly when no position but the
      current one is below it, unless the list is that one server. */
  lemma PickedPastThreshold(c: Config, s: System, e: Event)
    requires Enabled(c, s, e) && e.Select?
    ensures s.shared.rows[e.pos].fail >= c.maxFail
       <==> && !OtherBelow(c, s.shared.rows, s.shared.index)
            && !(|s.shared.rows| == 1 && s.shared.rows[0].fail < c.maxFail)
  {
    hide Pick;
    var healthy := Health(c, s.shared.rows);
    SkipsUnhealthyExactly(healthy, s.shared.index);
    if OtherBelow(c, s.shared.rows, s.shared.index) {
      var q :| 0 <= q < |healthy| && q != s.shared.index && s.shared.rows[q].fail < c.maxFail;
      assert healthy[q];
    }
  }

  /** The server whose turn it is gets avoided exactly when it has reached max_fail_times_, which
      it need not exceed, and some position but the current one has not. */
  lemma AvoidedExactly(c: Config, s: System, e: Event)
    requires Enabled(c, s, e) && e.Select?
    ensures var next := Step(s.shared.index, 1, |s.shared.rows|);
            e.pos != next
            <==> s.shared.rows[next].fail >= c.maxFail && OtherBelow(c, s.shared.rows, s.shared.index)
  {
    hide Pick;
    var rows, cur := s.shared.rows, s.shared.index;
    var healthy, next := Health(c, rows), Step(cur, 1, |rows|);
    PickCorrect(healthy, cur);
    if healthy[next] && next != cur {
      assert FirstAfter(healthy, cur, 1, next);
      PickUnique(healthy, cur, 1, next);
    }
    if OtherBelow(c, rows, cur) {
      var q :| 0 <= q < |rows| && q != cur && rows[q].fail < c.maxFail;
      assert healthy[q];
    }
  }

  // -------------------------------------- a run that wears one server down to the threshold

  /** The server at position 1 has failed `k` times in a row, the others never. */
  ghost predicate Worn(s: System, list: seq<string>, k: nat, index: nat) {
    && s.threads == [Choosing] && |s.shared.rows| == |list| && s.shared.index == index < |list|
    && (forall i :: 0 <= i < |list| ==>
          s.shared.rows[i].addr == list[i] && s.shared.rows[i].fail == if i == 1 then k else 0)
  }

  ghost predicate GoodList(list: seq<string>) {
    Addresses(list) && 2 <= |list| && forall i :: 0 <= i < |list| && i != 1 ==> list[i] != list[1]
  }

  /** The thread asks the next server: position 1 fails, the others answer. */
  lemma Visit(c: Config, s: System, h: History, list: seq<string>, k: nat, index: nat)
    returns (longer: History)
    requires GoodList(list) && Legal(c, s, h) && Worn(After(c, s, h), list, k, index)
    requires c.maxFail >= 1 && (index == 0 ==> k < c.maxFail || |list| == 2)
    ensures var next := Step(index, 1, |list|);
            Legal(c, s, longer)
            && Worn(After(c, s, longer), list, if next == 1 then k + 1 else k, next)
  {
    hide Legal, After, Pick;
    NextIsChosen(c, After(c, s, h).shared);
    longer := Take(c, s, h, 0);
    longer := Answer(c, s, longer, 0, Step(index, 1, |list|) != 1);
    longer := Enter(c, s, longer, 0);
  }

  /** Round to the start of the list. */
  lemma {:induction false} ToStart(c: Config, s: System, h: History, list: seq<string>, k: nat,
                                   index: nat)
    returns (longer: History)
    requires GoodList(list) && Legal(c, s, h) && Worn(After(c, s, h), list, k, index)
    requires c.maxFail >= 1
    ensures Legal(c, s, longer) && Worn(After(c, s, longer), list, k, 0)
    decreases if index == 0 then 0 else |list| - index
  {
    hide Legal, After, Worn;
    if index == 0 {
      longer := h;
    } else {
      assert index < |list| by { WornInRange(After(c, s, h), list, k, index); }
      longer := Visit(c, s, h, list, k, index);
      longer := ToStart(c, s, longer, list, k, Step(index, 1, |list|));
    }
  }

  lemma WornInRange(s: System, list: seq<string>, k: nat, index: nat)
    requires Worn(s, list, k, index)
    ensures index < |list|
  {
  }

  /** From start-up, position 1 fails `k` times and the first position is current again. */
  lemma {:induction false} WearDown(c: Config, list: seq<string>, k: nat) returns (h: History)
    requires GoodList(list) && 1 <= c.maxFail && (k <= c.maxFail || |list| == 2)
    ensures Legal(c, Initial(1), h) && Worn(After(c, Initial(1), h), list, k, 0)
  {
    hide Legal, After;
    if k == 0 {
      var past, e := StartUp(c, 1, list);
      h := Then(past, e);
    } else {
      h := WearDown(c, list, k - 1);
      h := Visit(c, Initial(1), h, list, k - 1, 0);
      h := ToStart(c, Initial(1), h, list, k, 1);
    }
  }

  /** The promise to skip unavailable servers fails in a run from start-up, for every threshold: the
      current server never failed, the other one has failed max_fail_times_ times or any number of
      times more, and it is the one selected. */
  lemma SkipsUnhealthyFails(c: Config, more: nat) returns (h: History)
    requires c.maxFail >= 1
    ensures h.Then? && Legal(c, Initial(1), h) && h.event == Select(0, 1, "b", true)
    ensures var s := After(c, Initial(1), h.past).shared;
            s.index == 0 && s.rows[0].fail == 0 && s.rows[1].fail == c.maxFail + more
  {
    hide Legal, After, Pick;
    var list := ["a", "b"];
    var before := WearDown(c, list, c.maxFail + more);
    NextIsChosen(c, After(c, Initial(1), before).shared);
    h := Take(c, Initial(1), before, 0);
  }

  /** A server is avoided before its failures exceed max_fail_times_: it has failed exactly that
      often, it is its turn, and the one behind it is selected. */
  lemma AvoidedAtThreshold(c: Config) returns (h: History)
    requires c.maxFail >= 1
    ensures h.Then? && Legal(c, Initial(1), h) && h.event == Select(0, 2, "c", false)
    ensures var s := After(c, Initial(1), h.past).shared;
            s.index == 0 && s.rows[1].fail == c.maxFail
  {
    hide Legal, After, Pick;
    var list := ["a", "b", "c"];
    var before := WearDown(c, list, c.maxFail);
    var at := After(c, Initial(1), before);
    var healthy := Health(c, at.shared.rows);
    assert FirstAfter(healthy, 0, 2, 2);
    PickUnique(healthy, 0, 2, 2);
    h := Take(c, Initial(1), before, 0);
  }
}
