/** Building blocks for concrete runs: start-up, and one step of a thread at a time. */
module RunSteps {
  import opened AdminFallback
  import opened Selection
  import opened ProxyState
  import opened Threads

  /** A thread passes both checks at time `now` and stops at the lock. */
  lemma ReachLock(c: Config, s: System, h: History, t: nat, now: nat, replies: seq<Exchange>)
    returns (longer: History)
    requires Legal(c, s, h) && replies != [] && Fallback(replies).0 == 0
    requires var at := After(c, s, h);
             t < |at.threads| && at.threads[t] == Idle && Stale(c, at.shared, now)
    ensures Legal(c, s, longer)
    ensures After(c, s, longer)
         == After(c, s, h).(threads := After(c, s, h).threads[
              t := Installing(now, Fallback(replies).1)])
  {
    hide Fallback, Legal, After;
    longer := RunStep(c, s, h, Check(t, now));
    longer := RunStep(c, s, longer, Fetch(t, replies));
    longer := RunStep(c, s, longer, Recheck(t));
    var at := After(c, s, h);
    assert After(c, s, longer).threads == at.threads[t := Installing(now, Fallback(replies).1)];
  }

  lemma ReplyIsUsed(list: seq<string>)
    requires Addresses(list)
    ensures Fallback([Exchange(0, ListReply(list))]) == (0, list)
  {
    hide Code, List;
    ListReplyDecodes(list);
  }

  /** The system once thread 0 has installed `list`, nobody else having moved. */
  function StartedUp(c: Config, count: nat, list: seq<string>): System
    requires count >= 1
  {
    System(Installed(list, c.interval + 1), Initial(count).threads[0 := Choosing])
  }

  /** From start-up the first thread can install any list of addresses. */
  lemma StartUp(c: Config, count: nat, list: seq<string>) returns (past: History, e: Event)
    requires count >= 1 && Addresses(list)
    ensures e == Install(0, c.interval + 1, list)
    ensures Legal(c, Initial(count), Then(past, e))
    ensures After(c, Initial(count), Then(past, e)) == StartedUp(c, count, list)
  {
    hide Fallback, Legal, After, Addresses;
    var s := Initial(count);
    ReplyIsUsed(list);
    StartOfRun(c, s);
    past := ReachLock(c, s, Empty, 0, c.interval + 1, [Exchange(0, ListReply(list))]);
    e := Install(0, c.interval + 1, list);
    var longer := RunStep(c, s, past, e);
    assert After(c, s, longer).threads == StartedUp(c, count, list).threads;
  }

  /** Thread `t` selects. */
  lemma Take(c: Config, s: System, h: History, t: nat) returns (longer: History)
    requires Legal(c, s, h)
    requires var at := After(c, s, h);
             && t < |at.threads| && at.threads[t] == Choosing
             && at.shared.rows != [] && InRange(at.shared)
    ensures Legal(c, s, longer)
    ensures var at := After(c, s, h);
            var p := Chosen(c, at.shared);
            var row := at.shared.rows[p];
            && longer == Then(h, Select(t, p, row.addr, !(row.fail < c.maxFail)))
            && After(c, s, longer)
               == System(at.shared.(index := p), at.threads[t := InFlight(row.addr)])
  {
    hide Legal, After, Pick;
    var at := After(c, s, h);
    var p := Chosen(c, at.shared);
    var row := at.shared.rows[p];
    longer := RunStep(c, s, h, Select(t, p, row.addr, !(row.fail < c.maxFail)));
  }

  /** The next position is the one selected when it is healthy, or when no position but the current
      one is. */
  lemma NextIsChosen(c: Config, s: State)
    requires 2 <= |s.rows| && s.index < |s.rows|
    requires var p := Step(s.index, 1, |s.rows|);
             s.rows[p].fail < c.maxFail || !OtherHealthy(Health(c, s.rows), s.index)
    ensures Chosen(c, s) == Step(s.index, 1, |s.rows|)
  {
    hide Pick;
    var healthy, p := Health(c, s.rows), Step(s.index, 1, |s.rows|);
    PickCorrect(healthy, s.index);
    if healthy[p] {
      assert FirstAfter(healthy, s.index, 1, p);
      PickUnique(healthy, s.index, 1, p);
    }
  }

  /** The request of thread `t` is answered and recorded. */
  lemma Answer(c: Config, s: System, h: History, t: nat, ok: bool) returns (longer: History)
    requires Legal(c, s, h)
    requires t < |After(c, s, h).threads| && After(c, s, h).threads[t].InFlight?
    ensures Legal(c, s, longer)
    ensures var at := After(c, s, h);
            var addr := at.threads[t].addr;
            && longer == Then(h, Record(t, addr, ok))
            && After(c, s, longer)
               == System(Recorded(at.shared, addr, ok), at.threads[t := Idle])
  {
    hide Legal, After;
    longer := RunStep(c, s, h, Record(t, After(c, s, h).threads[t].addr, ok));
  }

  /** Thread `t` enters get_server while the list is not stale. */
  lemma Enter(c: Config, s: System, h: History, t: nat) returns (longer: History)
    requires Legal(c, s, h)
    requires t < |After(c, s, h).threads| && After(c, s, h).threads[t] == Idle
    ensures Legal(c, s, longer)
    ensures var at := After(c, s, h);
            && longer == Then(h, Check(t, at.shared.lastRefresh))
            && After(c, s, longer) == at.(threads := at.threads[t := Choosing])
  {
    hide Legal, After;
    longer := RunStep(c, s, h, Check(t, After(c, s, h).shared.lastRefresh));
  }
}
