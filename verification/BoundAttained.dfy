/** The concurrent failure bound cannot be improved: for every threshold, every number of threads
    and every number D of dead addresses, some run from start-up attains it.

    The admins may list an address several times.  Here each dead address is listed once for every
    selection the bound allows, one address after the other: one thread fails max_fail_times_ - 1
    times, then every thread selects the address before any of them reports. */
module BoundAttained {
  import opened Text
  import opened AdminFallback
  import opened Selection
  import opened ProxyState
  import opened Threads
  import opened RunSteps
  import opened FailureBounds

  const UP: set<string> := {"u", "v"}

  // ------------------------------------------------------------------ the list

  function Dead(d: nat): string {
    seq(d + 1, _ => 'x')
  }

  function AllDead(count: nat): set<string> {
    if count == 0 then {} else AllDead(count - 1) + {Dead(count - 1)}
  }

  /** Two servers that stay up, then `copies` positions for each of the dead addresses. */
  function Roster(copies: nat, dead: nat): seq<string> {
    if dead == 0 then ["u", "v"]
    else Roster(copies, dead - 1) + seq(copies, _ => Dead(dead - 1))
  }

  lemma DeadDiffer(d: nat, e: nat)
    requires d != e
    ensures Dead(d) != Dead(e)
  {
    assert |Dead(d)| != |Dead(e)|;
  }

  lemma {:induction false} AllDeadAre(count: nat)
    ensures forall a :: a in AllDead(count) <==> exists d :: 0 <= d < count && a == Dead(d)
  {
    hide Dead;
    if count > 0 {
      AllDeadAre(count - 1);
    }
  }

  lemma {:induction false} AllDeadCount(count: nat)
    ensures |AllDead(count)| == count
  {
    hide Dead;
    if count > 0 {
      AllDeadCount(count - 1);
      AllDeadAre(count - 1);
      forall d: nat | d < count - 1
        ensures Dead(d) != Dead(count - 1)
      {
        DeadDiffer(d, count - 1);
      }
    }
  }

  lemma {:induction false} RosterShape(copies: nat, dead: nat)
    ensures var list := Roster(copies, dead);
            && 2 <= |list| && list[0] == "u" && list[1] == "v"
            && forall i :: 2 <= i < |list| ==> list[i] in AllDead(dead)
  {
    if dead > 0 {
      RosterShape(copies, dead - 1);
    }
  }

  lemma RosterIsListed(copies: nat, dead: nat)
    ensures Addresses(Roster(copies, dead))
  {
    hide Roster, AllDead;
    RosterShape(copies, dead);
    AllDeadAre(dead);
    var list := Roster(copies, dead);
    forall i | 0 <= i < |list|
      ensures IsRun(list[i], {' ', '&'})
    {
      if i >= 2 {
        var d :| 0 <= d < dead && list[i] == Dead(d);
      }
    }
  }

  lemma DeadIsNotUp(d: nat)
    ensures Dead(d) !in UP
  {
    assert Dead(d)[0] == 'x' && "u"[0] == 'u' && "v"[0] == 'v';
  }

  /** Where the copies of one dead address stand. */
  lemma {:induction false} RosterBlock(copies: nat, dead: nat, d: nat)
    requires d < dead
    ensures var list, from := Roster(copies, dead), |Roster(copies, d)|;
            && from + copies == |Roster(copies, d + 1)| <= |list|
            && forall i :: 0 <= i < |list| ==> (list[i] == Dead(d) <==> from <= i < from + copies)
  {
    hide Dead;
    if d < dead - 1 {
      RosterBlock(copies, dead - 1, d);
      DeadDiffer(d, dead - 1);
    } else {
      var before := Roster(copies, d);
      RosterShape(copies, d);
      AllDeadAre(d);
      DeadIsNotUp(d);
      forall i | 0 <= i < |before|
        ensures before[i] != Dead(d)
      {
        if i >= 2 {
          var e :| 0 <= e < d && before[i] == Dead(e);
          DeadDiffer(e, d);
        }
      }
    }
  }

  // --------------------------------------------------------------- one dead address

  /** The list is served up to position `index`; the address `a` has `f` failures and every other
      position from `from` on has none. */
  ghost predicate Serving(s: State, list: seq<string>, index: nat, a: string, f: nat, from: nat) {
    && |s.rows| == |list| && s.index == index < |list|
    && (forall i :: 0 <= i < |list| ==> s.rows[i].addr == list[i])
    && (forall i :: 0 <= i < |list| && list[i] == a ==> s.rows[i].fail == f)
    && (forall i :: from <= i < |list| && list[i] != a ==> s.rows[i].fail == 0)
  }

  /** What the run must respect, and how often the dead addresses were selected. */
  ghost predicate Tally(h: History, dead: set<string>, picks: nat) {
    && NoInstall(h) && NeverFail(h, UP) && Count(h, Success, dead) == 0
    && Selects(h, dead) == picks
  }

  /** Thread `t` calls and selects the dead address that stands next. */
  lemma Pick1(c: Config, s: System, h: History, t: nat, list: seq<string>, index: nat, a: string,
              f: nat, from: nat, dead: set<string>, picks: nat)
    returns (longer: History)
    requires Legal(c, s, h) && Serving(After(c, s, h).shared, list, index, a, f, from)
    requires f < c.maxFail && index + 1 < |list| && list[index + 1] == a && a in dead
    requires t < |After(c, s, h).threads| && After(c, s, h).threads[t] == Idle
    requires Tally(h, dead, picks)
    ensures Legal(c, s, longer) && Serving(After(c, s, longer).shared, list, index + 1, a, f, from)
    ensures After(c, s, longer).threads == After(c, s, h).threads[t := InFlight(a)]
    ensures Tally(longer, dead, picks + 1)
  {
    hide Legal, After, Pick;
    var entered := Enter(c, s, h, t);
    assert Tally(entered, dead, picks);
    NextIsChosen(c, After(c, s, entered).shared);
    longer := Take(c, s, entered, t);
    assert After(c, s, longer).threads == After(c, s, h).threads[t := InFlight(a)];
  }

  /** Thread `t` reports the failure. */
  lemma Fail1(c: Config, s: System, h: History, t: nat, list: seq<string>, index: nat, a: string,
              f: nat, from: nat, dead: set<string>, picks: nat)
    returns (longer: History)
    requires Legal(c, s, h) && Serving(After(c, s, h).shared, list, index, a, f, from)
    requires t < |After(c, s, h).threads| && After(c, s, h).threads[t] == InFlight(a)
    requires a !in UP && Tally(h, dead, picks)
    ensures Legal(c, s, longer)
    ensures Serving(After(c, s, longer).shared, list, index, a, f + 1, from)
    ensures After(c, s, longer).threads == After(c, s, h).threads[t := Idle]
    ensures Tally(longer, dead, picks)
  {
    hide Legal, After;
    longer := Answer(c, s, h, t, false);
  }

  ghost predicate AllIdle(threads: seq<Phase>, from: nat, count: nat) {
    |threads| == count && forall t :: from <= t < count ==> threads[t] == Idle
  }

  /** One thread fails `k` times. */
  lemma {:induction false} Wear(c: Config, s: System, h: History, list: seq<string>, index: nat,
                                a: string, from: nat, dead: set<string>, picks: nat, k: nat)
    returns (longer: History)
    requires Legal(c, s, h) && Serving(After(c, s, h).shared, list, index, a, 0, from)
    requires k < c.maxFail && index + k < |list| && a in dead && a !in UP
    requires forall i :: index < i <= index + k ==> list[i] == a
    requires AllIdle(After(c, s, h).threads, 0, |s.threads|) && |s.threads| >= 1
    requires Tally(h, dead, picks)
    ensures Legal(c, s, longer)
    ensures Serving(After(c, s, longer).shared, list, index + k, a, k, from)
    ensures AllIdle(After(c, s, longer).threads, 0, |s.threads|)
    ensures Tally(longer, dead, picks + k)
  {
    hide Legal, After, Serving, Tally;
    if k == 0 {
      longer := h;
    } else {
      longer := Wear(c, s, h, list, index, a, from, dead, picks, k - 1);
      longer := Pick1(c, s, longer, 0, list, index + k - 1, a, k - 1, from, dead, picks + k - 1);
      longer := Fail1(c, s, longer, 0, list, index + k, a, k - 1, from, dead, picks + k);
    }
  }

  /** Then `m` threads select the address before any of them reports. */
  lemma {:induction false} PileUp(c: Config, s: System, h: History, list: seq<string>, index: nat,
                                  a: string, f: nat, from: nat, dead: set<string>, picks: nat, m: nat)
    returns (longer: History)
    requires Legal(c, s, h) && Serving(After(c, s, h).shared, list, index, a, f, from)
    requires f < c.maxFail && index + m < |list| && a in dead && m <= |s.threads|
    requires forall i :: index < i <= index + m ==> list[i] == a
    requires AllIdle(After(c, s, h).threads, 0, |s.threads|)
    requires Tally(h, dead, picks)
    ensures Legal(c, s, longer)
    ensures Serving(After(c, s, longer).shared, list, index + m, a, f, from)
    ensures AllIdle(After(c, s, longer).threads, m, |s.threads|)
    ensures forall t :: 0 <= t < m ==> After(c, s, longer).threads[t] == InFlight(a)
    ensures Tally(longer, dead, picks + m)
  {
    hide Legal, After, Serving, Tally;
    if m == 0 {
      longer := h;
    } else {
      longer := PileUp(c, s, h, list, index, a, f, from, dead, picks, m - 1);
      longer := Pick1(c, s, longer, m - 1, list, index + m - 1, a, f, from, dead, picks + m - 1);
    }
  }

  /** And they all report. */
  lemma {:induction false} Report(c: Config, s: System, h: History, list: seq<string>, index: nat,
                                  a: string, f: nat, from: nat, dead: set<string>, picks: nat, m: nat)
    returns (longer: History, fails: nat)
    requires Legal(c, s, h) && Serving(After(c, s, h).shared, list, index, a, f, from)
    requires a !in UP && m <= |s.threads| && AllIdle(After(c, s, h).threads, m, |s.threads|)
    requires forall t :: 0 <= t < m ==> After(c, s, h).threads[t] == InFlight(a)
    requires Tally(h, dead, picks)
    ensures Legal(c, s, longer)
    ensures Serving(After(c, s, longer).shared, list, index, a, fails, from)
    ensures AllIdle(After(c, s, longer).threads, 0, |s.threads|)
    ensures Tally(longer, dead, picks)
    decreases m
  {
    hide Legal, After, Serving, Tally;
    if m == 0 {
      longer, fails := h, f;
    } else {
      longer := Fail1(c, s, h, m - 1, list, index, a, f, from, dead, picks);
      longer, fails := Report(c, s, longer, list, index, a, f + 1, from, dead, picks, m - 1);
    }
  }

  /** All selections the bound allows for one dead address, whose copies stand next. */
  lemma Exhaust(c: Config, s: System, h: History, list: seq<string>, index: nat, a: string,
                dead: set<string>, picks: nat)
    returns (longer: History, fails: nat)
    requires c.maxFail >= 1 && |s.threads| >= 1 && a in dead && a !in UP
    requires var copies := Allowance(c, s);
             && index + copies < |list|
             && forall i :: index < i <= index + copies ==> list[i] == a
    requires Legal(c, s, h) && Serving(After(c, s, h).shared, list, index, a, 0, index + 1)
    requires AllIdle(After(c, s, h).threads, 0, |s.threads|) && Tally(h, dead, picks)
    ensures Legal(c, s, longer)
    ensures var end := index + Allowance(c, s);
            Serving(After(c, s, longer).shared, list, end, a, fails, end + 1)
    ensures AllIdle(After(c, s, longer).threads, 0, |s.threads|)
    ensures Tally(longer, dead, picks + Allowance(c, s))
  {
    hide Legal, After, Tally, AllIdle;
    var k, m, from := c.maxFail - 1, |s.threads|, index + 1;
    longer := Wear(c, s, h, list, index, a, from, dead, picks, k);
    longer := PileUp(c, s, longer, list, index + k, a, k, from, dead, picks + k, m);
    longer, fails := Report(c, s, longer, list, index + k + m, a, k, from, dead, picks + k + m, m);
  }

  // ------------------------------------------------------------------ the whole run

  /** The positions before `at` are used up, `a` is the last of them, and the dead addresses were
      selected `picks` times. */
  ghost predicate Exhausted(c: Config, s: System, list: seq<string>, at: nat, dead: set<string>,
                            picks: nat, g: History, a: string, fails: nat)
  {
    && at >= 1 && Legal(c, s, g)
    && Serving(After(c, s, g).shared, list, at - 1, a, fails, at)
    && (forall i :: at <= i < |list| ==> list[i] != a)
    && AllIdle(After(c, s, g).threads, 0, |s.threads|)
    && Tally(g, dead, picks)
  }

  lemma ExhaustNone(c: Config, count: nat, copies: nat, total: nat) returns (g: History)
    requires c.maxFail >= 1 && count >= 1
    ensures var list := Roster(copies, total);
            Exhausted(c, StartedUp(c, count, list), list, |Roster(copies, 0)|, AllDead(total), 0,
                      g, "u", 0)
  {
    hide Legal, After, Tally, Serving, Roster, AllDead, Dead;
    RosterShape(copies, total);
    AllDeadAre(total);
    forall x | x in AllDead(total)
      ensures x !in UP
    {
      var e :| 0 <= e < total && x == Dead(e);
      DeadIsNotUp(e);
    }
    g := Opening(c, count, Roster(copies, total), AllDead(total));
    RosterEmpty(copies);
  }

  lemma ExhaustNext(c: Config, s: System, copies: nat, total: nat, d: nat, picks: nat, g: History,
                    a: string, fails: nat)
    returns (longer: History, more: nat)
    requires c.maxFail >= 1 && |s.threads| >= 1 && d < total && copies == Allowance(c, s)
    requires Exhausted(c, s, Roster(copies, total), |Roster(copies, d)|, AllDead(total), picks,
                       g, a, fails)
    ensures Exhausted(c, s, Roster(copies, total), |Roster(copies, d + 1)|, AllDead(total),
                      picks + copies, longer, Dead(d), more)
  {
    hide Legal, After, Tally, Serving, Roster, AllDead, Dead;
    var list, index := Roster(copies, total), |Roster(copies, d)| - 1;
    RosterBlock(copies, total, d);
    AllDeadAre(total);
    DeadIsNotUp(d);
    NextAddress(After(c, s, g).shared, list, index, a, fails, Dead(d));
    longer, more := Exhaust(c, s, g, list, index, Dead(d), AllDead(total), picks);
  }

  /** The run after the first `d` dead addresses. */
  lemma {:induction false} ExhaustAll(c: Config, count: nat, copies: nat, total: nat, d: nat)
    returns (g: History, a: string, fails: nat)
    requires c.maxFail >= 1 && count >= 1 && copies == c.maxFail + count - 1 && d <= total
    ensures var list := Roster(copies, total);
            Exhausted(c, StartedUp(c, count, list), list, |Roster(copies, d)|, AllDead(total),
                      copies * d, g, a, fails)
  {
    hide Exhausted, Roster, AllDead;
    if d == 0 {
      g := ExhaustNone(c, count, copies, total);
      a, fails := "u", 0;
    } else {
      g, a, fails := ExhaustAll(c, count, copies, total, d - 1);
      var s := StartedUp(c, count, Roster(copies, total));
      g, fails := ExhaustNext(c, s, copies, total, d - 1, copies * (d - 1), g, a, fails);
      a := Dead(d - 1);
      Distribute(copies, d - 1, 1);
    }
  }

  lemma RosterEmpty(copies: nat)
    ensures |Roster(copies, 0)| == 2
  {
  }

  /** What stands behind the served part has not failed yet. */
  lemma NextAddress(s: State, list: seq<string>, index: nat, a: string, f: nat, b: string)
    requires Serving(s, list, index, a, f, index + 1)
    requires forall i :: index < i < |list| ==> list[i] != a
    requires forall i :: 0 <= i < |list| && list[i] == b ==> index < i
    ensures Serving(s, list, index, b, 0, index + 1)
  {
  }

  /** The installing thread's own call, to the second server. */
  lemma Opening(c: Config, count: nat, list: seq<string>, dead: set<string>) returns (g: History)
    requires c.maxFail >= 1 && count >= 1
    requires 2 <= |list| && list[0] == "u" && list[1] == "v" && forall x :: x in dead ==> x !in UP
    ensures var s := StartedUp(c, count, list);
            && Legal(c, s, g) && Serving(After(c, s, g).shared, list, 1, "u", 0, 2)
            && AllIdle(After(c, s, g).threads, 0, count) && Tally(g, dead, 0)
  {
    hide Legal, After, Pick;
    var s := StartedUp(c, count, list);
    StartOfRun(c, s);
    assert "v" in UP && "v" !in dead;
    NextIsChosen(c, s.shared);
    var taken := Take(c, s, Empty, 0);
    assert Tally(taken, dead, 0) by { assert Tally(Empty, dead, 0); }
    g := Answer(c, s, taken, 0, true);
  }

  /** The bound of DeadAddressesAfterInstall is attained by a run from start-up, for every
      threshold, number of threads and number of dead addresses. */
  lemma DeadAddressesBoundAttained(c: Config, count: nat, total: nat)
    returns (past: History, e: Event, g: History, dead: set<string>)
    requires c.maxFail >= 1 && count >= 1
    ensures Legal(c, Initial(count), Append(Then(past, e), g)) && e.Install? && NoInstall(g)
    ensures 2 <= |e.list| && e.list[0] in UP && e.list[1] in UP
    ensures NeverFail(g, UP) && Count(g, Success, dead) == 0 && |dead| == total
    ensures Selects(g, dead) == (c.maxFail + count - 1) * total
  {
    hide Legal, After, Roster, AllDead, Append;
    var list := Roster(c.maxFail + count - 1, total);
    RosterIsListed(c.maxFail + count - 1, total);
    RosterShape(c.maxFail + count - 1, total);
    AllDeadCount(total);
    past, e := StartUp(c, count, list);
    dead := AllDead(total);
    var a, fails;
    g, a, fails := ExhaustAll(c, count, c.maxFail + count - 1, total, total);
    AppendRuns(c, Initial(count), Then(past, e), g);
  }
}
