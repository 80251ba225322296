/** The sharper sequential bound is attained: a run of one thread from start-up with one server that
    never fails and D >= 1 that always do. */
module SurvivorAttained {
  import opened Text
  import opened AdminFallback
  import opened Selection
  import opened ProxyState
  import opened Threads
  import opened RunSteps
  import opened FailureBounds
  import opened BoundAttained
  import opened SurvivorBounds

  const UP1: string := "u"

  /** The survivor, then the dead addresses, once each. */
  function Fleet(dead: nat): seq<string> {
    seq(dead + 1, i requires 0 <= i <= dead => if i == 0 then UP1 else Dead(i - 1))
  }

  /** Calls alternate with nothing else; position `index` was the last, and the dead positions have
      the failures that `fails` gives. */
  ghost predicate Serving1(s: System, dead: nat, index: nat, fails: nat -> nat) {
    && s.threads == [Choosing] && Rows(s.shared, dead, index, fails)
  }

  ghost predicate Rows(s: State, dead: nat, index: nat, fails: nat -> nat) {
    && |s.rows| == dead + 1 && s.index == index <= dead
    && s.rows[0].addr == UP1 && s.rows[0].fail == 0
    && forall i: nat :: 1 <= i <= dead ==>
         s.rows[i].addr == Dead(i - 1) && s.rows[i].fail == fails(i)
  }

  /** F failures of the dead addresses and S successes of the survivor so far. */
  ghost predicate Score(h: History, dead: nat, failures: nat, successes: nat) {
    && NoInstall(h) && NeverFail(h, {UP1}) && Count(h, Success, AllDead(dead)) == 0
    && Count(h, Failure, AllDead(dead)) == failures && Count(h, Success, {UP1}) == successes
  }

  lemma ScoreStep(h: History, e: Event, dead: nat, failures: nat, successes: nat)
    requires Score(h, dead, failures, successes) && !e.Install? && !e.Record?
    ensures Score(Then(h, e), dead, failures, successes)
  {
  }

  lemma ScoreDead(h: History, t: nat, d: nat, dead: nat, failures: nat, successes: nat)
    requires Score(h, dead, failures, successes) && d < dead
    ensures Score(Then(h, Record(t, Dead(d), false)), dead, failures + 1, successes)
  {
    hide Dead, AllDead;
    DeadIsNotUp(d);
    AllDeadAre(dead);
  }

  lemma ScoreUp(h: History, t: nat, dead: nat, failures: nat, successes: nat)
    requires Score(h, dead, failures, successes)
    ensures Score(Then(h, Record(t, UP1, true)), dead, failures, successes + 1)
  {
    hide Dead, AllDead;
    UpIsNotDead(dead);
  }

  lemma UpIsNotDead(dead: nat)
    ensures UP1 !in AllDead(dead)
  {
    AllDeadAre(dead);
    forall d: nat
      ensures Dead(d) != UP1
    {
      DeadIsNotUp(d);
    }
  }

  /** A dead position `p` is asked and fails; the thread stays outside. */
  lemma AskDead(c: Config, s: System, h: History, dead: nat, index: nat, fails: nat -> nat, p: nat,
                failures: nat, successes: nat)
    returns (longer: History)
    requires Legal(c, s, h) && Serving1(After(c, s, h), dead, index, fails)
    requires 1 <= p <= dead && Chosen(c, After(c, s, h).shared) == p
    requires Score(h, dead, failures, successes)
    ensures Legal(c, s, longer) && After(c, s, longer).threads == [Idle]
    ensures Rows(After(c, s, longer).shared, dead, p, i => if i == p then fails(i) + 1 else fails(i))
    ensures Score(longer, dead, failures + 1, successes)
  {
    hide Legal, After, Pick, Score, Dead;
    var taken := Take(c, s, h, 0);
    ScoreStep(h, taken.event, dead, failures, successes);
    longer := Answer(c, s, taken, 0, false);
    ScoreDead(taken, 0, p - 1, dead, failures, successes);
    DeadIsNotUp(p - 1);
    forall d: nat | d != p - 1
      ensures Dead(d) != Dead(p - 1)
    {
      DeadDiffer(d, p - 1);
    }
  }

  /** The survivor is asked and answers. */
  lemma AskUp(c: Config, s: System, h: History, dead: nat, index: nat, fails: nat -> nat,
              failures: nat, successes: nat)
    returns (longer: History)
    requires Legal(c, s, h) && Serving1(After(c, s, h), dead, index, fails)
    requires Chosen(c, After(c, s, h).shared) == 0 && Score(h, dead, failures, successes)
    ensures Legal(c, s, longer) && Serving1(After(c, s, longer), dead, 0, fails)
    ensures Score(longer, dead, failures, successes + 1)
  {
    hide Legal, After, Pick, Score, Dead;
    var taken := Take(c, s, h, 0);
    ScoreStep(h, taken.event, dead, failures, successes);
    var answered := Answer(c, s, taken, 0, true);
    ScoreUp(taken, 0, dead, failures, successes);
    longer := Enter(c, s, answered, 0);
    ScoreStep(answered, longer.event, dead, failures, successes + 1);
    forall d: nat
      ensures Dead(d) != UP1
    {
      DeadIsNotUp(d);
    }
  }

  lemma Reenter(c: Config, s: System, h: History, dead: nat, index: nat, fails: nat -> nat,
                failures: nat, successes: nat)
    returns (longer: History)
    requires Legal(c, s, h) && After(c, s, h).threads == [Idle]
    requires Rows(After(c, s, h).shared, dead, index, fails) && Score(h, dead, failures, successes)
    ensures Legal(c, s, longer) && Serving1(After(c, s, longer), dead, index, fails)
    ensures Score(longer, dead, failures, successes)
  {
    hide Legal, After, Score;
    longer := Enter(c, s, h, 0);
    ScoreStep(h, longer.event, dead, failures, successes);
  }

  /** In round `k`, after position `index`. */
  function RoundFails(k: nat, index: nat): nat -> nat {
    (i: nat) => if i <= index then k + 1 else k
  }

  /** From the survivor to position `index` of round `k`, all below the threshold. */
  lemma {:induction false} PartRound(c: Config, s: System, h: History, dead: nat, k: nat,
                                     index: nat, failures: nat, successes: nat)
    returns (longer: History)
    requires dead >= 1 && index <= dead && k < c.maxFail
    requires Legal(c, s, h) && Serving1(After(c, s, h), dead, 0, RoundFails(k, 0))
    requires Score(h, dead, failures, successes)
    ensures Legal(c, s, longer) && Serving1(After(c, s, longer), dead, index, RoundFails(k, index))
    ensures Score(longer, dead, failures + index, successes)
  {
    hide Legal, After, Score, Pick, Dead;
    if index == 0 {
      longer := h;
    } else {
      longer := PartRound(c, s, h, dead, k, index - 1, failures, successes);
      NextIsChosen(c, After(c, s, longer).shared);
      longer := AskDead(c, s, longer, dead, index - 1, RoundFails(k, index - 1), index,
                        failures + index - 1, successes);
      longer := Reenter(c, s, longer, dead, index, RoundFails(k, index), failures + index, successes);
    }
  }

  lemma RoundsStart(c: Config, dead: nat)
    requires dead >= 1 && c.maxFail >= 1
    ensures var s := StartedUp(c, 1, Fleet(dead));
            && Legal(c, s, Empty) && Serving1(After(c, s, Empty), dead, 0, RoundFails(0, 0))
            && Score(Empty, dead, 0, 0)
  {
    hide Dead;
    StartOfRun(c, StartedUp(c, 1, Fleet(dead)));
  }

  /** Round `k` from the survivor back to the survivor. */
  lemma Round(c: Config, s: System, h: History, dead: nat, k: nat, failures: nat)
    returns (g: History)
    requires dead >= 1 && k < c.maxFail
    requires Legal(c, s, h) && Serving1(After(c, s, h), dead, 0, RoundFails(k, 0))
    requires Score(h, dead, failures, k)
    ensures Legal(c, s, g) && Serving1(After(c, s, g), dead, 0, RoundFails(k + 1, 0))
    ensures Score(g, dead, failures + dead, k + 1)
  {
    hide Legal, After, Score, Pick, Dead;
    g := PartRound(c, s, h, dead, k, dead, failures, k);
    NextIsChosen(c, After(c, s, g).shared);
    g := AskUp(c, s, g, dead, dead, RoundFails(k, dead), failures + dead, k);
  }

  /** `k` whole rounds from start-up. */
  lemma {:induction false} Rounds(c: Config, dead: nat, k: nat) returns (g: History)
    requires dead >= 1 && c.maxFail >= 1 && k <= c.maxFail
    ensures var s := StartedUp(c, 1, Fleet(dead));
            && Legal(c, s, g) && Serving1(After(c, s, g), dead, 0, RoundFails(k, 0))
            && Score(g, dead, k * dead, k)
  {
    hide Legal, After, Score, Serving1, RoundFails, StartedUp, Fleet;
    if k == 0 {
      g := Empty;
      RoundsStart(c, dead);
    } else {
      g := Rounds(c, dead, k - 1);
      g := Round(c, StartedUp(c, 1, Fleet(dead)), g, dead, k - 1, (k - 1) * dead);
      assert (k - 1) * dead + dead == k * dead;
    }
  }

  /** All dead positions have reached the threshold. */
  ghost predicate AllOver(c: Config, dead: nat, fails: nat -> nat) {
    forall i: nat :: 1 <= i <= dead ==> fails(i) >= c.maxFail
  }

  /** With the survivor current and the others past the threshold, its successor is selected. */
  lemma OverChoosesSuccessor(c: Config, s: State, dead: nat, fails: nat -> nat)
    requires dead >= 1 && Rows(s, dead, 0, fails) && AllOver(c, dead, fails)
    ensures Chosen(c, s) == 1
  {
    hide Pick, Dead;
    var healthy := Health(c, s.rows);
    assert forall q :: 1 <= q <= dead ==> !healthy[q];
    NextIsChosen(c, s);
  }

  /** And after that the survivor. */
  lemma OverReturns(c: Config, s: State, dead: nat, fails: nat -> nat)
    requires dead >= 1 && c.maxFail >= 1 && Rows(s, dead, 1, fails) && AllOver(c, dead, fails)
    ensures Chosen(c, s) == 0
  {
    hide Pick, Dead;
    var healthy := Health(c, s.rows);
    assert FirstAfter(healthy, 1, dead, 0);
    PickUnique(healthy, 1, dead, 0);
  }

  /** `extra` more rounds of two calls, past the threshold. */
  lemma {:induction false} Past(c: Config, dead: nat, extra: nat)
    returns (g: History, fails: nat -> nat)
    requires dead >= 1 && c.maxFail >= 1
    ensures var s := StartedUp(c, 1, Fleet(dead));
            && Legal(c, s, g) && Serving1(After(c, s, g), dead, 0, fails) && AllOver(c, dead, fails)
            && Score(g, dead, c.maxFail * dead + extra, c.maxFail + extra)
  {
    hide Legal, After, Score, Pick, Dead, Rows;
    var s := StartedUp(c, 1, Fleet(dead));
    if extra == 0 {
      g := Rounds(c, dead, c.maxFail);
      fails := RoundFails(c.maxFail, 0);
    } else {
      var before;
      g, before := Past(c, dead, extra - 1);
      var failures := c.maxFail * dead + extra - 1;
      OverChoosesSuccessor(c, After(c, s, g).shared, dead, before);
      g := AskDead(c, s, g, dead, 0, before, 1, failures, c.maxFail + extra - 1);
      fails := i => if i == 1 then before(i) + 1 else before(i);
      g := Reenter(c, s, g, dead, 1, fails, failures + 1, c.maxFail + extra - 1);
      OverReturns(c, After(c, s, g).shared, dead, fails);
      g := AskUp(c, s, g, dead, 1, fails, failures + 1, c.maxFail + extra - 1);
    }
  }

  lemma FleetIsListed(dead: nat)
    ensures Addresses(Fleet(dead))
  {
    var list := Fleet(dead);
    forall i | 0 <= i < |list|
      ensures IsRun(list[i], {' ', '&'})
    {
    }
  }

  /** For every threshold, D >= 1 and S >= max_fail_times_, a run of one thread from start-up reaches
      F == D * max_fail_times_ + S + 1 - max_fail_times_. */
  lemma SharpBoundAttained(c: Config, total: nat, extra: nat)
    returns (past: History, e: Event, g: History)
    requires c.maxFail >= 1 && total >= 1
    ensures Legal(c, Initial(1), Append(Then(past, e), g)) && e.Install? && NoInstall(g)
    ensures After(c, Initial(1), Append(Then(past, e), g)).threads == [Idle]
    ensures e.list == Fleet(total) && NeverFail(g, {e.list[0]})
    ensures |AllDead(total)| == total && Count(g, Success, AllDead(total)) == 0
    ensures var successes := Count(g, Success, {e.list[0]});
            && successes == c.maxFail + extra
            && Count(g, Failure, AllDead(total))
               == c.maxFail * total + Excess(successes, c.maxFail)
  {
    hide Legal, After, Pick, Dead, Rows, AllDead, Append;
    FleetIsListed(total);
    AllDeadCount(total);
    past, e := StartUp(c, 1, Fleet(total));
    var s := StartedUp(c, 1, Fleet(total));
    var fails;
    g, fails := Past(c, total, extra);
    OverChoosesSuccessor(c, After(c, s, g).shared, total, fails);
    g := AskDead(c, s, g, total, 0, fails, 1, c.maxFail * total + extra, c.maxFail + extra);
    AppendRuns(c, Initial(1), Then(past, e), g);
  }
}
