/** The bound for lists without repeats is attained: a run from start-up for every threshold, every
    number of threads and every number of dead addresses.

    One thread brings each dead address one failure short of the threshold.  Then every thread
    waits for some dead address, spread evenly, until the first one is given up by all who wait for
    it; the threads so freed spread over the remaining ones, and so on. */
module NoRepeatsAttained {
  import opened Text
  import opened AdminFallback
  import opened Selection
  import opened ProxyState
  import opened Threads
  import opened RunSteps
  import opened FailureBounds
  import opened SurvivorBounds
  import opened NoRepeats
  import opened BoundAttained

  /** Two servers that stay up, then each dead address once. */
  function Fleet(total: nat): seq<string> {
    seq(total + 2, i requires 0 <= i < total + 2 =>
      if i == 0 then "u" else if i == 1 then "v" else Dead(i - 2))
  }

  /** Position `index` is current and the dead positions have the failures that `fails` gives. */
  ghost predicate Board(s: State, total: nat, index: nat, fails: nat -> nat) {
    && |s.rows| == total + 2 && s.index == index < total + 2
    && s.rows[0].addr == "u" && s.rows[0].fail == 0 && s.rows[1].addr == "v" && s.rows[1].fail == 0
    && forall i: nat :: 2 <= i < total + 2 ==>
         s.rows[i].addr == Dead(i - 2) && s.rows[i].fail == fails(i)
  }

  /** What the run must respect, and how often dead addresses have failed. */
  ghost predicate Score(h: History, total: nat, failures: nat) {
    && NoInstall(h) && NeverFail(h, UP) && Count(h, Success, AllDead(total)) == 0
    && Count(h, Failure, AllDead(total)) == failures
  }

  // ------------------------------------------------------------------- single calls

  lemma ScoreStep(h: History, e: Event, total: nat, failures: nat)
    requires Score(h, total, failures) && !e.Install? && !e.Record?
    ensures Score(Then(h, e), total, failures)
  {
  }

  lemma ScoreUp(h: History, t: nat, a: string, total: nat, failures: nat)
    requires Score(h, total, failures) && a in UP
    ensures Score(Then(h, Record(t, a, true)), total, failures)
  {
    hide Dead, AllDead;
    AllDeadAre(total);
    forall d: nat
      ensures Dead(d) != a
    {
      DeadIsNotUp(d);
    }
  }

  lemma ScoreDead(h: History, t: nat, d: nat, total: nat, failures: nat)
    requires Score(h, total, failures) && d < total
    ensures Score(Then(h, Record(t, Dead(d), false)), total, failures + 1)
  {
    hide Dead, AllDead;
    DeadIsNotUp(d);
    AllDeadAre(total);
  }

  /** Thread `t` asks a server that stays up. */
  lemma AskUp(c: Config, s: System, h: History, total: nat, index: nat, fails: nat -> nat, t: nat,
              p: nat, failures: nat)
    returns (longer: History)
    requires Legal(c, s, h) && Board(After(c, s, h).shared, total, index, fails)
    requires t < |After(c, s, h).threads| && After(c, s, h).threads[t] == Idle
    requires p < 2 && Chosen(c, After(c, s, h).shared) == p && Score(h, total, failures)
    ensures Legal(c, s, longer) && Board(After(c, s, longer).shared, total, p, fails)
    ensures After(c, s, longer).threads == After(c, s, h).threads && Score(longer, total, failures)
  {
    hide Legal, After, Pick, Score, Dead;
    var entered := Enter(c, s, h, t);
    ScoreStep(h, entered.event, total, failures);
    var taken := Take(c, s, entered, t);
    ScoreStep(entered, taken.event, total, failures);
    longer := Answer(c, s, taken, t, true);
    ScoreUp(taken, t, taken.event.addr, total, failures);
    assert After(c, s, longer).threads == After(c, s, h).threads;
    forall d: nat
      ensures Dead(d) !in UP
    {
      DeadIsNotUp(d);
    }
  }

  /** Thread `t` asks a dead position and waits. */
  lemma Hold(c: Config, s: System, h: History, total: nat, index: nat, fails: nat -> nat, t: nat,
             p: nat, failures: nat)
    returns (longer: History)
    requires Legal(c, s, h) && Board(After(c, s, h).shared, total, index, fails)
    requires t < |After(c, s, h).threads| && After(c, s, h).threads[t] == Idle
    requires 2 <= p && Chosen(c, After(c, s, h).shared) == p && Score(h, total, failures)
    ensures Legal(c, s, longer) && Board(After(c, s, longer).shared, total, p, fails)
    ensures After(c, s, longer).threads == After(c, s, h).threads[t := InFlight(Dead(p - 2))]
    ensures Score(longer, total, failures)
  {
    hide Legal, After, Pick, Score, Dead;
    var entered := Enter(c, s, h, t);
    ScoreStep(h, entered.event, total, failures);
    longer := Take(c, s, entered, t);
    ScoreStep(entered, longer.event, total, failures);
    assert After(c, s, longer).threads == After(c, s, h).threads[t := InFlight(Dead(p - 2))];
  }

  /** Thread `t` gives up on dead address `d`. */
  lemma GiveUp(c: Config, s: System, h: History, total: nat, index: nat, fails: nat -> nat, t: nat,
               d: nat, failures: nat)
    returns (longer: History)
    requires Legal(c, s, h) && Board(After(c, s, h).shared, total, index, fails) && d < total
    requires t < |After(c, s, h).threads| && After(c, s, h).threads[t] == InFlight(Dead(d))
    requires Score(h, total, failures)
    ensures Legal(c, s, longer)
    ensures Board(After(c, s, longer).shared, total, index,
                  i => if i == d + 2 then fails(i) + 1 else fails(i))
    ensures After(c, s, longer).threads == After(c, s, h).threads[t := Idle]
    ensures Score(longer, total, failures + 1)
  {
    hide Legal, After, Score, Dead;
    longer := Answer(c, s, h, t, false);
    ScoreDead(h, t, d, total, failures);
    DeadIsNotUp(d);
    forall e: nat | e != d
      ensures Dead(e) != Dead(d)
    {
      DeadDiffer(e, d);
    }
  }

  // ------------------------------------------------- one failure short of the threshold

  ghost predicate Resting(threads: seq<Phase>, count: nat) {
    |threads| == count && forall t :: 0 <= t < count ==> threads[t] == Idle
  }

  /** In round `k`, after position `index`. */
  function Worn(k: nat, index: nat): nat -> nat {
    (i: nat) => if i <= index then k + 1 else k
  }

  /** From the second server to position `index` of round `k`. */
  lemma {:induction false} PartRound(c: Config, s: System, h: History, total: nat, count: nat,
                                     k: nat, index: nat, failures: nat)
    returns (longer: History)
    requires 1 <= index < total + 2 && k < c.maxFail && count >= 1
    requires Legal(c, s, h) && Board(After(c, s, h).shared, total, 1, Worn(k, 1))
    requires Resting(After(c, s, h).threads, count) && Score(h, total, failures)
    ensures Legal(c, s, longer) && Board(After(c, s, longer).shared, total, index, Worn(k, index))
    ensures Resting(After(c, s, longer).threads, count)
    ensures Score(longer, total, failures + index - 1)
  {
    hide Legal, After, Score, Pick, Dead;
    if index == 1 {
      longer := h;
    } else {
      longer := PartRound(c, s, h, total, count, k, index - 1, failures);
      NextIsChosen(c, After(c, s, longer).shared);
      longer := Hold(c, s, longer, total, index - 1, Worn(k, index - 1), 0, index,
                     failures + index - 2);
      longer := GiveUp(c, s, longer, total, index, Worn(k, index - 1), 0, index - 2,
                       failures + index - 2);
    }
  }

  /** From the last position to the second server. */
  lemma Wrap(c: Config, s: System, h: History, total: nat, fails: nat -> nat, t: nat, failures: nat)
    returns (longer: History)
    requires c.maxFail >= 1 && Score(h, total, failures)
    requires Legal(c, s, h) && Board(After(c, s, h).shared, total, total + 1, fails)
    requires t < |After(c, s, h).threads| && After(c, s, h).threads[t] == Idle
    ensures Legal(c, s, longer) && Board(After(c, s, longer).shared, total, 1, fails)
    ensures After(c, s, longer).threads == After(c, s, h).threads && Score(longer, total, failures)
  {
    hide Legal, After, Score, Pick, Dead;
    NextIsChosen(c, After(c, s, h).shared);
    longer := AskUp(c, s, h, total, total + 1, fails, t, 0, failures);
    NextIsChosen(c, After(c, s, longer).shared);
    longer := AskUp(c, s, longer, total, 0, fails, t, 1, failures);
  }

  lemma Opening(c: Config, count: nat, total: nat) returns (g: History)
    requires c.maxFail >= 1 && count >= 1
    ensures var s := StartedUp(c, count, Fleet(total));
            && Legal(c, s, g) && Board(After(c, s, g).shared, total, 1, Worn(0, 1))
            && Resting(After(c, s, g).threads, count) && Score(g, total, 0)
  {
    hide Legal, After, Pick, Dead, AllDead, Score;
    var s := StartedUp(c, count, Fleet(total));
    StartOfRun(c, s);
    ScoreNothing(total);
    NextIsChosen(c, s.shared);
    var taken := Take(c, s, Empty, 0);
    ScoreStep(Empty, taken.event, total, 0);
    g := Answer(c, s, taken, 0, true);
    ScoreUp(taken, 0, "v", total, 0);
    forall d: nat
      ensures Dead(d) !in UP
    {
      DeadIsNotUp(d);
    }
  }

  lemma ScoreNothing(total: nat)
    ensures Score(Empty, total, 0)
  {
  }

  /** `k` whole rounds from start-up. */
  lemma {:induction false} Rounds(c: Config, count: nat, total: nat, k: nat) returns (g: History)
    requires c.maxFail >= 1 && count >= 1 && k < c.maxFail
    ensures var s := StartedUp(c, count, Fleet(total));
            && Legal(c, s, g) && Board(After(c, s, g).shared, total, 1, Worn(k, 1))
            && Resting(After(c, s, g).threads, count) && Score(g, total, k * total)
  {
    hide Legal, After, Score, Board, Fleet, StartedUp;
    if k == 0 {
      g := Opening(c, count, total);
    } else {
      var s := StartedUp(c, count, Fleet(total));
      g := Rounds(c, count, total, k - 1);
      g := PartRound(c, s, g, total, count, k - 1, total + 1, (k - 1) * total);
      g := Wrap(c, s, g, total, Worn(k - 1, total + 1), 0, (k - 1) * total + total);
      assert (k - 1) * total + total == k * total;
      SameBoard(After(c, s, g).shared, total, 1, Worn(k - 1, total + 1), Worn(k, 1));
    }
  }

  lemma SameBoard(s: State, total: nat, index: nat, fails: nat -> nat, same: nat -> nat)
    requires Board(s, total, index, fails)
    requires forall i: nat :: 2 <= i < total + 2 ==> fails(i) == same(i)
    ensures Board(s, total, index, same)
  {
  }

  // --------------------------------------------------------- who waits for what

  /** The dead addresses from `d` on. */
  function From(d: nat, total: nat): set<string>
    decreases total - d
  {
    if d >= total then {} else {Dead(d)} + From(d + 1, total)
  }

  lemma {:induction false} FromAre(d: nat, total: nat)
    ensures forall a :: a in From(d, total) <==> exists e: nat :: d <= e < total && a == Dead(e)
    decreases total - d
  {
    hide Dead;
    if d < total {
      FromAre(d + 1, total);
    }
  }

  lemma FromSplit(d: nat, total: nat)
    requires d < total
    ensures From(d, total) == {Dead(d)} + From(d + 1, total) && Dead(d) !in From(d + 1, total)
  {
    hide Dead;
    FromAre(d + 1, total);
    forall e: nat | e != d
      ensures Dead(e) != Dead(d)
    {
      DeadDiffer(e, d);
    }
  }

  lemma {:induction false} FlyingUnion(threads: seq<Phase>, a: set<string>, b: set<string>)
    requires a !! b
    ensures Flying(threads, a + b) == Flying(threads, a) + Flying(threads, b)
  {
    if threads != [] { FlyingUnion(threads[1..], a, b); }
  }

  lemma {:induction false} FlyingZero(threads: seq<Phase>, addrs: set<string>)
    ensures Flying(threads, addrs) == 0
       <==> forall t :: 0 <= t < |threads| && threads[t].InFlight? ==> threads[t].addr !in addrs
  {
    if threads != [] {
      FlyingZero(threads[1..], addrs);
      assert forall t :: 0 < t < |threads| ==> threads[t] == threads[1..][t - 1];
    }
  }

  lemma {:induction false} FlyingAll(threads: seq<Phase>, addrs: set<string>)
    requires forall t :: 0 <= t < |threads| ==> Flies(threads[t], addrs) == 1
    ensures Flying(threads, addrs) == |threads|
  {
    if threads != [] { FlyingAll(threads[1..], addrs); }
  }

  /** Every thread rests or waits for an address from `d` on; the first `r` of these have one more
      thread waiting for them than the others, which have `q`. */
  ghost predicate Waiting(threads: seq<Phase>, total: nat, d: nat, q: nat, r: nat) {
    && (forall t :: 0 <= t < |threads| ==>
          threads[t] == Idle || (threads[t].InFlight? && threads[t].addr in From(d, total)))
    && forall e: nat :: d <= e < total ==>
         Flying(threads, {Dead(e)}) == Shape(d, q, r, e)
  }

  function Shape(d: nat, q: nat, r: nat, e: nat): nat {
    if e < d + r then q + 1 else q
  }

  lemma SomeIdle(threads: seq<Phase>, total: nat, d: nat, q: nat, r: nat) returns (t: nat)
    requires Waiting(threads, total, d, q, r) && Flying(threads, From(d, total)) < |threads|
    ensures t < |threads| && threads[t] == Idle
  {
    hide Flying, From;
    if u: nat :| u < |threads| && threads[u] == Idle {
      t := u;
    } else {
      FlyingAll(threads, From(d, total));
      assert false;
    }
  }

  /** An idle thread starts to wait for the next address. */
  lemma WaitsNext(threads: seq<Phase>, total: nat, d: nat, q: nat, r: nat, t: nat)
    requires Waiting(threads, total, d, q, r) && t < |threads| && threads[t] == Idle
    requires d + r < total
    ensures var later := threads[t := InFlight(Dead(d + r))];
            && Waiting(later, total, d, q, r + 1)
            && Flying(later, From(d, total)) == Flying(threads, From(d, total)) + 1
  {
    hide Flying, From, Dead;
    var later := threads[t := InFlight(Dead(d + r))];
    FromAre(d, total);
    FlyingUpdate(threads, t, InFlight(Dead(d + r)), From(d, total));
    forall e: nat | d <= e < total
      ensures Flying(later, {Dead(e)}) == Shape(d, q, r + 1, e)
    {
      FlyingUpdate(threads, t, InFlight(Dead(d + r)), {Dead(e)});
      if e != d + r { DeadDiffer(e, d + r); }
    }
  }

  /** When all have `q + 1`, that is the same as `q + 1` and no first ones. */
  lemma FullCycle(threads: seq<Phase>, total: nat, d: nat, q: nat)
    requires d <= total && Waiting(threads, total, d, q, total - d)
    ensures Waiting(threads, total, d, q + 1, 0)
  {
  }

  /** A thread gives up the first address. */
  lemma OneLess(threads: seq<Phase>, t: nat, d: nat, total: nat)
    requires d < total && t < |threads| && threads[t] == InFlight(Dead(d))
    ensures var later := threads[t := Idle];
            && Flying(later, {Dead(d)}) == Flying(threads, {Dead(d)}) - 1
            && Flying(later, From(d + 1, total)) == Flying(threads, From(d + 1, total))
            && forall e: nat :: d < e < total ==>
                 Flying(later, {Dead(e)}) == Flying(threads, {Dead(e)})
  {
    hide Flying, From, Dead;
    FromSplit(d, total);
    FlyingUpdate(threads, t, Idle, {Dead(d)});
    FlyingUpdate(threads, t, Idle, From(d + 1, total));
    forall e: nat | d < e < total
      ensures Flying(threads[t := Idle], {Dead(e)}) == Flying(threads, {Dead(e)})
    {
      FlyingUpdate(threads, t, Idle, {Dead(e)});
      DeadDiffer(e, d);
    }
  }

  /** The first address has at least its share of the threads. */
  lemma {:induction false} FlyingSum(threads: seq<Phase>, total: nat, d: nat, most: nat)
    requires d <= total
    requires forall e: nat :: d <= e < total ==> Flying(threads, {Dead(e)}) <= most
    ensures Flying(threads, From(d, total)) <= most * (total - d)
    decreases total - d
  {
    hide Flying, Dead;
    if d == total {
      FlyingZero(threads, {});
    } else {
      FlyingSum(threads, total, d + 1, most);
      FromSplit(d, total);
      FlyingUnion(threads, {Dead(d)}, From(d + 1, total));
      Distribute(most, total - d - 1, 1);
    }
  }

  // ------------------------------------------------------------- one address after the other

  /** The addresses before `d` are past the threshold, the others one failure short of it. */
  ghost predicate Levels(c: Config, total: nat, d: nat, fails: nat -> nat) {
    forall i: nat :: 2 <= i < total + 2 ==>
      if i < d + 2 then fails(i) >= c.maxFail else fails(i) + 1 == c.maxFail
  }

  ghost predicate Stage(c: Config, x: System, total: nat, d: nat, q: nat, r: nat,
                        fails: nat -> nat) {
    && d + r <= total && Board(x.shared, total, 1 + d + r, fails) && Levels(c, total, d, fails)
    && Waiting(x.threads, total, d, q, r)
  }

  /** From the second server the scan goes over those past the threshold to the next one. */
  lemma SkipsToAlive(c: Config, s: State, total: nat, d: nat, fails: nat -> nat)
    requires d < total && Board(s, total, 1, fails) && Levels(c, total, d, fails)
    ensures Chosen(c, s) == d + 2
  {
    hide Pick, Dead;
    var healthy, n := Health(c, s.rows), total + 2;
    forall j | 1 <= j < d + 1
      ensures !healthy[Step(1, j, n)]
    {
      assert Step(1, j, n) == j + 1;
    }
    assert FirstAfter(healthy, 1, d + 1, d + 2);
    PickUnique(healthy, 1, d + 1, d + 2);
  }

  /** One more thread waits. */
  lemma WaitOne(c: Config, s: System, h: History, total: nat, d: nat, q: nat, r: nat,
                fails: nat -> nat, failures: nat)
    returns (longer: History, q1: nat, r1: nat)
    requires c.maxFail >= 1 && d < total && Legal(c, s, h) && Score(h, total, failures)
    requires Stage(c, After(c, s, h), total, d, q, r, fails)
    requires Flying(After(c, s, h).threads, From(d, total)) < |After(c, s, h).threads|
    ensures Legal(c, s, longer) && Score(longer, total, failures) && r1 >= 1
    ensures Stage(c, After(c, s, longer), total, d, q1, r1, fails)
    ensures |After(c, s, longer).threads| == |After(c, s, h).threads|
    ensures Flying(After(c, s, longer).threads, From(d, total))
         == Flying(After(c, s, h).threads, From(d, total)) + 1
  {
    hide Legal, After, Score, Pick, Dead, Waiting, Flying, From;
    var t := SomeIdle(After(c, s, h).threads, total, d, q, r);
    var index := 1 + d + r;
    longer, q1, r1 := h, q, r;
    if d + r == total {
      longer := Wrap(c, s, h, total, fails, t, failures);
      FullCycle(After(c, s, h).threads, total, d, q);
      index, q1, r1 := 1, q + 1, 0;
      SkipsToAlive(c, After(c, s, longer).shared, total, d, fails);
    } else {
      NextIsChosen(c, After(c, s, h).shared);
    }
    var p := d + r1 + 2;
    WaitsNext(After(c, s, longer).threads, total, d, q1, r1, t);
    longer := Hold(c, s, longer, total, index, fails, t, p, failures);
    r1 := r1 + 1;
  }

  /** All threads wait. */
  lemma {:induction false} WaitAll(c: Config, s: System, h: History, total: nat, d: nat, q: nat,
                                   r: nat, fails: nat -> nat, failures: nat)
    returns (longer: History, q1: nat, r1: nat)
    requires c.maxFail >= 1 && d < total && Legal(c, s, h) && Score(h, total, failures)
    requires Stage(c, After(c, s, h), total, d, q, r, fails)
    requires r >= 1 || Flying(After(c, s, h).threads, From(d, total)) < |After(c, s, h).threads|
    ensures Legal(c, s, longer) && Score(longer, total, failures) && r1 >= 1
    ensures Stage(c, After(c, s, longer), total, d, q1, r1, fails)
    ensures |After(c, s, longer).threads| == |After(c, s, h).threads|
    ensures Flying(After(c, s, longer).threads, From(d, total)) == |After(c, s, longer).threads|
    decreases |After(c, s, h).threads| - Flying(After(c, s, h).threads, From(d, total))
  {
    hide Legal, After, Score, Stage, Flying, From;
    FlyingBound(After(c, s, h).threads, From(d, total));
    if Flying(After(c, s, h).threads, From(d, total)) == |After(c, s, h).threads| {
      longer, q1, r1 := h, q, r;
    } else {
      longer, q1, r1 := WaitOne(c, s, h, total, d, q, r, fails, failures);
      longer, q1, r1 := WaitAll(c, s, longer, total, d, q1, r1, fails, failures);
    }
  }

  ghost predicate RestOrWait(threads: seq<Phase>, addrs: set<string>) {
    forall t :: 0 <= t < |threads| ==>
      threads[t] == Idle || (threads[t].InFlight? && threads[t].addr in addrs)
  }

  /** What is the same about the waiting threads when some gave up address `d`. */
  ghost predicate SameBehind(threads: seq<Phase>, later: seq<Phase>, total: nat, d: nat) {
    && |later| == |threads|
    && Flying(later, From(d + 1, total)) == Flying(threads, From(d + 1, total))
    && forall e: nat :: d < e < total ==> Flying(later, {Dead(e)}) == Flying(threads, {Dead(e)})
  }

  function Raised(fails: nat -> nat, i: nat, more: nat): nat -> nat {
    (j: nat) => if j == i then fails(j) + more else fails(j)
  }

  /** All threads that wait for address `d` give it up. */
  lemma {:induction false} GiveUpAll(c: Config, s: System, h: History, total: nat, index: nat,
                                     fails: nat -> nat, d: nat, failures: nat, waiting: nat)
    returns (longer: History)
    requires d < total && Legal(c, s, h) && Score(h, total, failures)
    requires Board(After(c, s, h).shared, total, index, fails)
    requires RestOrWait(After(c, s, h).threads, From(d, total))
    requires waiting == Flying(After(c, s, h).threads, {Dead(d)})
    ensures Legal(c, s, longer) && Score(longer, total, failures + waiting)
    ensures Board(After(c, s, longer).shared, total, index, Raised(fails, d + 2, waiting))
    ensures RestOrWait(After(c, s, longer).threads, From(d + 1, total))
    ensures SameBehind(After(c, s, h).threads, After(c, s, longer).threads, total, d)
    decreases waiting
  {
    hide Legal, After, Score, Board, Flying, From, Dead;
    var threads := After(c, s, h).threads;
    FromSplit(d, total);
    FlyingZero(threads, {Dead(d)});
    if waiting == 0 {
      longer := h;
      SameBoard(After(c, s, h).shared, total, index, fails, Raised(fails, d + 2, 0));
    } else {
      var t: nat :| t < |threads| && threads[t] == InFlight(Dead(d));
      longer := GiveUp(c, s, h, total, index, fails, t, d, failures);
      OneLess(threads, t, d, total);
      var more: nat -> nat := i => if i == d + 2 then fails(i) + 1 else fails(i);
      longer := GiveUpAll(c, s, longer, total, index, more, d, failures + 1, waiting - 1);
      SameBoard(After(c, s, longer).shared, total, index, Raised(more, d + 2, waiting - 1),
                Raised(fails, d + 2, waiting));
    }
  }

  lemma ShareReached(x: nat, n: nat, f: nat)
    requires n >= 1 && x < f * n
    ensures f >= 1 + x / n
  {
    if x / n >= f {
      Scale(n, f, x / n);
    }
  }

  lemma GiversAreShare(threads: seq<Phase>, total: nat, d: nat, q: nat, r: nat)
    requires d < total && r >= 1 && Waiting(threads, total, d, q, r) && |threads| >= 1
    requires Flying(threads, From(d, total)) == |threads|
    ensures var f := Flying(threads, {Dead(d)});
            && f >= 1 + (|threads| - 1) / (total - d)
            && Flying(threads, From(d + 1, total)) == |threads| - f
  {
    hide Flying, From, Dead;
    var f := Flying(threads, {Dead(d)});
    FlyingSum(threads, total, d, f);
    ShareReached(|threads| - 1, total - d, f);
    FromSplit(d, total);
    FlyingUnion(threads, {Dead(d)}, From(d + 1, total));
  }

  /** The waiting threads once the first address has been given up. */
  lemma WaitingBehind(threads: seq<Phase>, later: seq<Phase>, total: nat, d: nat, q: nat, r: nat)
    requires d < total && r >= 1 && Waiting(threads, total, d, q, r)
    requires SameBehind(threads, later, total, d) && RestOrWait(later, From(d + 1, total))
    ensures Waiting(later, total, d + 1, q, r - 1)
  {
    hide Flying, From, Dead;
  }

  lemma NextLevels(c: Config, total: nat, d: nat, fails: nat -> nat, f: nat)
    requires d < total && f >= 1 && Levels(c, total, d, fails)
    ensures Levels(c, total, d + 1, Raised(fails, d + 2, f))
  {
  }

  /** The first remaining address gets its share and is past the threshold. */
  lemma OneStage(c: Config, s: System, h: History, total: nat, d: nat, q: nat, r: nat,
                 fails: nat -> nat, failures: nat)
    returns (longer: History, q1: nat, r1: nat, fails1: nat -> nat, f: nat)
    requires c.maxFail >= 1 && d < total && Legal(c, s, h) && Score(h, total, failures)
    requires Stage(c, After(c, s, h), total, d, q, r, fails)
    requires Flying(After(c, s, h).threads, From(d, total)) < |After(c, s, h).threads|
    ensures Legal(c, s, longer) && Score(longer, total, failures + f)
    ensures Stage(c, After(c, s, longer), total, d + 1, q1, r1, fails1)
    ensures |After(c, s, longer).threads| == |After(c, s, h).threads|
    ensures Flying(After(c, s, longer).threads, From(d + 1, total)) < |After(c, s, h).threads|
    ensures f >= 1 + (|After(c, s, h).threads| - 1) / (total - d)
  {
    hide Legal, After, Score, Flying, From, Dead, Board, Levels, Waiting, SameBehind;
    var full, r0;
    full, q1, r0 := WaitAll(c, s, h, total, d, q, r, fails, failures);
    var threads := After(c, s, full).threads;
    f := Flying(threads, {Dead(d)});
    GiversAreShare(threads, total, d, q1, r0);
    WaitingMeans(threads, total, d, q1, r0);
    longer := GiveUpAll(c, s, full, total, 1 + d + r0, fails, d, failures, f);
    WaitingBehind(threads, After(c, s, longer).threads, total, d, q1, r0);
    SameBehindMeans(threads, After(c, s, longer).threads, total, d);
    NextLevels(c, total, d, fails, f);
    r1, fails1 := r0 - 1, Raised(fails, d + 2, f);
  }

  lemma WaitingMeans(threads: seq<Phase>, total: nat, d: nat, q: nat, r: nat)
    requires Waiting(threads, total, d, q, r)
    ensures RestOrWait(threads, From(d, total))
  {
  }

  lemma SameBehindMeans(threads: seq<Phase>, later: seq<Phase>, total: nat, d: nat)
    requires SameBehind(threads, later, total, d)
    ensures |later| == |threads|
    ensures Flying(later, From(d + 1, total)) == Flying(threads, From(d + 1, total))
  {
  }

  lemma {:induction false} AllStages(c: Config, s: System, h: History, total: nat, d: nat, q: nat,
                                     r: nat, fails: nat -> nat, failures: nat)
    returns (longer: History, all: nat)
    requires c.maxFail >= 1 && d <= total && Legal(c, s, h) && Score(h, total, failures)
    requires Stage(c, After(c, s, h), total, d, q, r, fails)
    requires Flying(After(c, s, h).threads, From(d, total)) < |After(c, s, h).threads|
    ensures Legal(c, s, longer) && Score(longer, total, all)
    ensures Resting(After(c, s, longer).threads, |After(c, s, h).threads|)
    ensures all >= failures + total - d + Shares(|After(c, s, h).threads| - 1, total - d)
    decreases total - d
  {
    hide Legal, After, Score, Flying, Board, Levels;
    if d == total {
      longer, all := h, failures;
    } else {
      var q1, r1, fails1, f;
      longer, q1, r1, fails1, f := OneStage(c, s, h, total, d, q, r, fails, failures);
      longer, all := AllStages(c, s, longer, total, d + 1, q1, r1, fails1, failures + f);
    }
  }

  // ------------------------------------------------------------------ the whole run

  lemma AllRest(threads: seq<Phase>, total: nat)
    requires Resting(threads, |threads|)
    ensures Waiting(threads, total, 0, 0, 0) && Flying(threads, From(0, total)) == 0
  {
    hide Flying, From, Dead;
    FlyingZero(threads, From(0, total));
    forall e: nat | e < total
      ensures Flying(threads, {Dead(e)}) == 0
    {
      FlyingZero(threads, {Dead(e)});
    }
  }

  lemma FleetIsListed(total: nat)
    ensures Addresses(Fleet(total))
  {
    var list := Fleet(total);
    forall i | 0 <= i < |list|
      ensures IsRun(list[i], {' ', '&'})
    {
    }
  }

  lemma FleetIsSingle(total: nat)
    ensures forall a :: a in AllDead(total) ==> exists p: nat :: OnlyPlace(Fleet(total), p, a)
  {
    hide Dead, AllDead;
    AllDeadAre(total);
    forall a | a in AllDead(total)
      ensures exists p: nat :: OnlyPlace(Fleet(total), p, a)
    {
      var d: nat :| d < total && a == Dead(d);
      DeadIsNotUp(d);
      forall e: nat | e != d
        ensures Dead(e) != Dead(d)
      {
        DeadDiffer(e, d);
      }
      assert OnlyPlace(Fleet(total), d + 2, a);
    }
  }

  /** From the installation on, at least as many failures as the bound allows selections. */
  lemma EnoughFailures(c: Config, count: nat, total: nat) returns (g: History, all: nat)
    requires c.maxFail >= 1 && count >= 1
    ensures var s := StartedUp(c, count, Fleet(total));
            Legal(c, s, g) && Score(g, total, all) && Resting(After(c, s, g).threads, count)
    ensures all >= c.maxFail * total + Shares(count - 1, total)
  {
    hide Legal, After, Score, Board, Flying, From, Shares, Fleet, StartedUp, Dead, AllDead, Waiting;
    var s, k := StartedUp(c, count, Fleet(total)), c.maxFail - 1;
    g := Rounds(c, count, total, k);
    AllRest(After(c, s, g).threads, total);
    assert k * total + total == c.maxFail * total;
    g, all := AllStages(c, s, g, total, 0, 0, 0, Worn(k, 1), k * total);
  }

  lemma CompletedSelects(c: Config, count: nat, total: nat, g: History, all: nat)
    requires count >= 1 && Score(g, total, all)
    requires var s := StartedUp(c, count, Fleet(total));
             Legal(c, s, g) && Resting(After(c, s, g).threads, count)
    ensures Selects(g, AllDead(total)) == all
  {
    hide Legal, After, Flying, Fleet, AllDead;
    var s := StartedUp(c, count, Fleet(total));
    Conservation(c, s, g, AllDead(total));
    FlyingZero(s.threads, AllDead(total));
    FlyingZero(After(c, s, g).threads, AllDead(total));
  }

  lemma ScoreMeans(h: History, total: nat, failures: nat)
    requires Score(h, total, failures)
    ensures NoInstall(h) && NeverFail(h, UP) && Count(h, Success, AllDead(total)) == 0
  {
  }

  /** The bound of NoRepeatsAfterInstall is attained by a run from start-up, for every threshold,
      number of threads and number of dead addresses. */
  lemma NoRepeatsBoundAttained(c: Config, count: nat, total: nat)
    returns (past: History, e: Event, g: History, dead: set<string>)
    requires c.maxFail >= 1 && count >= 1
    ensures Legal(c, Initial(count), Append(Then(past, e), g)) && e.Install? && NoInstall(g)
    ensures 2 <= |e.list| && e.list[0] in UP && e.list[1] in UP
    ensures forall a :: a in dead ==> exists p: nat :: OnlyPlace(e.list, p, a)
    ensures NeverFail(g, UP) && Count(g, Success, dead) == 0 && |dead| == total
    ensures Selects(g, dead) == c.maxFail * total + Shares(count - 1, total)
  {
    hide Legal, After, Append, Score, Shares, AllDead, Resting, Selects, NeverFail, NoInstall, Count;
    FleetIsListed(total);
    FleetIsSingle(total);
    AllDeadCount(total);
    past, e := StartUp(c, count, Fleet(total));
    dead := AllDead(total);
    var all;
    g, all := EnoughFailures(c, count, total);
    ScoreMeans(g, total, all);
    CompletedSelects(c, count, total, g, all);
    AppendRuns(c, Initial(count), Then(past, e), g);
    NoRepeatsAfterInstall(c, count, past, e, g, UP, 0, 1, dead);
  }
}
