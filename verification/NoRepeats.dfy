/** The bound on requests to dead addresses when the list names each of them once, as an admin list
    normally does.  Dead addresses below the threshold keep pace with each other, so they share the
    threads that can be waiting at the same time: the n-th last one to reach the threshold gets at
    most an n-th of them. */
module NoRepeats {
  import opened Selection
  import opened ProxyState
  import opened Threads
  import opened FailureBounds
  import opened SurvivorBounds

  /** x + x/2 + ... + x/n, each share rounded down. */
  function Shares(x: nat, n: nat): nat {
    if n == 0 then 0 else x / n + Shares(x, n - 1)
  }

  ghost predicate EachListedOnce(rows: seq<Row>, addrs: set<string>) {
    forall a :: a in addrs ==> exists p: nat :: ListedOnce(rows, p) && rows[p].addr == a
  }

  lemma {:induction false} CountUnion(h: History, kind: Kind, a: set<string>, b: set<string>)
    requires a !! b
    ensures Count(h, kind, a + b) == Count(h, kind, a) + Count(h, kind, b)
  {
    if h.Then? { CountUnion(h.past, kind, a, b); }
  }

  lemma SelectsUnion(h: History, a: set<string>, b: set<string>)
    requires a !! b
    ensures Selects(h, a + b) == Selects(h, a) + Selects(h, b)
  {
    CountUnion(h, HealthyPick, a, b);
    CountUnion(h, DegradedPick, a, b);
  }

  // ------------------------------------------------------- addresses below the threshold

  /** Two addresses, listed once each: one that is below the threshold keeps pace with the other. */
  lemma AddressesKeepPace(c: Config, s: System, h: History, a: string, b: string)
    requires JustInstalled(s) && Legal(c, s, h) && NoInstall(h)
    requires EachListedOnce(s.shared.rows, {a, b}) && a != b && Below(c, h, b)
    ensures Selects(h, {a}) <= Selects(h, {b}) + 1
  {
    hide Count, Legal, After, NoInstall;
    var rows := s.shared.rows;
    var p: nat :| ListedOnce(rows, p) && rows[p].addr == a;
    var w: nat :| ListedOnce(rows, w) && rows[w].addr == b;
    SelectsAtSole(c, s, h, p);
    SelectsAtSole(c, s, h, w);
    KeepsPace(c, s, h, w, p);
  }

  /** So none of them is far ahead of the average. */
  lemma {:induction false} PaceSum(c: Config, s: System, h: History, a: string, addrs: set<string>)
    requires JustInstalled(s) && Legal(c, s, h) && NoInstall(h)
    requires EachListedOnce(s.shared.rows, addrs) && a in addrs
    requires forall b :: b in addrs ==> Below(c, h, b)
    ensures |addrs| * Selects(h, {a}) <= Selects(h, addrs) + |addrs| - 1
  {
    hide Selects, Legal, After, NoInstall, JustInstalled, ListedOnce, Below;
    if b :| b in addrs && b != a {
      var rest := addrs - {b};
      PaceSum(c, s, h, a, rest);
      AddressesKeepPace(c, s, h, a, b);
      assert rest + {b} == addrs;
      SelectsUnion(h, rest, {b});
      Distribute(Selects(h, {a}), |rest|, 1);
    } else {
      assert addrs == {a};
    }
  }

  lemma {:induction false} RecordsBelow(c: Config, h: History, addrs: set<string>)
    requires Count(h, Success, addrs) == 0 && c.maxFail >= 1
    requires forall b :: b in addrs ==> Below(c, h, b)
    ensures Records(h, addrs) <= (c.maxFail - 1) * |addrs|
  {
    if addrs == {} {
      CountNone(h, Failure);
    } else {
      var b :| b in addrs;
      CountSplit(h, Success, b, addrs);
      CountSplit(h, Failure, b, addrs);
      RecordsBelow(c, h, addrs - {b});
      Distribute(c.maxFail - 1, |addrs - {b}|, 1);
    }
  }

  /** Together, dead addresses below the threshold have all but one failure each, and T requests in
      flight at most. */
  lemma SelectsBelow(c: Config, s: System, h: History, addrs: set<string>)
    requires Legal(c, s, h) && Count(h, Success, addrs) == 0 && c.maxFail >= 1
    requires forall b :: b in addrs ==> Below(c, h, b)
    ensures Selects(h, addrs) <= (c.maxFail - 1) * |addrs| + |s.threads|
  {
    hide Count, Legal, After, Below, Flying;
    RecordsBelow(c, h, addrs);
    Conservation(c, s, h, addrs);
    ThreadsStay(c, s, h);
    FlyingBound(After(c, s, h).threads, addrs);
  }

  lemma Scale(n: nat, a: nat, b: nat)
    requires a <= b
    ensures n * a <= n * b
  {
  }

  lemma Quotient(n: nat, k: int, m: nat, x: nat)
    requires n >= 1 && n * k <= n * m + x
    ensures k <= m + x / n
  {
    var q := x / n;
    Distribute(n, q, 1);
    if k - m >= q + 1 {
      Scale(n, q + 1, k - m);
    }
  }

  /** Of n dead addresses below the threshold, each has been selected at most
      max_fail_times_ + (T - 1) / n times. */
  lemma ShareOfOne(c: Config, s: System, h: History, a: string, addrs: set<string>)
    requires JustInstalled(s) && Legal(c, s, h) && NoInstall(h) && c.maxFail >= 1
    requires EachListedOnce(s.shared.rows, addrs) && a in addrs && |s.threads| >= 1
    requires Count(h, Success, addrs) == 0 && forall b :: b in addrs ==> Below(c, h, b)
    ensures Selects(h, {a}) <= c.maxFail + (|s.threads| - 1) / |addrs|
  {
    hide Count, Legal, After, NoInstall, Below, ListedOnce;
    var n, k := |addrs|, Selects(h, {a});
    PaceSum(c, s, h, a, addrs);
    SelectsBelow(c, s, h, addrs);
    assert (c.maxFail - 1) * n + n == n * c.maxFail;
    Quotient(n, k, c.maxFail, |s.threads| - 1);
  }

  // ------------------------------------------------------------ over the whole run

  /** The dead addresses that have not reached the threshold. */
  ghost function Alive(c: Config, h: History, dead: set<string>): set<string> {
    set a | a in dead && Below(c, h, a)
  }

  /** The budget of `n` addresses that have yet to reach the threshold. */
  function Budget(c: Config, x: nat, n: nat): nat {
    c.maxFail * n + Shares(x, n)
  }

  /** Only an address below the threshold is selected. */
  lemma PicksAlive(c: Config, s: System, h: History, up: set<string>, i: nat, j: nat,
                   dead: set<string>)
    requires h.Then? && h.event.Select? && h.event.addr in dead
    requires JustInstalled(s) && Legal(c, s, h) && NoInstall(h) && NeverFail(h, up)
    requires c.maxFail >= 1 && i != j && UpAt(s.shared.rows, i, up) && UpAt(s.shared.rows, j, up)
    requires Count(h, Success, dead) == 0
    ensures h.event.addr in Alive(c, h, dead)
  {
    hide Trailing, Outcomes, Pick;
    var a := h.event.addr;
    NeverDegraded(c, s, h, up, i, j);
    PickedRow(c, s, h.past, h.event);
    CountSplit(h.past, Success, a, dead);
    HealthyPicksOfDead(c, s, h.past, a);
  }

  /** How one event changes the set: an address leaves it when it reaches the threshold. */
  lemma AliveStep(c: Config, h: History, dead: set<string>)
    requires h.Then?
    ensures var was, e := Alive(c, h.past, dead), h.event;
            || Alive(c, h, dead) == was
            || (e.Record? && e.addr in was && Alive(c, h, dead) == was - {e.addr})
  {
    var e := h.event;
    forall a | a in dead
      ensures Below(c, h, a) ==> Below(c, h.past, a)
      ensures Below(c, h.past, a) && !Below(c, h, a) ==> e.Record? && e.addr == a
    {
    }
  }

  lemma AllAlive(c: Config, dead: set<string>)
    requires c.maxFail >= 1
    ensures Alive(c, Empty, dead) == dead
  {
  }

  /** The last of `n` addresses to be selected before it reaches the threshold takes its share. */
  lemma BudgetStep(c: Config, x: nat, n: nat)
    requires n >= 1
    ensures Budget(c, x, n) == Budget(c, x, n - 1) + c.maxFail + x / n
  {
    Distribute(c.maxFail, n - 1, 1);
  }

  /** What the address that leaves the set has been selected. */
  lemma ShareOfGone(c: Config, s: System, h: History, a: string, dead: set<string>)
    requires h.Then? && h.event.Record? && a in Alive(c, h.past, dead)
    requires JustInstalled(s) && Legal(c, s, h) && NoInstall(h) && c.maxFail >= 1
    requires EachListedOnce(s.shared.rows, dead) && |s.threads| >= 1 && Count(h, Success, dead) == 0
    ensures Selects(h, {a})
         <= c.maxFail + (|s.threads| - 1) / |Alive(c, h.past, dead)|
  {
    hide ListedOnce, Below;
    var was := Alive(c, h.past, dead);
    CountUnion(h.past, Success, was, dead - was);
    assert was + (dead - was) == dead;
    ShareOfOne(c, s, h.past, a, was);
  }

  lemma SelectsSame(h: History, addrs: set<string>)
    requires h.Then? && !(h.event.Select? && h.event.addr in addrs)
    ensures Selects(h, addrs) == Selects(h.past, addrs)
  {
  }

  lemma NoSuccessBefore(h: History, addrs: set<string>)
    requires h.Then? && Count(h, Success, addrs) == 0
    ensures Count(h.past, Success, addrs) == 0
  {
  }

  /** Addresses that have reached the threshold have used up no more than their budget. */
  lemma {:induction false} GoneBound(c: Config, s: System, h: History, up: set<string>,
                                     i: nat, j: nat, dead: set<string>)
    requires JustInstalled(s) && Legal(c, s, h) && NoInstall(h) && NeverFail(h, up)
    requires c.maxFail >= 1 && i != j && UpAt(s.shared.rows, i, up) && UpAt(s.shared.rows, j, up)
    requires Count(h, Success, dead) == 0 && EachListedOnce(s.shared.rows, dead)
    requires |s.threads| >= 1
    ensures var alive := Alive(c, h, dead);
            Selects(h, dead - alive) + Budget(c, |s.threads| - 1, |alive|)
            <= Budget(c, |s.threads| - 1, |dead|)
  {
    hide Below, Budget, Pick, ListedOnce, EachListedOnce, Selects, After, Count;
    var alive := Alive(c, h, dead);
    if h == Empty {
      AllAlive(c, dead);
      assert dead - alive == {} && Selects(Empty, {}) == 0 by { SelectsNothing(); }
    } else {
      var was := Alive(c, h.past, dead);
      NeverFailBefore(h, up);
      NoSuccessBefore(h, dead);
      GoneBound(c, s, h.past, up, i, j, dead);
      AliveStep(c, h, dead);
      if alive != was {
        var a := h.event.addr;
        ShareOfGone(c, s, h, a, dead);
        SelectsUnion(h, dead - was, {a});
        SelectsSame(h, dead - was);
        assert dead - alive == (dead - was) + {a};
        BudgetStep(c, |s.threads| - 1, |was|);
      } else {
        if h.event.Select? && h.event.addr in dead {
          PicksAlive(c, s, h, up, i, j, dead);
        }
        SelectsSame(h, dead - alive);
      }
    }
  }

  lemma SelectsNothing()
    ensures Selects(Empty, {}) == 0
  {
  }

  lemma {:induction false} SharesAtLeast(x: nat, n: nat)
    requires n >= 1
    ensures Shares(x, n) >= x
  {
    if n > 1 { SharesAtLeast(x, n - 1); }
  }

  /** With two positions that stay up and D dead addresses listed once each, all T threads together
      select them at most D * max_fail_times_ + (T - 1) + (T - 1)/2 + ... + (T - 1)/D times. */
  lemma NoRepeatsBound(c: Config, s: System, h: History, up: set<string>, i: nat, j: nat,
                       dead: set<string>)
    requires JustInstalled(s) && Legal(c, s, h) && NoInstall(h) && NeverFail(h, up)
    requires c.maxFail >= 1 && i != j && UpAt(s.shared.rows, i, up) && UpAt(s.shared.rows, j, up)
    requires Count(h, Success, dead) == 0 && EachListedOnce(s.shared.rows, dead)
    requires |s.threads| >= 1
    ensures Selects(h, dead) <= c.maxFail * |dead| + Shares(|s.threads| - 1, |dead|)
  {
    hide Selects, Count, Legal, After, NoInstall, JustInstalled, EachListedOnce, Budget, Alive, Below;
    var alive := Alive(c, h, dead);
    GoneBound(c, s, h, up, i, j, dead);
    AliveIn(c, h, dead);
    SelectsUnion(h, dead - alive, alive);
    AliveBound(c, s, h, alive);
    BudgetIs(c, |s.threads| - 1, |dead|);
  }

  lemma AliveIn(c: Config, h: History, dead: set<string>)
    requires Count(h, Success, dead) == 0
    ensures var alive := Alive(c, h, dead);
            && (dead - alive) + alive == dead && Count(h, Success, alive) == 0
            && forall b :: b in alive ==> Below(c, h, b)
  {
    hide Count, Below;
    var alive := Alive(c, h, dead);
    assert (dead - alive) + alive == dead;
    CountUnion(h, Success, dead - alive, alive);
  }

  lemma BudgetIs(c: Config, x: nat, n: nat)
    ensures Budget(c, x, n) == c.maxFail * n + Shares(x, n)
  {
  }

  lemma AliveBound(c: Config, s: System, h: History, alive: set<string>)
    requires Legal(c, s, h) && Count(h, Success, alive) == 0 && c.maxFail >= 1 && |s.threads| >= 1
    requires forall b :: b in alive ==> Below(c, h, b)
    ensures Selects(h, alive) <= Budget(c, |s.threads| - 1, |alive|)
  {
    hide Below, Legal, After, Shares, Count;
    if alive == {} {
      CountNone(h, HealthyPick);
      CountNone(h, DegradedPick);
    } else {
      SelectsBelow(c, s, h, alive);
      SharesAtLeast(|s.threads| - 1, |alive|);
      Distribute(|alive|, c.maxFail - 1, 1);
    }
  }

  /** The bound read off a run of `count` threads from start-up, counted from its last installation
      `e`, whatever was in flight before. */
  lemma NoRepeatsAfterInstall(c: Config, count: nat, past: History, e: Event, g: History,
                              up: set<string>, i: nat, j: nat, dead: set<string>)
    requires Legal(c, Initial(count), Append(Then(past, e), g)) && e.Install? && NoInstall(g)
    requires c.maxFail >= 1 && i < j < |e.list| && e.list[i] in up && e.list[j] in up
    requires NeverFail(g, up) && Count(g, Success, dead) == 0 && count >= 1
    requires forall a :: a in dead ==> exists p: nat :: OnlyPlace(e.list, p, a)
    ensures Selects(g, dead) <= c.maxFail * |dead| + Shares(count - 1, |dead|)
  {
    hide Count, NoInstall, JustInstalled, Legal, After, Append, Shares;
    var s := InstalledByRun(c, count, past, e, g);
    forall a | a in dead
      ensures exists p: nat :: ListedOnce(s.shared.rows, p) && s.shared.rows[p].addr == a
    {
      var p: nat :| OnlyPlace(e.list, p, a);
      assert ListedOnce(s.shared.rows, p);
    }
    NoRepeatsBound(c, s, g, up, i, j, dead);
  }

  ghost predicate OnlyPlace(list: seq<string>, p: nat, a: string) {
    p < |list| && forall i :: 0 <= i < |list| ==> (list[i] == a <==> i == p)
  }
}
