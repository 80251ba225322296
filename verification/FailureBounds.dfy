/** Amortised bounds on failed requests, over whole interleaved runs from a fresh installation. */
module FailureBounds {
  import opened Selection
  import opened ProxyState
  import opened Threads

  // ------------------------------------------------------------------- counting

  datatype Kind = Failure | Success | HealthyPick | DegradedPick

  predicate Is(e: Event, kind: Kind, addrs: set<string>) {
    match kind
    case Failure => e.Record? && !e.ok && e.addr in addrs
    case Success => e.Record? && e.ok && e.addr in addrs
    case HealthyPick => e.Select? && !e.degraded && e.addr in addrs
    case DegradedPick => e.Select? && e.degraded && e.addr in addrs
  }

  /** How many events of the kind concern the addresses. */
  function Count(h: History, kind: Kind, addrs: set<string>): nat {
    match h
    case Empty => 0
    case Then(past, e) => Count(past, kind, addrs) + if Is(e, kind, addrs) then 1 else 0
  }

  function Selects(h: History, addrs: set<string>): nat {
    Count(h, HealthyPick, addrs) + Count(h, DegradedPick, addrs)
  }

  function Records(h: History, addrs: set<string>): nat {
    Count(h, Failure, addrs) + Count(h, Success, addrs)
  }

  function SelectsAt(h: History, w: nat): nat {
    match h
    case Empty => 0
    case Then(past, e) => SelectsAt(past, w) + if e.Select? && e.pos == w then 1 else 0
  }

  function Flies(p: Phase, addrs: set<string>): nat {
    if p.InFlight? && p.addr in addrs then 1 else 0
  }

  /** How many threads have a request to the addresses in flight. */
  function Flying(threads: seq<Phase>, addrs: set<string>): nat {
    if threads == [] then 0 else Flies(threads[0], addrs) + Flying(threads[1..], addrs)
  }

  lemma {:induction false} FlyingUpdate(threads: seq<Phase>, t: nat, p: Phase, addrs: set<string>)
    requires t < |threads|
    ensures Flying(threads[t := p], addrs)
         == Flying(threads, addrs) - Flies(threads[t], addrs) + Flies(p, addrs)
    ensures Flying(threads, addrs) <= |threads| - 1 + Flies(threads[t], addrs)
  {
    if t == 0 {
      assert threads[t := p][1..] == threads[1..];
      FlyingBound(threads[1..], addrs);
    } else {
      assert threads[t := p][1..] == threads[1..][t - 1 := p];
      FlyingUpdate(threads[1..], t - 1, p, addrs);
    }
  }

  lemma {:induction false} FlyingBound(threads: seq<Phase>, addrs: set<string>)
    ensures Flying(threads, addrs) <= |threads|
  {
    if threads != [] { FlyingBound(threads[1..], addrs); }
  }

  /** Conservation: what is selected is recorded or still in flight. */
  lemma {:induction false} Conservation(c: Config, s: System, h: History, addrs: set<string>)
    requires Legal(c, s, h)
    ensures Selects(h, addrs) + Flying(s.threads, addrs)
         == Records(h, addrs) + Flying(After(c, s, h).threads, addrs)
  {
    hide Flying;
    if h.Then? {
      Conservation(c, s, h.past, addrs);
      var before, e := After(c, s, h.past), h.event;
      FlyingUpdate(before.threads, e.t, NextPhase(c, before, e), addrs);
    }
  }

  lemma {:induction false} CountSplit(h: History, kind: Kind, a: string, addrs: set<string>)
    requires a in addrs
    ensures Count(h, kind, addrs) == Count(h, kind, {a}) + Count(h, kind, addrs - {a})
  {
    if h.Then? { CountSplit(h.past, kind, a, addrs); }
  }

  lemma {:induction false} CountNone(h: History, kind: Kind)
    ensures Count(h, kind, {}) == 0
  {
    if h.Then? { CountNone(h.past, kind); }
  }

  // ----------------------------------------------------------------- hypotheses

  /** No installation happens during `h`. */
  ghost predicate NoInstall(h: History) {
    h.Then? ==> NoInstall(h.past) && !h.event.Install?
  }

  /** A freshly installed list, whatever the threads are doing. */
  ghost predicate JustInstalled(s: System) {
    s.shared.rows != [] && InRange(s.shared) && ZeroStats(s.shared.rows)
  }

  /** No recorded request to these addresses failed. */
  ghost predicate NeverFail(h: History, up: set<string>) {
    Count(h, Failure, up) == 0
  }

  ghost predicate UpAt(rows: seq<Row>, i: nat, up: set<string>) {
    i < |rows| && rows[i].addr in up
  }

  lemma {:induction false} ListKept(h: History, first: seq<string>)
    requires NoInstall(h)
    ensures LatestList(h, first) == first
  {
    if h.Then? { ListKept(h.past, first); }
  }

  lemma {:induction false} UpStaysHealthy(h: History, up: set<string>, a: string)
    requires NeverFail(h, up) && a in up
    ensures Trailing(Outcomes(h, a)) == 0
  {
    hide Trailing;
    if h == Empty || h.event.Install? {
      TrailingOfEmpty();
    } else {
      UpStaysHealthy(h.past, up, a);
      if h.event.Record? { TrailingSnoc(Outcomes(h.past, h.event.addr), h.event.ok); }
    }
  }

  /** What a run since a fresh installation knows about each listed position. */
  lemma RowFacts(c: Config, s: System, h: History, up: set<string>, i: nat)
    requires JustInstalled(s) && Legal(c, s, h) && NoInstall(h) && NeverFail(h, up)
    requires i < |s.shared.rows|
    ensures var rows := After(c, s, h).shared.rows;
            && |rows| == |s.shared.rows| && rows[i].addr == s.shared.rows[i].addr
            && rows[i].fail == Trailing(Outcomes(h, rows[i].addr))
            && (rows[i].addr in up ==> rows[i].fail == 0)
  {
    hide Trailing, Outcomes, After, Legal;
    StatsAreHistory(c, s, h);
    ListKept(h, Addrs(s.shared.rows));
    var rows := After(c, s, h).shared.rows;
    assert Addrs(rows) == Addrs(s.shared.rows);
    assert |rows| == |Addrs(rows)| && rows[i].addr == Addrs(rows)[i];
    if rows[i].addr in up { UpStaysHealthy(h, up, rows[i].addr); }
  }

  /** What a selection says of the address it picks. */
  lemma PickedRow(c: Config, s: System, h: History, e: Event)
    requires JustInstalled(s) && Legal(c, s, h) && NoInstall(h)
    requires Enabled(c, After(c, s, h), e) && e.Select?
    ensures e.pos < |s.shared.rows| && e.addr == s.shared.rows[e.pos].addr
    ensures e.degraded <==> Trailing(Outcomes(h, e.addr)) >= c.maxFail
  {
    hide Trailing, Outcomes, After, Legal, NoInstall, Pick;
    CountNone(h, Failure);
    RowFacts(c, s, h, {}, 0);
    RowFacts(c, s, h, {}, e.pos);
  }

  /** With two positions that never fail, no selection is ever degraded. */
  lemma NeverDegraded(c: Config, s: System, h: History, up: set<string>, i: nat, j: nat)
    requires h.Then? && h.event.Select?
    requires JustInstalled(s) && Legal(c, s, h) && NoInstall(h.past) && NeverFail(h.past, up)
    requires c.maxFail >= 1 && i != j && UpAt(s.shared.rows, i, up) && UpAt(s.shared.rows, j, up)
    ensures !h.event.degraded
  {
    hide Trailing, Outcomes, Pick;
    var before := After(c, s, h.past);
    RowFacts(c, s, h.past, up, i);
    RowFacts(c, s, h.past, up, j);
    var healthy := Health(c, before.shared.rows);
    var q := if i != before.shared.index then i else j;
    assert healthy[q];
    PickCorrect(healthy, before.shared.index);
  }

  // ------------------------------------------------- two or more survivors

  /** How many failures an address may have outstanding or in a row: the threshold, plus the other
      threads that may have chosen it before the threshold was seen. */
  function Allowance(c: Config, s: System): nat
    requires c.maxFail >= 1
  {
    c.maxFail + |s.threads| - 1
  }

  lemma {:induction false} StreakBound(c: Config, s: System, h: History, up: set<string>,
                                       i: nat, j: nat, a: string)
    requires JustInstalled(s) && Legal(c, s, h) && NoInstall(h) && NeverFail(h, up)
    requires c.maxFail >= 1 && i != j && UpAt(s.shared.rows, i, up) && UpAt(s.shared.rows, j, up)
    ensures Trailing(Outcomes(h, a)) + Flying(After(c, s, h).threads, {a}) <= Allowance(c, s)
  {
    hide Trailing, Flying, Pick;
    if h == Empty {
      TrailingOfEmpty();
      FlyingBound(s.threads, {a});
    } else {
      var before, e := After(c, s, h.past), h.event;
      StreakBound(c, s, h.past, up, i, j, a);
      ThreadsStay(c, s, h.past);
      FlyingUpdate(before.threads, e.t, NextPhase(c, before, e), {a});
      if e.Record? {
        TrailingSnoc(Outcomes(h.past, e.addr), e.ok);
      } else if e.Select? && e.addr == a {
        NeverDegraded(c, s, h, up, i, j);
        PickedRow(c, s, h.past, e);
      }
    }
  }

  lemma {:induction false} FailuresByStreaks(c: Config, s: System, h: History, up: set<string>,
                                             i: nat, j: nat, a: string)
    requires JustInstalled(s) && Legal(c, s, h) && NoInstall(h) && NeverFail(h, up)
    requires c.maxFail >= 1 && i != j && UpAt(s.shared.rows, i, up) && UpAt(s.shared.rows, j, up)
    ensures Count(h, Failure, {a})
         <= Allowance(c, s) * Count(h, Success, {a}) + Trailing(Outcomes(h, a))
  {
    hide Trailing, Flying, Pick;
    if h.Then? {
      var e := h.event;
      FailuresByStreaks(c, s, h.past, up, i, j, a);
      if e.Record? && e.addr == a {
        TrailingSnoc(Outcomes(h.past, a), e.ok);
        StreakBound(c, s, h.past, up, i, j, a);
        Distribute(Allowance(c, s), Count(h.past, Success, {a}), 1);
      }
    }
  }

  lemma Distribute(k: nat, x: nat, y: nat)
    ensures k * (x + y) == k * x + k * y
  {
  }

  /** The concurrent amortised bound, for one address with arbitrary outcomes: while two positions
      never fail, each success of `a` pays for at most max_fail_times_ + T - 1 of its failures. */
  lemma AddressBound(c: Config, s: System, h: History, up: set<string>, i: nat, j: nat, a: string)
    requires JustInstalled(s) && Legal(c, s, h) && NoInstall(h) && NeverFail(h, up)
    requires c.maxFail >= 1 && i != j && UpAt(s.shared.rows, i, up) && UpAt(s.shared.rows, j, up)
    ensures Count(h, Failure, {a}) + Flying(After(c, s, h).threads, {a})
         <= Allowance(c, s) * (Count(h, Success, {a}) + 1)
  {
    FailuresByStreaks(c, s, h, up, i, j, a);
    StreakBound(c, s, h, up, i, j, a);
    Distribute(Allowance(c, s), Count(h, Success, {a}), 1);
  }

  /** The bound over any set of addresses. */
  lemma {:induction false} FleetBound(c: Config, s: System, h: History, up: set<string>,
                                      i: nat, j: nat, addrs: set<string>)
    requires JustInstalled(s) && Legal(c, s, h) && NoInstall(h) && NeverFail(h, up)
    requires c.maxFail >= 1 && i != j && UpAt(s.shared.rows, i, up) && UpAt(s.shared.rows, j, up)
    ensures Count(h, Failure, addrs)
         <= Allowance(c, s) * (|addrs| + Count(h, Success, addrs))
  {
    hide Count, Flying, Legal, After, NoInstall;
    if addrs == {} {
      CountNone(h, Failure);
    } else {
      var a :| a in addrs;
      var rest := addrs - {a};
      FleetBound(c, s, h, up, i, j, rest);
      AddressBound(c, s, h, up, i, j, a);
      CountSplit(h, Failure, a, addrs);
      CountSplit(h, Success, a, addrs);
      Distribute(Allowance(c, s), Count(h, Success, {a}) + 1, |rest| + Count(h, Success, rest));
    }
  }

  /** Addresses that only ever fail are selected at most D * (max_fail_times_ + T - 1) times from
      the installation on, by all T threads together. */
  lemma {:induction false} DeadAddressesBound(c: Config, s: System, h: History, up: set<string>,
                                              i: nat, j: nat, dead: set<string>)
    requires JustInstalled(s) && Legal(c, s, h) && NoInstall(h) && NeverFail(h, up)
    requires c.maxFail >= 1 && i != j && UpAt(s.shared.rows, i, up) && UpAt(s.shared.rows, j, up)
    requires Count(h, Success, dead) == 0
    ensures Selects(h, dead) <= Allowance(c, s) * |dead|
  {
    hide Count, Flying, Legal, After, NoInstall;
    if dead == {} {
      CountNone(h, HealthyPick);
      CountNone(h, DegradedPick);
    } else {
      var a :| a in dead;
      var rest := dead - {a};
      CountSplit(h, Success, a, dead);
      DeadAddressesBound(c, s, h, up, i, j, rest);
      AddressBound(c, s, h, up, i, j, a);
      Conservation(c, s, h, {a});
      CountSplit(h, HealthyPick, a, dead);
      CountSplit(h, DegradedPick, a, dead);
      Distribute(Allowance(c, s), 1, |rest|);
    }
  }

  /** An installation in a reachable state is a fresh start. */
  lemma InstallIsFresh(c: Config, s: System, e: Event)
    requires Inv(s) && Enabled(c, s, e) && e.Install?
    ensures JustInstalled(Next(c, s, e)) && Next(c, s, e).shared.rows == FreshRows(e.list)
  {
  }

  /** What a run of `count` threads from start-up leaves right after an installation. */
  lemma InstalledByRun(c: Config, count: nat, past: History, e: Event, g: History) returns (s: System)
    requires Legal(c, Initial(count), Append(Then(past, e), g)) && e.Install?
    ensures s == After(c, Initial(count), Then(past, e)) && |s.threads| == count >= 1
    ensures JustInstalled(s) && Legal(c, s, g) && s.shared.rows == FreshRows(e.list)
    ensures After(c, Initial(count), Append(Then(past, e), g)) == After(c, s, g)
    ensures count == 1 ==> s.threads == [Choosing]
  {
    hide Inv, JustInstalled;
    AppendRuns(c, Initial(count), Then(past, e), g);
    InitialInv(count);
    RunKeepsInv(c, Initial(count), past);
    ThreadsStay(c, Initial(count), past);
    ThreadsStay(c, Initial(count), Then(past, e));
    s := After(c, Initial(count), Then(past, e));
    InstallIsFresh(c, After(c, Initial(count), past), e);
  }

  /** The same bound read off a whole run of `count` threads from start-up: `e` is its last
      installation, and what happened before it, requests still in flight included, is arbitrary. */
  lemma DeadAddressesAfterInstall(c: Config, count: nat, past: History, e: Event, g: History,
                                  up: set<string>, i: nat, j: nat, dead: set<string>)
    requires Legal(c, Initial(count), Append(Then(past, e), g)) && e.Install? && NoInstall(g)
    requires c.maxFail >= 1 && i < j < |e.list| && e.list[i] in up && e.list[j] in up
    requires NeverFail(g, up) && Count(g, Success, dead) == 0
    ensures Selects(g, dead) <= (c.maxFail + count - 1) * |dead|
  {
    hide Count, NoInstall, JustInstalled, Legal, After, Append;
    var s := InstalledByRun(c, count, past, e, g);
    DeadAddressesBound(c, s, g, up, i, j, dead);
  }

  // ------------------------------------------------------- a single survivor

  function AtPosition(s: System, w: nat): nat {
    if s.shared.index == w then 1 else 0
  }

  /** A server past the threshold is picked only when the survivor is the current position, so
      each such pick follows a pick of the survivor (or the start). */
  lemma {:induction false} DegradedFollowSurvivor(c: Config, s: System, h: History, w: nat,
                                                  addrs: set<string>)
    requires JustInstalled(s) && Legal(c, s, h) && NoInstall(h) && c.maxFail >= 1
    requires 2 <= |s.shared.rows| && w < |s.shared.rows|
    requires NeverFail(h, {s.shared.rows[w].addr})
    ensures Count(h, DegradedPick, addrs) + AtPosition(After(c, s, h), w)
         <= SelectsAt(h, w) + AtPosition(s, w)
  {
    hide Trailing, Outcomes, Pick;
    if h.Then? {
      var before, e := After(c, s, h.past), h.event;
      DegradedFollowSurvivor(c, s, h.past, w, addrs);
      if e.Select? {
        RowFacts(c, s, h.past, {s.shared.rows[w].addr}, w);
        var healthy := Health(c, before.shared.rows);
        assert healthy[w];
        PickCorrect(healthy, before.shared.index);
      }
    }
  }

  /** Before a further pick of `a`, its picks are its records and at most T - 1 requests in flight. */
  lemma PicksBeforeThreshold(c: Config, s: System, h: History, e: Event, a: string)
    requires Legal(c, s, h) && Enabled(c, After(c, s, h), e) && e.Select?
    ensures Selects(h, {a}) <= Records(h, {a}) + |s.threads| - 1
  {
    hide Flying, Pick, Legal, After;
    var before := After(c, s, h);
    Conservation(c, s, h, {a});
    ThreadsStay(c, s, h);
    FlyingUpdate(before.threads, e.t, Idle, {a});
  }

  lemma {:induction false} HealthyPicksOfDead(c: Config, s: System, h: History, a: string)
    requires JustInstalled(s) && Legal(c, s, h) && NoInstall(h) && c.maxFail >= 1
    requires Count(h, Success, {a}) == 0
    ensures Count(h, HealthyPick, {a}) <= Allowance(c, s)
    ensures Trailing(Outcomes(h, a)) == Count(h, Failure, {a})
  {
    hide Trailing, Flying, Pick;
    if h == Empty {
      TrailingOfEmpty();
    } else {
      var e := h.event;
      HealthyPicksOfDead(c, s, h.past, a);
      if e.Record? {
        TrailingSnoc(Outcomes(h.past, e.addr), e.ok);
      } else if Is(e, HealthyPick, {a}) {
        PickedRow(c, s, h.past, e);
        PicksBeforeThreshold(c, s, h.past, e, a);
      }
    }
  }

  lemma {:induction false} HealthyPicksOfAllDead(c: Config, s: System, h: History,
                                                 dead: set<string>)
    requires JustInstalled(s) && Legal(c, s, h) && NoInstall(h) && c.maxFail >= 1
    requires Count(h, Success, dead) == 0
    ensures Count(h, HealthyPick, dead) <= Allowance(c, s) * |dead|
  {
    hide Count, Legal, After, NoInstall;
    if dead == {} {
      CountNone(h, HealthyPick);
    } else {
      var a :| a in dead;
      CountSplit(h, Success, a, dead);
      HealthyPicksOfAllDead(c, s, h, dead - {a});
      HealthyPicksOfDead(c, s, h, a);
      CountSplit(h, HealthyPick, a, dead);
      Distribute(Allowance(c, s), 1, |dead - {a}|);
    }
  }

  /** The single-survivor bound for T threads: position `w` never fails, the addresses `dead` only
      fail; they are selected at most D * (max_fail_times_ + T - 1) times plus once for each
      selection of the survivor, plus one if the survivor was current at the start. */
  lemma SoleSurvivorBound(c: Config, s: System, h: History, w: nat, dead: set<string>)
    requires JustInstalled(s) && Legal(c, s, h) && NoInstall(h) && c.maxFail >= 1
    requires 2 <= |s.shared.rows| && w < |s.shared.rows|
    requires NeverFail(h, {s.shared.rows[w].addr}) && Count(h, Success, dead) == 0
    ensures Selects(h, dead)
         <= Allowance(c, s) * |dead| + SelectsAt(h, w) + AtPosition(s, w)
  {
    hide Count, Legal, After, NoInstall;
    DegradedFollowSurvivor(c, s, h, w, dead);
    HealthyPicksOfAllDead(c, s, h, dead);
  }

  /** Positions and addresses coincide for an address listed once. */
  lemma {:induction false} SelectsAtSole(c: Config, s: System, h: History, w: nat)
    requires JustInstalled(s) && Legal(c, s, h) && NoInstall(h) && w < |s.shared.rows|
    requires forall i :: 0 <= i < |s.shared.rows| && i != w ==>
               s.shared.rows[i].addr != s.shared.rows[w].addr
    ensures SelectsAt(h, w) == Selects(h, {s.shared.rows[w].addr})
  {
    hide Trailing, Outcomes, Pick;
    if h.Then? {
      SelectsAtSole(c, s, h.past, w);
      if h.event.Select? {
        PickedRow(c, s, h.past, h.event);
      }
    }
  }

  /** Picks of a position are picks of its address. */
  lemma {:induction false} SelectsAtMost(c: Config, s: System, h: History, w: nat)
    requires JustInstalled(s) && Legal(c, s, h) && NoInstall(h) && w < |s.shared.rows|
    ensures SelectsAt(h, w) <= Selects(h, {s.shared.rows[w].addr})
  {
    hide Trailing, Outcomes, Pick;
    if h.Then? {
      SelectsAtMost(c, s, h.past, w);
      if h.event.Select? {
        PickedRow(c, s, h.past, h.event);
      }
    }
  }

  lemma NoFlights(threads: seq<Phase>, addrs: set<string>)
    requires |threads| == 1 && !threads[0].InFlight?
    ensures Flying(threads, addrs) == 0
  {
  }

  /** One thread whose calls are complete, the first being the one that installed: selections of
      any addresses are recordings. */
  lemma CompletedCalls(c: Config, s: System, h: History, addrs: set<string>)
    requires Legal(c, s, h) && |s.threads| == 1 && !s.threads[0].InFlight?
    requires After(c, s, h).threads == [Idle]
    ensures Selects(h, addrs) == Records(h, addrs)
  {
    hide Count, Legal, After;
    NoFlights(s.threads, addrs);
    NoFlights([Idle], addrs);
    Conservation(c, s, h, addrs);
  }

  /** The sequential reading: one thread, completed calls (the first may be the one that installed),
      F failures of D dead addresses and S successes of the one survivor satisfy
      F <= max_fail_times_ * D + S + 1. */
  lemma SequentialSoleSurvivor(c: Config, s: System, h: History, w: nat, dead: set<string>)
    requires JustInstalled(s) && Legal(c, s, h) && NoInstall(h) && c.maxFail >= 1
    requires |s.threads| == 1 && !s.threads[0].InFlight? && After(c, s, h).threads == [Idle]
    requires 2 <= |s.shared.rows| && w < |s.shared.rows|
    requires NeverFail(h, {s.shared.rows[w].addr}) && Count(h, Success, dead) == 0
    ensures Count(h, Failure, dead)
         <= c.maxFail * |dead| + Count(h, Success, {s.shared.rows[w].addr}) + 1
  {
    hide Count, Legal, After, NoInstall, Flying;
    SoleSurvivorBound(c, s, h, w, dead);
    SelectsAtMost(c, s, h, w);
    CompletedCalls(c, s, h, {s.shared.rows[w].addr});
    CompletedCalls(c, s, h, dead);
    assert Allowance(c, s) == c.maxFail;
  }

  /** The sequential bound read off a run of one thread from start-up: between calls, counted from
      the last installation `e`. */
  lemma SoleSurvivorAfterInstall(c: Config, past: History, e: Event, g: History, w: nat,
                                 dead: set<string>)
    requires Legal(c, Initial(1), Append(Then(past, e), g)) && e.Install? && NoInstall(g)
    requires After(c, Initial(1), Append(Then(past, e), g)).threads == [Idle]
    requires c.maxFail >= 1 && 2 <= |e.list| && w < |e.list|
    requires NeverFail(g, {e.list[w]}) && Count(g, Success, dead) == 0
    ensures Count(g, Failure, dead) <= c.maxFail * |dead| + Count(g, Success, {e.list[w]}) + 1
  {
    hide Count, NoInstall, JustInstalled, Legal, After, Append;
    var s := InstalledByRun(c, 1, past, e, g);
    SequentialSoleSurvivor(c, s, g, w, dead);
  }
}
