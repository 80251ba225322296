/** Client threads sharing one IsgwProxy, interleaved arbitrarily.

    A thread inside `get` moves through: the unlocked staleness check, the fetch from the admins,
    the unlocked recheck, the locked installation, the locked selection, the request itself, and
    the locked recording of its outcome.  Each locked section is one step; each unlocked read is a
    step of its own, so that two threads can both pass the checks. */
module Threads {
  import opened Text
  import opened Decimal
  import opened AdminFallback
  import opened Selection
  import opened ProxyState

  /** Where a thread is.  `now` is the time it read on entering get_server. */
  datatype Phase =
    | Idle
    | Fetching(now: nat)
    | Fetched(now: nat, list: seq<string>)
    | Installing(now: nat, list: seq<string>)
    | Choosing
    | InFlight(addr: string)

  datatype System = System(shared: State, threads: seq<Phase>)

  /** One step of thread `t`.  A selection is degraded when the server it picks has already
      reached max_fail_times_ consecutive failures. */
  datatype Event =
    | Check(t: nat, now: nat)
    | Fetch(t: nat, replies: seq<Exchange>)
    | Recheck(t: nat)
    | Install(t: nat, now: nat, list: seq<string>)
    | NoServer(t: nat)
    | Select(t: nat, pos: nat, addr: string, degraded: bool)
    | Record(t: nat, addr: string, ok: bool)

  /** A run, as the events that happened, the latest outermost. */
  datatype History = Empty | Then(past: History, event: Event)

  predicate Enabled(c: Config, s: System, e: Event) {
    && e.t < |s.threads|
    && var phase := s.threads[e.t];
       match e
       case Check(_, _) => phase == Idle
       case Fetch(_, replies) => phase.Fetching? && replies != []
       case Recheck(_) => phase.Fetched?
       case Install(_, now, list) => phase == Installing(now, list)
       case NoServer(_) => phase == Choosing && s.shared.rows == []
       case Select(_, pos, addr, degraded) =>
         && phase == Choosing && s.shared.rows != [] && InRange(s.shared)
         && pos == Chosen(c, s.shared) && addr == s.shared.rows[pos].addr
         && degraded == !(s.shared.rows[pos].fail < c.maxFail)
       case Record(_, addr, _) => phase == InFlight(addr)
  }

  function NextPhase(c: Config, s: System, e: Event): Phase
    requires Enabled(c, s, e)
  {
    var phase := s.threads[e.t];
    match e
    case Check(_, now) => if Stale(c, s.shared, now) then Fetching(now) else Choosing
    case Fetch(_, replies) =>
      var (ret, list) := Fallback(replies);
      if ret == 0 then Fetched(phase.now, list) else Choosing
    case Recheck(_) =>
      if Stale(c, s.shared, phase.now) then Installing(phase.now, phase.list) else Choosing
    case Install(_, _, _) => Choosing
    case NoServer(_) => Idle
    case Select(_, _, addr, _) => InFlight(addr)
    case Record(_, _, _) => Idle
  }

  function NextShared(c: Config, s: System, e: Event): State
    requires Enabled(c, s, e)
  {
    match e
    case Install(_, now, list) => Installed(list, now)
    case Select(_, _, _, _) => Selected(c, s.shared)
    case Record(_, addr, ok) => Recorded(s.shared, addr, ok)
    case _ => s.shared
  }

  function Next(c: Config, s: System, e: Event): System
    requires Enabled(c, s, e)
  {
    System(NextShared(c, s, e), s.threads[e.t := NextPhase(c, s, e)])
  }

  /** The system after history `h`; events that are not enabled are ignored. */
  function After(c: Config, s: System, h: History): System {
    match h
    case Empty => s
    case Then(past, e) =>
      var before := After(c, s, past);
      if Enabled(c, before, e) then Next(c, before, e) else before
  }

  predicate Legal(c: Config, s: System, h: History) {
    h.Then? ==> Legal(c, s, h.past) && Enabled(c, After(c, s, h.past), h.event)
  }

  /** `count` threads, nothing installed yet. */
  function Initial(count: nat): System {
    System(INITIAL, seq(count, _ => Idle))
  }

  lemma {:induction false} ThreadsStay(c: Config, s: System, h: History)
    ensures |After(c, s, h).threads| == |s.threads|
  {
    if h.Then? { ThreadsStay(c, s, h.past); }
  }

  /** First `h`, then `g`. */
  function Append(h: History, g: History): History {
    match g
    case Empty => h
    case Then(past, e) => Then(Append(h, past), e)
  }

  lemma {:induction false} AppendRuns(c: Config, s: System, h: History, g: History)
    ensures After(c, s, Append(h, g)) == After(c, After(c, s, h), g)
    ensures Legal(c, s, Append(h, g)) <==> Legal(c, s, h) && Legal(c, After(c, s, h), g)
  {
    hide Enabled, Next;
    if g.Then? { AppendRuns(c, s, h, g.past); }
  }

  // ------------------------------------------------------------- what every step keeps

  ghost predicate Inv(s: System) {
    && InRange(s.shared)
    && forall t :: 0 <= t < |s.threads| ==>
         (s.threads[t].Fetched? || s.threads[t].Installing?) ==> s.threads[t].list != []
  }

  lemma StepKeepsInv(c: Config, s: System, e: Event)
    requires Inv(s) && Enabled(c, s, e)
    ensures Inv(Next(c, s, e))
    ensures s.shared.rows != [] ==> Next(c, s, e).shared.rows != []
  {
    hide Fallback, Pick;
    if e.Fetch? {
      FallbackIsFirstUsable(e.replies);
      if Fallback(e.replies).0 == 0 {
        var i :| FirstUsable(e.replies, i) && Fallback(e.replies).1 == List(e.replies[i]);
      }
    }
  }

  /** Every interleaving keeps the index in range, and a nonempty list never becomes empty. */
  lemma {:induction false} RunKeepsInv(c: Config, s: System, h: History)
    requires Inv(s) && Legal(c, s, h)
    ensures Inv(After(c, s, h))
    ensures s.shared.rows != [] ==> After(c, s, h).shared.rows != []
  {
    hide Enabled, Next, Inv;
    if h.Then? {
      RunKeepsInv(c, s, h.past);
      StepKeepsInv(c, After(c, s, h.past), h.event);
    }
  }

  lemma InitialInv(count: nat)
    ensures Inv(Initial(count)) && |Initial(count).threads| == count
  {
  }

  /** No thread is ever stuck: in every reachable state each one can take its next step. */
  lemma NeverStuck(c: Config, count: nat, h: History, t: nat) returns (e: Event)
    requires t < count && Legal(c, Initial(count), h)
    ensures e.t == t && Enabled(c, After(c, Initial(count), h), e)
  {
    hide Fallback, Pick, After, Legal;
    InitialInv(count);
    RunKeepsInv(c, Initial(count), h);
    ThreadsStay(c, Initial(count), h);
    var s := After(c, Initial(count), h);
    match s.threads[t] {
      case Idle => e := Check(t, 0);
      case Fetching(_) => e := Fetch(t, [Exchange(-1, "")]);
      case Fetched(_, _) => e := Recheck(t);
      case Installing(now, list) => e := Install(t, now, list);
      case Choosing =>
        if s.shared.rows == [] {
          e := NoServer(t);
        } else {
          var row := s.shared.rows[Chosen(c, s.shared)];
          e := Select(t, Chosen(c, s.shared), row.addr, !(row.fail < c.maxFail));
        }
      case InFlight(addr) => e := Record(t, addr, true);
    }
  }

  // ------------------------------------------------ statistics as a history abstraction

  /** The outcomes recorded for address `a` since the last installation, in order.  A request
      counts from when it is recorded, even if it was selected before that installation. */
  function Outcomes(h: History, a: string): seq<bool> {
    match h
    case Empty => []
    case Then(past, e) =>
      if e.Install? then []
      else if e.Record? && e.addr == a then Outcomes(past, a) + [e.ok]
      else Outcomes(past, a)
  }

  /** The list of the last installation, `first` if there was none. */
  function LatestList(h: History, first: seq<string>): seq<string> {
    match h
    case Empty => first
    case Then(past, e) => if e.Install? then e.list else LatestList(past, first)
  }

  /** Length of the run of failures at the end. */
  function Trailing(outcomes: seq<bool>): (k: nat)
    ensures k <= |outcomes|
    ensures forall i :: |outcomes| - k <= i < |outcomes| ==> !outcomes[i]
    ensures k < |outcomes| ==> outcomes[|outcomes| - k - 1]
  {
    if outcomes == [] || outcomes[|outcomes| - 1] then 0
    else 1 + Trailing(outcomes[..|outcomes| - 1])
  }

  function Addrs(rows: seq<Row>): seq<string> {
    seq(|rows|, i requires 0 <= i < |rows| => rows[i].addr)
  }

  ghost predicate ZeroStats(rows: seq<Row>) {
    forall i :: 0 <= i < |rows| ==> rows[i].total == 0 && rows[i].fail == 0
  }

  /** Each row is what the history says of its address. */
  ghost predicate StatsMatch(rows: seq<Row>, h: History) {
    forall i :: 0 <= i < |rows| ==>
      && rows[i].total == |Outcomes(h, rows[i].addr)|
      && rows[i].fail == Trailing(Outcomes(h, rows[i].addr))
  }

  lemma TrailingSnoc(outcomes: seq<bool>, ok: bool)
    ensures Trailing(outcomes + [ok]) == if ok then 0 else Trailing(outcomes) + 1
  {
    assert (outcomes + [ok])[..|outcomes|] == outcomes;
  }

  lemma StepKeepsStats(c: Config, s: System, h: History, e: Event)
    requires Enabled(c, s, e) && StatsMatch(s.shared.rows, h)
    ensures StatsMatch(Next(c, s, e).shared.rows, Then(h, e))
  {
    hide Pick, Trailing, Fallback;
    if e.Record? {
      TrailingSnoc(Outcomes(h, e.addr), e.ok);
    } else if e.Install? {
      assert Trailing([]) == 0 by { TrailingOfEmpty(); }
    }
  }

  lemma TrailingOfEmpty()
    ensures Trailing([]) == 0
  {
  }

  /** The statistics are an exact abstraction of the history, in every interleaving: `total` counts
      the recordings of the address since the last installation and `fail` is the length of the
      run of failures they end with. */
  lemma {:induction false} StatsAreHistory(c: Config, s: System, h: History)
    requires ZeroStats(s.shared.rows) && Legal(c, s, h)
    ensures StatsMatch(After(c, s, h).shared.rows, h)
    ensures Addrs(After(c, s, h).shared.rows) == LatestList(h, Addrs(s.shared.rows))
  {
    hide Pick, Fallback, Trailing;
    if h == Empty {
      TrailingOfEmpty();
    } else {
      StatsAreHistory(c, s, h.past);
      StepKeepsStats(c, After(c, s, h.past), h.past, h.event);
    }
  }

  /** Rows that share an address agree, and no row fails more often than it is tried. */
  lemma SameAddressSameStats(c: Config, count: nat, h: History, i: nat, j: nat)
    requires Legal(c, Initial(count), h)
    requires var rows := After(c, Initial(count), h).shared.rows;
             i < |rows| && j < |rows| && rows[i].addr == rows[j].addr
    ensures var rows := After(c, Initial(count), h).shared.rows;
            rows[i] == rows[j] && rows[i].fail <= rows[i].total
  {
    StatsAreHistory(c, Initial(count), h);
  }

  // ------------------------------------------------------ what a run says of refreshing

  /** The time of the last installation, 0 if there was none. */
  function LastInstall(h: History): nat {
    match h
    case Empty => 0
    case Then(past, e) => if e.Install? then e.now else LastInstall(past)
  }

  /** In every run from start-up last_refresh_time_ is the time of the last installation, and right
      after it the index is 0 and every row is new. */
  lemma {:induction false} RefreshTimes(c: Config, count: nat, h: History)
    requires Legal(c, Initial(count), h)
    ensures var s := After(c, Initial(count), h).shared;
            && s.lastRefresh == LastInstall(h)
            && (h.Then? && h.event.Install? ==> s.index == 0 && NewRows(s.rows, h.event.list))
  {
    hide Pick, Fallback;
    if h.Then? { RefreshTimes(c, count, h.past); }
  }

  /** Both unlocked tests, in every run: a thread goes on to fetch, and then to install, exactly when
      its time is more than the interval after the last installation. */
  lemma TestsDecide(c: Config, count: nat, h: History, e: Event)
    requires Legal(c, Initial(count), Then(h, e))
    ensures var was := After(c, Initial(count), h).threads;
            var now := After(c, Initial(count), Then(h, e)).threads;
            && (e.Check? ==>
                  now[e.t] == if e.now > LastInstall(h) + c.interval then Fetching(e.now) else Choosing)
            && (e.Recheck? ==>
                  && was[e.t].Fetched?
                  && now[e.t] == if was[e.t].now > LastInstall(h) + c.interval
                                then Installing(was[e.t].now, was[e.t].list) else Choosing)
  {
    hide Pick, Fallback;
    RefreshTimes(c, count, h);
  }

  /** The fetch: with an admin that settles the matter the thread holds that admin's list. */
  lemma FetchDecides(c: Config, count: nat, h: History, e: Event)
    requires Legal(c, Initial(count), Then(h, e)) && e.Fetch?
    ensures var was := After(c, Initial(count), h).threads;
            var now := After(c, Initial(count), Then(h, e)).threads;
            && was[e.t].Fetching?
            && ((exists i :: FirstToSettle(e.replies, i)) <==> now[e.t] != Choosing)
            && forall i, v :: FirstToSettle(e.replies, i) && FieldIs(e.replies[i].line, "info", v) ==>
                 now[e.t] == Fetched(was[e.t].now, Runs(v, {' '}))
  {
    hide Fallback, FirstToSettle, FieldIs, List, Runs, Usable, Pick;
    SpelledOut(e.replies);
    FallbackIsFirstUsable(e.replies);
    if Fallback(e.replies).0 == 0 {
      var i :| FirstUsable(e.replies, i) && Fallback(e.replies).1 == List(e.replies[i]);
    }
  }

  // ------------------------------------------------------------- where a step comes from

  // The last check, fetch and selection of thread `t`.

  function LastCheck(h: History, t: nat): nat {
    match h
    case Empty => 0
    case Then(past, e) => if e.Check? && e.t == t then e.now else LastCheck(past, t)
  }

  function LastFetch(h: History, t: nat): seq<Exchange> {
    match h
    case Empty => []
    case Then(past, e) => if e.Fetch? && e.t == t then e.replies else LastFetch(past, t)
  }

  function LastSelect(h: History, t: nat): string {
    match h
    case Empty => ""
    case Then(past, e) => if e.Select? && e.t == t then e.addr else LastSelect(past, t)
  }

  /** `list` is that of the first admin that settles the matter. */
  ghost predicate FoundIn(replies: seq<Exchange>, list: seq<string>) {
    exists i, v :: FirstToSettle(replies, i) && FieldIs(replies[i].line, "info", v)
                && list == Runs(v, {' '})
  }

  lemma FetchFinds(replies: seq<Exchange>)
    requires replies != [] && Fallback(replies).0 == 0
    ensures FoundIn(replies, Fallback(replies).1)
  {
    hide Fallback, FieldIs, List, Runs, Usable, Atoi;
    SpelledOut(replies);
    FallbackIsFirstUsable(replies);
    var i :| FirstUsable(replies, i) && Fallback(replies).1 == List(replies[i]);
    assert FirstToSettle(replies, i);
    var v :| FieldIs(replies[i].line, "info", v);
    CodeMeans(replies[i]);
    assert Fallback(replies).1 == Runs(v, {' '});
  }

  ghost predicate OriginOf(phase: Phase, h: History, t: nat) {
    match phase
    case Fetching(now) => now == LastCheck(h, t)
    case Fetched(now, list) => now == LastCheck(h, t) && FoundIn(LastFetch(h, t), list)
    case Installing(now, list) => now == LastCheck(h, t) && FoundIn(LastFetch(h, t), list)
    case InFlight(addr) => addr == LastSelect(h, t)
    case _ => true
  }

  lemma {:induction false} PhaseOrigin(c: Config, count: nat, h: History, t: nat)
    requires Legal(c, Initial(count), h) && t < count
    ensures |After(c, Initial(count), h).threads| == count
    ensures OriginOf(After(c, Initial(count), h).threads[t], h, t)
  {
    hide Pick, Fallback, FoundIn;
    if h.Then? {
      PhaseOrigin(c, count, h.past, t);
      if h.event.Fetch? && Fallback(h.event.replies).0 == 0 {
        FetchFinds(h.event.replies);
      }
    }
  }

  /** In every run an installation carries the time of its thread's last check and the list of its
      last fetch, and a recording the address of its thread's last selection: what other threads
      did in between does not matter. */
  lemma StepOrigin(c: Config, count: nat, h: History, e: Event)
    requires Legal(c, Initial(count), Then(h, e))
    ensures e.Install? ==> e.now == LastCheck(h, e.t) && FoundIn(LastFetch(h, e.t), e.list)
    ensures e.Record? ==> e.addr == LastSelect(h, e.t)
  {
    hide Pick, Fallback, FoundIn;
    ThreadsStay(c, Initial(count), h);
    PhaseOrigin(c, count, h, e.t);
  }

  // -------------------------------------------------------- a call alone is a run

  /** The steps of thread `t` up to the selection, when nobody else moves. */
  lemma RefreshIsRun(c: Config, s: System, t: nat, now: nat, replies: seq<Exchange>)
    returns (h: History)
    requires Inv(s) && t < |s.threads| && s.threads[t] == Idle && replies != []
    ensures Legal(c, s, h)
    ensures After(c, s, h)
         == System(Refreshed(c, s.shared, now, replies), s.threads[t := Choosing])
  {
    hide Fallback, Legal, After;
    h := Empty;
    StartOfRun(c, s);
    h := RunStep(c, s, h, Check(t, now));
    if Stale(c, s.shared, now) {
      h := RunStep(c, s, h, Fetch(t, replies));
      if Fallback(replies).0 == 0 {
        h := RunStep(c, s, h, Recheck(t));
        h := RunStep(c, s, h, Install(t, now, Fallback(replies).1));
      }
    }
    assert After(c, s, h).threads == s.threads[t := Choosing];
  }

  lemma StartOfRun(c: Config, s: System)
    ensures Legal(c, s, Empty) && After(c, s, Empty) == s
  {
  }

  lemma RunStep(c: Config, s: System, h: History, e: Event) returns (longer: History)
    requires Legal(c, s, h) && Enabled(c, After(c, s, h), e)
    ensures longer == Then(h, e)
    ensures Legal(c, s, longer) && After(c, s, longer) == Next(c, After(c, s, h), e)
  {
    longer := Then(h, e);
  }

  /** The sequential object and the interleaved system agree: a call of `get` that nobody
      interferes with is a run of its thread with the same effect.  The run ends without a server
      exactly when the call returns that code; otherwise it ends by selecting the address the call
      asks and recording whether the call returns 0. */
  lemma CallIsRun(c: Config, s: System, t: nat, now: nat, replies: seq<Exchange>,
                  answer: string -> Exchange)
    returns (h: History)
    requires Inv(s) && t < |s.threads| && s.threads[t] == Idle && replies != []
    ensures Legal(c, s, h)
    ensures After(c, s, h) == System(AfterCall(c, s.shared, now, replies, answer), s.threads)
    ensures var current := Refreshed(c, s.shared, now, replies);
            var ret := CallResult(c, s.shared, now, replies, answer);
            && h.Then? && InRange(current)
            && (current.rows == [] ==> ret == IPEC_NO_SERVER && h.event == NoServer(t))
            && (current.rows != [] ==>
                  var addr := NextAddr(c, current);
                  && ret == answer(addr).code && h.event == Record(t, addr, ret == 0)
                  && h.past.Then? && h.past.event.Select? && h.past.event.t == t
                  && h.past.event.addr == addr)
  {
    hide Fallback, Legal, After, Pick;
    h := RefreshIsRun(c, s, t, now, replies);
    RunKeepsInv(c, s, h);
    var mid := After(c, s, h);
    if mid.shared.rows == [] {
      h := RunStep(c, s, h, NoServer(t));
    } else {
      var pos := Chosen(c, mid.shared);
      var row := mid.shared.rows[pos];
      h := RunStep(c, s, h, Select(t, pos, row.addr, !(row.fail < c.maxFail)));
      h := RunStep(c, s, h, Record(t, row.addr, answer(row.addr).code == 0));
    }
    assert After(c, s, h).threads == s.threads;
  }
}
