/** The shared state of an IsgwProxy and its three critical sections, as functions on values.

    Counters and times are unbounded: the 32-bit wrap-around of the source is not modelled. */
module ProxyState {
  import opened Text
  import opened AdminFallback
  import opened Selection

  /** An element of servers_: an address with its ServerStat. */
  datatype Row = Row(addr: string, total: nat, fail: nat)

  /** refresh_server_interval_ and max_fail_times_. */
  datatype Config = Config(interval: nat, maxFail: nat)

  /** servers_, server_index_ and last_refresh_time_. */
  datatype State = State(rows: seq<Row>, index: nat, lastRefresh: nat)

  const INITIAL := State([], 0, 0)

  /** The index is usable: 0 on an empty list, inside a nonempty one. */
  predicate InRange(s: State) {
    if s.rows == [] then s.index == 0 else s.index < |s.rows|
  }

  /** The staleness test, made twice without the lock. */
  predicate Stale(c: Config, s: State, now: nat) {
    now > s.lastRefresh + c.interval
  }

  function FreshRows(list: seq<string>): seq<Row> {
    seq(|list|, i requires 0 <= i < |list| => Row(list[i], 0, 0))
  }

  /** Critical section 1: replace the list, reset the index and every statistic. */
  function Installed(list: seq<string>, now: nat): State {
    State(FreshRows(list), 0, now)
  }

  function Health(c: Config, rows: seq<Row>): (h: seq<bool>)
    ensures |h| == |rows|
    ensures forall i :: 0 <= i < |rows| ==> h[i] == (rows[i].fail < c.maxFail)
  {
    seq(|rows|, i requires 0 <= i < |rows| => rows[i].fail < c.maxFail)
  }

  /** The position critical section 2 selects. */
  function Chosen(c: Config, s: State): (p: nat)
    requires s.rows != [] && InRange(s)
    ensures p < |s.rows|
  {
    Pick(Health(c, s.rows), s.index)
  }

  /** Critical section 2 on a nonempty list. */
  function Selected(c: Config, s: State): State
    requires s.rows != [] && InRange(s)
  {
    s.(index := Chosen(c, s))
  }

  function Bumped(r: Row, addr: string, ok: bool): Row {
    if r.addr != addr then r
    else Row(addr, r.total + 1, if ok then 0 else r.fail + 1)
  }

  /** Critical section 3: every row of the address counts the request. */
  function Recorded(s: State, addr: string, ok: bool): State {
    s.(rows := seq(|s.rows|, i requires 0 <= i < |s.rows| => Bumped(s.rows[i], addr, ok)))
  }

  // ------------------------------------------------- one call of get, alone

  /** The address the next selection returns. */
  function NextAddr(c: Config, s: State): string
    requires s.rows != [] && InRange(s)
  {
    s.rows[Chosen(c, s)].addr
  }

  /** Selection, request and recording on a nonempty list, with the given outcome. */
  function Called(c: Config, s: State, ok: bool): (r: State)
    requires s.rows != [] && InRange(s)
    ensures InRange(r) && |r.rows| == |s.rows|
  {
    Recorded(Selected(c, s), NextAddr(c, s), ok)
  }

  /** The state when get_server reaches its second critical section. */
  function Refreshed(c: Config, s: State, now: nat, replies: seq<Exchange>): State
    requires replies != []
  {
    if Stale(c, s, now) && Fallback(replies).0 == 0 then Installed(Fallback(replies).1, now) else s
  }

  /** The state after a whole call; `answer` is what each address would reply. */
  function AfterCall(c: Config, s: State, now: nat, replies: seq<Exchange>,
                     answer: string -> Exchange): State
    requires replies != [] && InRange(s)
  {
    var current := Refreshed(c, s, now, replies);
    if current.rows == [] then current
    else Called(c, current, answer(NextAddr(c, current)).code == 0)
  }

  /** The return value of that call. */
  function CallResult(c: Config, s: State, now: nat, replies: seq<Exchange>,
                      answer: string -> Exchange): int
    requires replies != [] && InRange(s)
  {
    var current := Refreshed(c, s, now, replies);
    if current.rows == [] then IPEC_NO_SERVER
    else answer(NextAddr(c, current)).code
  }

  // --------------------------------------- the critical sections in terms of their fields

  /** The rows of a list just installed. */
  ghost predicate NewRows(rows: seq<Row>, list: seq<string>) {
    && |rows| == |list|
    && forall i :: 0 <= i < |list| ==> rows[i].addr == list[i] && rows[i].total == 0 && rows[i].fail == 0
  }

  /** A row before and after a request to `addr` is counted. */
  ghost predicate Counted(before: Row, after: Row, addr: string, ok: bool) {
    && after.addr == before.addr
    && (before.addr != addr ==> after.total == before.total && after.fail == before.fail)
    && (before.addr == addr ==>
          && after.total == before.total + 1
          && (ok ==> after.fail == 0) && (!ok ==> after.fail == before.fail + 1))
  }

  /** A call replaces the list exactly when more than the interval has passed since the last
      installation and some admin settles the matter; then the first such admin's list is in place,
      from position 0, dated now. */
  lemma RefreshDecides(c: Config, s: State, now: nat, replies: seq<Exchange>)
    requires replies != []
    ensures var r := Refreshed(c, s, now, replies);
            if now > s.lastRefresh + c.interval && exists i :: FirstToSettle(replies, i) then
              && r.lastRefresh == now && r.index == 0 && r.rows != []
              && forall i, v :: FirstToSettle(replies, i) && FieldIs(replies[i].line, "info", v) ==>
                   NewRows(r.rows, Runs(v, {' '}))
            else
              r.rows == s.rows && r.index == s.index && r.lastRefresh == s.lastRefresh
  {
    hide Fallback, FirstToSettle, FieldIs, List, Runs, Usable;
    SpelledOut(replies);
    FallbackIsFirstUsable(replies);
    if Fallback(replies).0 == 0 {
      var i :| FirstUsable(replies, i) && Fallback(replies).1 == List(replies[i]);
      FirstUsableUnique(replies, i, i);
      assert FirstToSettle(replies, i);
      assert NewRows(Installed(List(replies[i]), now).rows, List(replies[i]));
    }
  }

  /** After an installation the first selection steps to position 1, or stays if there is no other. */
  lemma FirstPick(c: Config, s: State, list: seq<string>)
    requires list != [] && NewRows(s.rows, list) && s.index == 0
    ensures Chosen(c, s) == 1 % |list|
  {
    hide Pick;
    var healthy, n := Health(c, s.rows), |list|;
    PickCorrect(healthy, 0);
    StepIsRemainder(0, 1, n);
    if OtherHealthy(healthy, 0) {
      assert FirstAfter(healthy, 0, 1, 1 % n);
      PickUnique(healthy, 0, 1, 1 % n);
    }
  }

  /** Selection moves the index and nothing else; recording counts the request in every row of the
      address and changes nothing else. */
  lemma SectionsKeep(c: Config, s: State, addr: string, ok: bool)
    ensures s.rows != [] && InRange(s) ==>
              var r := Selected(c, s); r.rows == s.rows && r.lastRefresh == s.lastRefresh
    ensures var r := Recorded(s, addr, ok);
            && |r.rows| == |s.rows| && r.index == s.index && r.lastRefresh == s.lastRefresh
            && forall i :: 0 <= i < |s.rows| ==> Counted(s.rows[i], r.rows[i], addr, ok)
  {
  }

  /** New rows of which those of `addr` have counted one request. */
  ghost predicate CountedNew(rows: seq<Row>, list: seq<string>, addr: string, ok: bool) {
    && |rows| == |list|
    && forall i :: 0 <= i < |list| ==> Counted(Row(list[i], 0, 0), rows[i], addr, ok)
  }

  lemma CountNew(rows: seq<Row>, after: seq<Row>, list: seq<string>, addr: string, ok: bool)
    requires NewRows(rows, list) && |after| == |rows|
    requires forall i :: 0 <= i < |rows| ==> Counted(rows[i], after[i], addr, ok)
    ensures CountedNew(after, list, addr, ok)
  {
  }

  lemma RefreshedSelects(c: Config, s: State, now: nat, replies: seq<Exchange>)
    requires replies != [] && Stale(c, s, now) && Fallback(replies).0 == 0
    ensures var r := Refreshed(c, s, now, replies);
            r.rows != [] && Chosen(c, r) == 1 % |r.rows|
  {
    hide Fallback, Pick, Usable;
    FallbackIsFirstUsable(replies);
    var i :| FirstUsable(replies, i) && Fallback(replies).1 == List(replies[i]);
    FirstUsableUnique(replies, i, i);
    FirstPick(c, Refreshed(c, s, now, replies), Fallback(replies).1);
  }
}
