/** Sharper bounds around a server that never fails.  A server below the threshold keeps pace with
    every other position, so others past the threshold are picked only once the one that never
    fails has been picked max_fail_times_ times. */
module SurvivorBounds {
  import opened Selection
  import opened ProxyState
  import opened Threads
  import opened FailureBounds

  /** Steps forward from `a` to `b` on a cycle of `n`. */
  function Forward(a: nat, b: nat, n: nat): nat
    requires a < n && b < n
  {
    if b >= a then b - a else b + n - a
  }

  /** The address has failed fewer than max_fail_times_ times since the installation. */
  ghost predicate Below(c: Config, h: History, a: string) {
    Count(h, Failure, {a}) < c.maxFail
  }

  lemma {:induction false} TrailingAtMostFailures(h: History, a: string)
    requires NoInstall(h)
    ensures Trailing(Outcomes(h, a)) <= Count(h, Failure, {a})
  {
    hide Trailing;
    if h == Empty {
      TrailingOfEmpty();
    } else {
      TrailingAtMostFailures(h.past, a);
      if h.event.Record? { TrailingSnoc(Outcomes(h.past, a), h.event.ok); }
    }
  }

  /** What a selection does near a healthy position `w`: it never jumps over it. */
  lemma NeverOver(c: Config, s: System, h: History, w: nat)
    requires h.Then? && h.event.Select?
    requires JustInstalled(s) && Legal(c, s, h) && NoInstall(h)
    requires w < |s.shared.rows| && Below(c, h, s.shared.rows[w].addr)
    ensures var n, from, to := |s.shared.rows|, After(c, s, h.past).shared.index, h.event.pos;
            && from < n && to < n && After(c, s, h).shared.index == to
            && (from != w ==> to != from && Forward(from, to, n) <= Forward(from, w, n))
  {
    hide Trailing, Outcomes, Pick;
    var before := After(c, s, h.past);
    CountNone(h.past, Failure);
    RowFacts(c, s, h.past, {}, w);
    TrailingAtMostFailures(h.past, s.shared.rows[w].addr);
    var healthy := Health(c, before.shared.rows);
    var from := before.shared.index;
    assert healthy[w];
    PickCorrect(healthy, from);
    if from != w {
      var k :| FirstAfter(healthy, from, k, h.event.pos);
      var d := StepsReachAll(from, w, |healthy|);
      assert healthy[Step(from, d, |healthy|)];
    }
  }

  lemma BelowBefore(c: Config, h: History, a: string)
    requires h.Then? && NoInstall(h) && Below(c, h, a)
    ensures NoInstall(h.past) && Below(c, h.past, a)
  {
  }

  lemma NeverFailBefore(h: History, up: set<string>)
    requires h.Then? && NoInstall(h) && NeverFail(h, up)
    ensures NoInstall(h.past) && NeverFail(h.past, up)
  {
  }

  lemma IndexKept(c: Config, s: System, h: History)
    requires h.Then? && !h.event.Select? && NoInstall(h)
    ensures After(c, s, h).shared.index == After(c, s, h.past).shared.index
  {
  }

  /** Between `p` and `w`, a step that does not jump over `w` stays there or reaches `w`. */
  lemma PaceStep(n: nat, p: nat, w: nat, from: nat, to: nat)
    requires p < n && w < n && p != w && from < n && to < n
    requires from != w ==> to != from && Forward(from, to, n) <= Forward(from, w, n)
    ensures Forward(p, p, n) < Forward(p, w, n)
    ensures Forward(p, from, n) < Forward(p, w, n) && to != w ==>
              to != p && Forward(p, to, n) < Forward(p, w, n)
  {
  }

  /** A server below the threshold keeps pace: any other position is selected at most once more
      often, and only while the current position lies between that one and this. */
  lemma {:induction false} KeepsPace(c: Config, s: System, h: History, w: nat, p: nat)
    requires JustInstalled(s) && Legal(c, s, h) && NoInstall(h)
    requires w < |s.shared.rows| && p < |s.shared.rows| && p != w
    requires Below(c, h, s.shared.rows[w].addr)
    ensures After(c, s, h).shared.index < |s.shared.rows|
    ensures SelectsAt(h, p) <= SelectsAt(h, w) + 1
    ensures var n := |s.shared.rows|;
            SelectsAt(h, p) == SelectsAt(h, w) + 1 ==>
              Forward(p, After(c, s, h).shared.index, n) < Forward(p, w, n)
  {
    hide Pick, NoInstall, Below, Forward;
    var n := |s.shared.rows|;
    if h == Empty {
      PaceStep(n, p, w, w, w);
    } else {
      BelowBefore(c, h, s.shared.rows[w].addr);
      KeepsPace(c, s, h.past, w, p);
      var from := After(c, s, h.past).shared.index;
      if h.event.Select? {
        NeverOver(c, s, h, w);
        PaceStep(n, p, w, from, h.event.pos);
      } else {
        IndexKept(c, s, h);
      }
    }
  }

  lemma {:induction false} OutcomesCount(h: History, a: string)
    requires NoInstall(h)
    ensures |Outcomes(h, a)| == Records(h, {a})
  {
    if h.Then? { OutcomesCount(h.past, a); }
  }

  ghost predicate ListedOnce(rows: seq<Row>, p: nat) {
    p < |rows| && forall i :: 0 <= i < |rows| && i != p ==> rows[i].addr != rows[p].addr
  }

  /** A degraded selection: the survivor is current, every other position is past the threshold. */
  lemma DegradedMeans(c: Config, s: System, h: History, w: nat, p: nat)
    requires h.Then? && h.event.Select? && h.event.degraded
    requires JustInstalled(s) && Legal(c, s, h) && NoInstall(h) && c.maxFail >= 1
    requires w < |s.shared.rows| && p < |s.shared.rows| && p != w
    requires NeverFail(h, {s.shared.rows[w].addr})
    ensures After(c, s, h.past).shared.index == w && h.event.pos != w
    ensures Trailing(Outcomes(h.past, s.shared.rows[p].addr)) >= c.maxFail
  {
    hide Trailing, Outcomes, Pick, NoInstall, Count;
    var before := After(c, s, h.past);
    NeverFailBefore(h, {s.shared.rows[w].addr});
    RowFacts(c, s, h.past, {s.shared.rows[w].addr}, w);
    RowFacts(c, s, h.past, {s.shared.rows[w].addr}, p);
    var healthy := Health(c, before.shared.rows);
    assert healthy[w];
    SkipsUnhealthyExactly(healthy, before.shared.index);
    PickCorrect(healthy, before.shared.index);
    assert healthy[p] <==> before.shared.rows[p].fail < c.maxFail;
  }

  /** Before the first degraded selection the survivor has been selected max_fail_times_ times, and
      once more before each further one. */
  lemma {:induction false} DegradedNeedsPace(c: Config, s: System, h: History, w: nat, p: nat,
                                             addrs: set<string>)
    requires JustInstalled(s) && Legal(c, s, h) && NoInstall(h) && c.maxFail >= 1
    requires w < |s.shared.rows| && p != w && ListedOnce(s.shared.rows, p)
    requires NeverFail(h, {s.shared.rows[w].addr})
    requires Flying(s.threads, {s.shared.rows[p].addr}) == 0
    ensures Count(h, DegradedPick, addrs) > 0 ==>
              Count(h, DegradedPick, addrs) + AtPosition(After(c, s, h), w) + c.maxFail
              <= SelectsAt(h, w) + 1
  {
    hide Trailing, Outcomes, Pick, Flying;
    if h.Then? {
      NeverFailBefore(h, {s.shared.rows[w].addr});
      DegradedNeedsPace(c, s, h.past, w, p, addrs);
      if h.event.Select? {
        NeverOver(c, s, h, w);
        if h.event.degraded {
          DegradedMeans(c, s, h, w, p);
          PaceAtThreshold(c, s, h.past, w, p);
        }
      }
    }
  }

  lemma PaceAtThreshold(c: Config, s: System, h: History, w: nat, p: nat)
    requires JustInstalled(s) && Legal(c, s, h) && NoInstall(h) && c.maxFail >= 1
    requires w < |s.shared.rows| && p != w && ListedOnce(s.shared.rows, p)
    requires NeverFail(h, {s.shared.rows[w].addr})
    requires Flying(s.threads, {s.shared.rows[p].addr}) == 0
    requires After(c, s, h).shared.index == w
    requires Trailing(Outcomes(h, s.shared.rows[p].addr)) >= c.maxFail
    ensures SelectsAt(h, w) >= c.maxFail
  {
    hide Pick, Legal, After, NoInstall, Count, Outcomes, Trailing, Flying;
    var a := s.shared.rows[p].addr;
    KeepsPace(c, s, h, w, p);
    OutcomesCount(h, a);
    TrailingBound(Outcomes(h, a));
    Conservation(c, s, h, {a});
    SelectsAtSole(c, s, h, p);
  }

  lemma TrailingBound(outcomes: seq<bool>)
    ensures Trailing(outcomes) <= |outcomes|
  {
  }

  function Excess(picks: nat, threshold: nat): nat {
    if picks + 1 > threshold then picks + 1 - threshold else 0
  }

  /** The sharper single-survivor bound for T threads: some other position is the only one of its
      address, and no request to it was in flight at the installation. */
  lemma SharpSurvivorBound(c: Config, s: System, h: History, w: nat, p: nat, dead: set<string>)
    requires JustInstalled(s) && Legal(c, s, h) && NoInstall(h) && c.maxFail >= 1
    requires w < |s.shared.rows| && p != w && ListedOnce(s.shared.rows, p)
    requires Flying(s.threads, {s.shared.rows[p].addr}) == 0
    requires NeverFail(h, {s.shared.rows[w].addr}) && Count(h, Success, dead) == 0
    ensures Selects(h, dead) <= Allowance(c, s) * |dead| + Excess(SelectsAt(h, w), c.maxFail)
  {
    hide Count, Legal, After, NoInstall, Flying;
    DegradedNeedsPace(c, s, h, w, p, dead);
    HealthyPicksOfAllDead(c, s, h, dead);
  }

  /** The sequential reading: one thread, completed calls (the first may be the one that installed),
      some server other than the survivor listed once, F failures of D dead addresses and S
      successes of the survivor satisfy F <= max_fail_times_ * D + max(0, S + 1 - max_fail_times_). */
  lemma SharpSequentialBound(c: Config, s: System, h: History, w: nat, p: nat, dead: set<string>)
    requires JustInstalled(s) && Legal(c, s, h) && NoInstall(h) && c.maxFail >= 1
    requires |s.threads| == 1 && !s.threads[0].InFlight? && After(c, s, h).threads == [Idle]
    requires w < |s.shared.rows| && p != w && ListedOnce(s.shared.rows, p)
    requires NeverFail(h, {s.shared.rows[w].addr}) && Count(h, Success, dead) == 0
    ensures Count(h, Failure, dead)
         <= c.maxFail * |dead| + Excess(Count(h, Success, {s.shared.rows[w].addr}), c.maxFail)
  {
    hide Count, Legal, After, NoInstall, Flying;
    NoFlights(s.threads, {s.shared.rows[p].addr});
    SharpSurvivorBound(c, s, h, w, p, dead);
    SelectsAtMost(c, s, h, w);
    CompletedCalls(c, s, h, {s.shared.rows[w].addr});
    CompletedCalls(c, s, h, dead);
    assert Allowance(c, s) == c.maxFail;
  }

  /** The same read off a run of one thread from start-up, counted from the last installation. */
  lemma SharpAfterInstall(c: Config, past: History, e: Event, g: History, w: nat, p: nat,
                          dead: set<string>)
    requires Legal(c, Initial(1), Append(Then(past, e), g)) && e.Install? && NoInstall(g)
    requires After(c, Initial(1), Append(Then(past, e), g)).threads == [Idle]
    requires c.maxFail >= 1 && w < |e.list| && p < |e.list| && p != w
    requires forall i :: 0 <= i < |e.list| && i != p ==> e.list[i] != e.list[p]
    requires NeverFail(g, {e.list[w]}) && Count(g, Success, dead) == 0
    ensures Count(g, Failure, dead)
         <= c.maxFail * |dead| + Excess(Count(g, Success, {e.list[w]}), c.maxFail)
  {
    hide Count, NoInstall, JustInstalled, Legal, After, Append;
    var s := InstalledByRun(c, 1, past, e, g);
    SharpSequentialBound(c, s, g, w, p, dead);
  }
}
