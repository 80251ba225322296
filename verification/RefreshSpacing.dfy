/** How often the list is installed.  Both staleness checks happen before the lock is taken, so
    "at most one installation per interval" depends on the number of threads. */
module RefreshSpacing {
  import opened AdminFallback
  import opened Selection
  import opened ProxyState
  import opened Threads
  import opened RunSteps

  /** Every installation came more than an interval after the one before it; the first one is
      measured from 0. */
  ghost predicate Spaced(c: Config, h: History) {
    h.Then? ==>
      && Spaced(c, h.past)
      && (h.event.Install? ==> h.event.now > LastInstall(h.past) + c.interval)
  }

  /** Whoever is about to install still has a stale list before it. */
  ghost predicate StillStale(c: Config, s: System) {
    forall t :: 0 <= t < |s.threads| && s.threads[t].Installing? ==>
      Stale(c, s.shared, s.threads[t].now)
  }

  lemma StepKeepsStillStale(c: Config, s: System, e: Event)
    requires |s.threads| <= 1 && StillStale(c, s) && Enabled(c, s, e)
    ensures StillStale(c, Next(c, s, e))
  {
    hide Fallback;
  }

  lemma {:induction false} OneThreadSpaced(c: Config, count: nat, h: History)
    requires count <= 1 && Legal(c, Initial(count), h)
    ensures Spaced(c, h) && StillStale(c, After(c, Initial(count), h))
  {
    hide Enabled, Next;
    if h.Then? {
      ThreadsStay(c, Initial(count), h.past);
      OneThreadSpaced(c, count, h.past);
      StepKeepsStillStale(c, After(c, Initial(count), h.past), h.event);
      RefreshTimes(c, count, h.past);
      InstallerWaits(c, After(c, Initial(count), h.past), h.event);
    }
  }

  lemma InstallerWaits(c: Config, s: System, e: Event)
    requires Enabled(c, s, e) && StillStale(c, s)
    ensures e.Install? ==> e.now > s.shared.lastRefresh + c.interval
  {
    hide Pick;
  }

  /** Two threads pass the unlocked recheck together and install twice at the same moment. */
  lemma TwoThreadsInstallTwice(c: Config, count: nat) returns (h: History)
    requires 2 <= count
    ensures Legal(c, Initial(count), h) && !Spaced(c, h)
  {
    hide Fallback, Legal, After;
    var s := Initial(count);
    var replies := [Exchange(0, ListReply(["a"]))];
    ReplyIsUsed(["a"]);
    var list, now := Fallback(replies).1, c.interval + 1;
    StartOfRun(c, s);
    h := ReachLock(c, s, Empty, 0, now, replies);
    h := ReachLock(c, s, h, 1, now, replies);
    var first := RunStep(c, s, h, Install(1, now, list));
    h := RunStep(c, s, first, Install(0, now, list));
    assert h.past == first && LastInstall(first) == now;
  }

  /** Exactly when installations are always more than an interval apart: with at most one thread.
      No assumption on the clock is needed. */
  lemma SpacedExactly(c: Config, count: nat)
    ensures (forall h :: Legal(c, Initial(count), h) ==> Spaced(c, h))
       <==> count <= 1
  {
    if count <= 1 {
      forall h | Legal(c, Initial(count), h)
        ensures Spaced(c, h)
      {
        OneThreadSpaced(c, count, h);
      }
    } else {
      var h := TwoThreadsInstallTwice(c, count);
    }
  }

  /** A list that is in use is replaced: from start-up one thread installs "a", makes its call, and
      the next call, just more than an interval later, installs "b". */
  lemma ListIsReplaced(c: Config) returns (h: History)
    ensures Legal(c, Initial(1), h) && Spaced(c, h) && h.Then? && h.past.Then?
    ensures Addrs(After(c, Initial(1), h.past).shared.rows) == ["a"]
    ensures Addrs(After(c, Initial(1), h).shared.rows) == ["b"]
    ensures LastInstall(h.past) == c.interval + 1 && LastInstall(h) == 2 * c.interval + 2
  {
    hide Fallback, Legal, After, Pick;
    var s := Initial(1);
    var past, e := StartUp(c, 1, ["a"]);
    h := Take(c, s, Then(past, e), 0);
    h := Answer(c, s, h, 0, true);
    ReplyIsUsed(["b"]);
    var later := 2 * c.interval + 2;
    h := ReachLock(c, s, h, 0, later, [Exchange(0, ListReply(["b"]))]);
    var before := h;
    h := RunStep(c, s, h, Install(0, later, ["b"]));
    OneThreadSpaced(c, 1, h);
    RefreshTimes(c, 1, before);
  }
}
