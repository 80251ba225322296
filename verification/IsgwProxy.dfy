/** The proxy object with the loops of the source.  Each critical section is one method, proved
    to have the effect of the matching function of ProxyState; a whole call of `get` chains them
    when no other thread interferes. */
module IsgwProxyClass {
  import opened Text
  import opened AdminFallback
  import opened Selection
  import opened ProxyState

  class IsgwProxy {
    const config: Config
    var servers: seq<Row>
    var serverIndex: nat
    var lastRefreshTime: nat

    ghost function View(): State
      reads this
    {
      State(servers, serverIndex, lastRefreshTime)
    }

    ghost predicate Valid()
      reads this
    {
      InRange(View())
    }

    constructor (config: Config)
      ensures Valid() && View() == INITIAL && this.config == config
      ensures servers == [] && serverIndex == 0 && lastRefreshTime == 0
    {
      this.config := config;
      servers := [];
      serverIndex := 0;
      lastRefreshTime := 0;
    }

    /** Critical section 1 of get_server. */
    method Install(list: seq<string>, now: nat)
      requires list != []
      modifies this
      ensures Valid() && View() == Installed(list, now)
      ensures NewRows(servers, list) && serverIndex == 0 && lastRefreshTime == now
    {
      servers := [];
      for k := 0 to |list|
        invariant servers == FreshRows(list[..k])
      {
        servers := servers + [Row(list[k], 0, 0)];
      }
      assert list[..|list|] == list;
      lastRefreshTime := now;
      serverIndex := 0;
    }

    /** Critical section 2 of get_server.  The scan ends because the cyclic distance back to the
        current index shrinks, which needs that index to be in range. */
    method SelectServer() returns (ret: int, server: string)
      requires Valid()
      modifies this
      ensures Valid()
      ensures servers == old(servers) && lastRefreshTime == old(lastRefreshTime)
      ensures old(servers) == [] ==> ret == -100 && View() == old(View())
      ensures old(servers) != [] ==>
                && ret == 0 && View() == Selected(config, old(View()))
                && server == servers[serverIndex].addr
    {
      server := "";
      var size := |servers|;
      if size == 0 {
        return IPEC_NO_SERVER, server;
      }
      ghost var healthy := Health(config, servers);
      StepByRemainder(serverIndex, size);
      var index := (serverIndex + 1) % size;
      ghost var k := 1;
      while index != serverIndex
        invariant unchanged(this)
        invariant 1 <= k <= size && index == Step(serverIndex, k, size)
        invariant Pick(healthy, serverIndex) == Scan(healthy, serverIndex, k)
        decreases size - k
      {
        if servers[index].fail < config.maxFail {
          break;
        }
        StepByRemainder(index, size);
        index := (index + 1) % size;
        k := k + 1;
      }
      if index == serverIndex {
        index := (serverIndex + 1) % size;
      }
      server := servers[index].addr;
      serverIndex := index;
      ret := 0;
    }

    /** Critical section 3, in get: the statistics loop. */
    method Record(server: string, ret: int)
      requires Valid()
      modifies this`servers
      ensures Valid() && View() == Recorded(old(View()), server, ret == 0)
      ensures |servers| == |old(servers)|
      ensures forall i :: 0 <= i < |servers| ==>
                Counted(old(servers)[i], servers[i], server, ret == 0)
    {
      ghost var before := servers;
      var k := 0;
      while k < |servers|
        invariant 0 <= k <= |servers| == |before|
        invariant forall i :: 0 <= i < k ==> servers[i] == Bumped(before[i], server, ret == 0)
        invariant forall i :: k <= i < |servers| ==> servers[i] == before[i]
      {
        var row := servers[k];
        if server != row.addr {
          k := k + 1;
          continue;
        }
        row := row.(total := row.total + 1);
        if ret != 0 {
          row := row.(fail := row.fail + 1);
        } else {
          row := row.(fail := 0);
        }
        servers := servers[k := row];
        k := k + 1;
      }
      assert servers == Recorded(old(View()), server, ret == 0).rows;
    }

    /** get_server, alone: `replies` is what the admins would answer at this moment. */
    method GetServer(now: nat, replies: seq<Exchange>) returns (ret: int, server: string)
      requires Valid() && replies != []
      modifies this
      ensures Valid()
      ensures var current := Refreshed(config, old(View()), now, replies);
              && (current.rows == [] ==> ret == IPEC_NO_SERVER && View() == current)
              && (current.rows != [] ==>
                    && InRange(current) && ret == 0 && View() == Selected(config, current)
                    && server == servers[serverIndex].addr)
      // the refresh, spelled out
      ensures if now > old(lastRefreshTime) + config.interval
                 && exists i :: FirstToSettle(replies, i)
              then
                && lastRefreshTime == now && servers != [] && serverIndex == 1 % |servers|
                && forall i, v :: FirstToSettle(replies, i) && FieldIs(replies[i].line, "info", v) ==>
                     NewRows(servers, Runs(v, {' '}))
              else
                && lastRefreshTime == old(lastRefreshTime) && servers == old(servers)
                && serverIndex == if servers == [] then 0
                                  else Pick(Health(config, old(servers)), old(serverIndex))
    {
      hide Fallback, Code, List, FirstToSettle, FieldIs, Runs;
      RefreshDecides(config, View(), now, replies);
      FallbackIsFirstUsable(replies);
      if Stale(config, View(), now) && Fallback(replies).0 == 0 {
        RefreshedSelects(config, View(), now, replies);
      }
      if now > lastRefreshTime + config.interval {
        var got, list := GetServers(replies, []);
        FallbackIsFirstUsable(replies);
        if got == 0 && now > lastRefreshTime + config.interval {
          ghost var i :| FirstUsable(replies, i) && list == List(replies[i]);
          ghost var j :| FirstUsable(replies, j) && Fallback(replies).1 == List(replies[j]);
          FirstUsableUnique(replies, i, j);
          Install(list, now);
        }
      }
      ret, server := SelectServer();
    }

    /** get, alone. */
    method Get(now: nat, replies: seq<Exchange>, answer: string -> Exchange)
      returns (ret: int, rsp: string)
      requires Valid() && replies != []
      modifies this
      ensures Valid() && View() == AfterCall(config, old(View()), now, replies, answer)
      ensures ret == CallResult(config, old(View()), now, replies, answer)
      ensures var current := Refreshed(config, old(View()), now, replies);
              ret == 0 && current.rows != [] ==>
                InRange(current) && rsp == answer(NextAddr(config, current)).line
      // the whole call, spelled out
      ensures servers == [] ==> ret == -100
      ensures servers != [] ==>
                && ret == answer(servers[serverIndex].addr).code
                && (ret == 0 ==> rsp == answer(servers[serverIndex].addr).line)
      ensures if now > old(lastRefreshTime) + config.interval
                 && exists i :: FirstToSettle(replies, i)
              then
                && lastRefreshTime == now && servers != [] && serverIndex == 1 % |servers|
                && forall i, v :: FirstToSettle(replies, i) && FieldIs(replies[i].line, "info", v) ==>
                     CountedNew(servers, Runs(v, {' '}), servers[serverIndex].addr, ret == 0)
              else
                && lastRefreshTime == old(lastRefreshTime) && |servers| == |old(servers)|
                && serverIndex == (if servers == [] then 0
                                   else Pick(Health(config, old(servers)), old(serverIndex)))
                && forall i :: 0 <= i < |servers| ==>
                     Counted(old(servers)[i], servers[i], servers[serverIndex].addr, ret == 0)
    {
      hide FirstToSettle, FieldIs, Runs, Refreshed, Fallback, NewRows;
      rsp := "";
      var server;
      ret, server := GetServer(now, replies);
      if ret != 0 {
        return;
      }
      var exchange := answer(server);
      ret, rsp := exchange.code, exchange.line;
      ghost var selected := servers;
      Record(server, ret);
      forall list | NewRows(selected, list)
        ensures CountedNew(servers, list, server, ret == 0)
      {
        CountNew(selected, servers, list, server, ret == 0);
      }
    }
  }
}
