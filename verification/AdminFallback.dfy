/** Fetching the server list: `IsgwProxy::get_servers`, from the admin loop on.

    One network exchange is an arbitrary return code and reply line.  The admin addresses (from
    DNS, or the two built-in ones) are a nonempty list, so `replies` is what each of them, in
    order, would answer. */
module AdminFallback {
  import opened Text
  import opened Decimal
  import opened ProxyCodec

  const IPEC_NO_SERVER: int := -100

  datatype Exchange = Exchange(code: int, line: string)

  /** The outcome of asking one admin: its exchange code, else the `result` field, else -1. */
  function Code(x: Exchange): int {
    var data := ParseMap(x.line);
    if x.code != 0 then x.code
    else if "result" in data then Atoi(data["result"]) else -1
  }

  function List(x: Exchange): seq<string> {
    var data := ParseMap(x.line);
    Runs(if "info" in data then data["info"] else "", {' '})
  }

  /** An admin that settles the matter. */
  predicate Usable(x: Exchange) {
    Code(x) == 0 && List(x) != []
  }

  /** The last pair called `name` in the line has this value. */
  ghost predicate FieldIs(line: string, name: string, value: string) {
    exists i :: LastAt(ParsePairs(line), i, name) && ParsePairs(line)[i].value == value
  }

  lemma FieldIsBinding(line: string, name: string)
    ensures name in ParseMap(line) <==> exists v :: FieldIs(line, name, v)
    ensures forall v :: FieldIs(line, name, v) <==> name in ParseMap(line) && ParseMap(line)[name] == v
  {
    hide ParsePairs, LastWins;
    LastWinsMeaning(ParsePairs(line), name);
    if name in ParseMap(line) {
      var i :| LastAt(ParsePairs(line), i, name);
      assert FieldIs(line, name, ParseMap(line)[name]);
    }
  }

  /** An admin settles the matter exactly when it was reached, its last `result` reads as 0 and its
      last `info` has a character other than a blank. */
  lemma UsableMeans(x: Exchange)
    ensures Usable(x)
       <==> && x.code == 0
            && (exists v :: FieldIs(x.line, "result", v) && Atoi(v) == 0)
            && (exists v :: FieldIs(x.line, "info", v) && exists k :: 0 <= k < |v| && v[k] != ' ')
  {
    hide ParseMap, FieldIs, Atoi, Runs;
    FieldIsBinding(x.line, "result");
    FieldIsBinding(x.line, "info");
    var data := ParseMap(x.line);
    var info := if "info" in data then data["info"] else "";
    SomeRun(info, ' ');
  }

  /** What an admin that does not settle the matter leaves as the return code. */
  lemma CodeMeans(x: Exchange)
    ensures x.code != 0 ==> Code(x) == x.code
    ensures x.code == 0 && (forall v :: !FieldIs(x.line, "result", v)) ==> Code(x) == -1
    ensures forall v :: x.code == 0 && FieldIs(x.line, "result", v) ==> Code(x) == Atoi(v)
    ensures forall v :: FieldIs(x.line, "info", v) ==> List(x) == Runs(v, {' '})
  {
    hide ParseMap, FieldIs, Atoi, Runs;
    FieldIsBinding(x.line, "result");
    FieldIsBinding(x.line, "info");
  }

  /** Return value and list of the whole fallback, started with an empty output list. */
  function Fallback(replies: seq<Exchange>): (r: (int, seq<string>))
    requires replies != []
  {
    if Usable(replies[0]) then (0, List(replies[0]))
    else if |replies| == 1 then
      (if Code(replies[0]) != 0 then Code(replies[0]) else IPEC_NO_SERVER, [])
    else Fallback(replies[1..])
  }

  ghost predicate FirstUsable(replies: seq<Exchange>, i: int) {
    && 0 <= i < |replies| && Usable(replies[i])
    && forall j :: 0 <= j < i ==> !Usable(replies[j])
  }

  /** The first admin that settles the matter, spelled out. */
  ghost predicate FirstToSettle(replies: seq<Exchange>, i: int) {
    && 0 <= i < |replies|
    && forall j :: 0 <= j <= i ==>
         (j == i <==> && replies[j].code == 0
                      && (exists v :: FieldIs(replies[j].line, "result", v) && Atoi(v) == 0)
                      && (exists v :: FieldIs(replies[j].line, "info", v)
                                   && exists k :: 0 <= k < |v| && v[k] != ' '))
  }

  lemma FirstToSettleIsFirstUsable(replies: seq<Exchange>, i: int)
    ensures FirstUsable(replies, i) <==> FirstToSettle(replies, i)
  {
    hide FieldIs, Atoi, Usable;
    if 0 <= i < |replies| {
      forall j | 0 <= j <= i {
        UsableMeans(replies[j]);
      }
    }
  }

  lemma {:induction false} SomeFirstUsable(replies: seq<Exchange>, i: nat) returns (k: nat)
    requires i < |replies| && Usable(replies[i])
    ensures k <= i && FirstUsable(replies, k)
  {
    hide Usable;
    if j: nat :| j < i && Usable(replies[j]) {
      k := SomeFirstUsable(replies, j);
    } else {
      k := i;
    }
  }

  lemma SpelledOut(replies: seq<Exchange>)
    requires replies != []
    ensures forall i :: FirstUsable(replies, i) <==> FirstToSettle(replies, i)
    ensures (exists i :: 0 <= i < |replies| && Usable(replies[i]))
       <==> exists i :: FirstToSettle(replies, i)
    ensures forall i, j :: FirstUsable(replies, i) && FirstUsable(replies, j) ==> i == j
    ensures forall i, v :: 0 <= i < |replies| && FieldIs(replies[i].line, "info", v) ==>
              List(replies[i]) == Runs(v, {' '})
    ensures var x := replies[|replies| - 1];
            && (x.code != 0 ==> Code(x) == x.code)
            && (x.code == 0 && (forall v :: !FieldIs(x.line, "result", v)) ==> Code(x) == -1)
            && (forall v :: x.code == 0 && FieldIs(x.line, "result", v) ==> Code(x) == Atoi(v))
  {
    hide Code, List, Usable, FieldIs, Atoi, FirstToSettle, Runs;
    forall i
      ensures FirstUsable(replies, i) <==> FirstToSettle(replies, i)
    {
      FirstToSettleIsFirstUsable(replies, i);
    }
    if i: nat :| i < |replies| && Usable(replies[i]) {
      var k := SomeFirstUsable(replies, i);
    }
    forall i | 0 <= i < |replies|
      ensures forall v :: FieldIs(replies[i].line, "info", v) ==> List(replies[i]) == Runs(v, {' '})
    {
      CodeMeans(replies[i]);
    }
    CodeMeans(replies[|replies| - 1]);
  }

  lemma ReplyIs(x: Exchange)
    ensures var data := ParseMap(x.line);
            && Code(x) == (if x.code != 0 then x.code
                           else if "result" in data then Atoi(data["result"]) else -1)
            && List(x) == Runs(if "info" in data then data["info"] else "", {' '})
            && (Usable(x) <==> Code(x) == 0 && List(x) != [])
  {
  }

  /** The loop over the admins.  `initial` is what the caller's output vector holds before. */
  method GetServers(replies: seq<Exchange>, initial: seq<string>)
    returns (ret: int, servers: seq<string>)
    requires replies != []
    ensures ret == 0 <==> exists i :: 0 <= i < |replies| && Usable(replies[i])
    ensures ret == 0 ==> exists i :: FirstUsable(replies, i) && servers == List(replies[i])
    ensures ret != 0 ==>
              var last := Code(replies[|replies| - 1]);
              ret == if last != 0 then last else IPEC_NO_SERVER
    ensures ret != 0 && initial == [] ==> servers == []
    // the same, spelled out
    ensures ret == 0 <==> exists i :: FirstToSettle(replies, i)
    ensures forall i, v :: FirstToSettle(replies, i) && FieldIs(replies[i].line, "info", v) ==>
              servers == Runs(v, {' '})
    ensures ret != 0 ==>
              var x := replies[|replies| - 1];
              && (x.code != 0 ==> ret == x.code)
              && (x.code == 0 && (forall v :: !FieldIs(x.line, "result", v)) ==> ret == -1)
              && (forall v :: x.code == 0 && FieldIs(x.line, "result", v) ==>
                    ret == if Atoi(v) != 0 then Atoi(v) else -100)
  {
    hide Atoi, ParseMap, Runs, FieldIs, FirstToSettle, Code, List, Usable;
    SpelledOut(replies);
    ret := 0;
    servers := initial;
    var k := 0;
    while k < |replies|
      invariant 0 <= k <= |replies|
      invariant forall j :: 0 <= j < k ==> !Usable(replies[j])
      invariant k == 0 ==> ret == 0 && servers == initial
      invariant k > 0 ==> ret == Code(replies[k - 1])
      invariant k > 0 && ret == 0 ==> servers == []
      invariant servers == initial || servers == []
    {
      ret := replies[k].code;
      ReplyIs(replies[k]);
      if ret != 0 {
        k := k + 1;
        continue;
      }
      var data := Parse(replies[k].line);
      ret := if "result" in data then Atoi(data["result"]) else -1;
      if ret != 0 {
        k := k + 1;
        continue;
      }
      if "info" !in data {
        data := data["info" := ""];
      }
      servers := Split(data["info"], ' ');
      assert servers == List(replies[k]);
      if servers != [] {
        assert FirstUsable(replies, k);
        return;
      }
      k := k + 1;
    }
    if ret != 0 {
      return;
    }
    if servers == [] {
      return IPEC_NO_SERVER, servers;
    }
  }

  /** The value form used for the interleaved model establishes what the loop establishes. */
  lemma {:induction false} FallbackIsFirstUsable(replies: seq<Exchange>)
    requires replies != []
    ensures Fallback(replies).0 == 0 <==> exists i :: 0 <= i < |replies| && Usable(replies[i])
    ensures Fallback(replies).0 == 0 ==>
              exists i :: FirstUsable(replies, i) && Fallback(replies).1 == List(replies[i])
    ensures Fallback(replies).0 != 0 ==>
              var last := Code(replies[|replies| - 1]);
              Fallback(replies) == (if last != 0 then last else IPEC_NO_SERVER, [])
  {
    hide Code, List;
    if Usable(replies[0]) {
      assert FirstUsable(replies, 0);
    } else if |replies| > 1 {
      var rest := replies[1..];
      FallbackIsFirstUsable(rest);
      forall i | 0 <= i < |replies| && Usable(replies[i])
        ensures Usable(rest[i - 1])
      {
      }
      if Fallback(rest).0 == 0 {
        var i :| FirstUsable(rest, i) && Fallback(rest).1 == List(rest[i]);
        forall j | 0 <= j < i + 1
          ensures !Usable(replies[j])
        {
          if j > 0 { assert replies[j] == rest[j - 1]; }
        }
        assert FirstUsable(replies, i + 1);
      }
    }
  }

  lemma FirstUsableUnique(replies: seq<Exchange>, i: int, j: int)
    requires FirstUsable(replies, i) && FirstUsable(replies, j)
    ensures i == j && List(replies[i]) != []
  {
    assert !(i < j) && !(j < i);
  }

  // ---------------------------------------------------------------- the list reply

  /** The reply of an admin that knows the addresses `list`. */
  function ListReply(list: seq<string>): string {
    "result=0&info=" + Join(list, ' ')
  }

  ghost predicate Addresses(list: seq<string>) {
    list != [] && forall i :: 0 <= i < |list| ==> IsRun(list[i], {' ', '&'})
  }

  lemma ListReplyPairs(list: seq<string>)
    requires Addresses(list)
    ensures ParsePairs(ListReply(list)) == [Pair("result", "0"), Pair("info", Join(list, ' '))]
  {
    hide Span, ParsePairs;
    var info := Join(list, ' ');
    JoinFree(list, ' ', {'&'});
    var result := Pair("result", "0");
    ParseShown(Pair("info", info), None);
    assert Show(Pair("info", info)) + [] == "info=" + info;
    ParseShown(result, Some("info=" + info));
    assert ListReply(list) == Show(result) + (['&'] + ("info=" + info));
  }

  /** The reply decodes end to end: `parse`, `atoi` and `split` recover the list in order. */
  lemma ListReplyDecodes(list: seq<string>)
    requires Addresses(list)
    ensures var x := Exchange(0, ListReply(list));
            Code(x) == 0 && List(x) == list && Usable(x)
  {
    hide Span, ParsePairs, Runs, Join;
    var info := Pair("info", Join(list, ' '));
    ListReplyPairs(list);
    var m := LastWins([Pair("result", "0"), info]);
    LastWinsSnoc([Pair("result", "0")], info);
    assert [Pair("result", "0")] + [info] == [Pair("result", "0"), info];
    LastWinsSnoc([], Pair("result", "0"));
    assert [] + [Pair("result", "0")] == [Pair("result", "0")];
    assert m["result"] == "0" && m["info"] == Join(list, ' ');
    AtoiOfPrint(0, []);
    assert Print(0) + [] == "0";
    forall i | 0 <= i < |list|
      ensures IsRun(list[i], {' '})
    {
      assert IsRun(list[i], {' ', '&'});
    }
    RunsOfJoin(list, ' ', {' '});
  }
}
