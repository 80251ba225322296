/** What a receiver learns of the pairs that a sender joined into one body. */
module SentPairs {
  import opened Text
  import opened Decimal
  import opened ProxyCodec
  import opened MessageCodec
  import opened FieldPlaces
  import opened QModeMsgClass
  import opened Agreement

  /** Pairs whose joined text fits the buffer and that both parsers read alike. */
  ghost predicate Sendable(maxLen: nat, ps: seq<Pair>) {
    WellFormed(ps) && Common(ps) && Free(JoinPairs(ps), {NUL}) && |JoinPairs(ps)| < maxLen
  }

  /** End to end through set_body: a joined list of common, well-formed pairs that fits the buffer
      gives the same map as `parse`, apart from the three default keys. */
  lemma SetBodyAgrees(maxLen: nat, ps: seq<Pair>)
    requires Sendable(maxLen, ps)
    ensures var s := JoinPairs(ps);
            && ParseMap(s) == LastWins(ps)
            && Loaded(maxLen, s).fields == WithDefaults(ParseMap(s))
  {
    hide Span, Runs, Fields, ParsePairs, LastWins, Loaded, WithDefaults, JoinPairs;
    ParseOfRender(ps, None);
    TextPairsOfRender(ps, None);
    SpreadOfCommon(ps);
    LoadedDependsOnKept(maxLen, JoinPairs(ps));
  }

  /** When set_body leaves the map that `parse` makes of the kept text, apart from the default keys,
      for every body: exactly when that text consists of harmless pairs and an unread tail. */
  lemma SetBodyAgreesExactly(maxLen: nat, body: CString)
    requires maxLen >= 1
    ensures var s := Kept(maxLen, body);
            Loaded(maxLen, body).fields == WithDefaults(ParseMap(s))
            <==> exists ps, tail ::
                   && WellFormed(ps) && Unread(tail) && s == Render(ps, tail)
                   && Harmless(ps, WithDefaults(LastWins(ps)))
  {
    hide Loaded, WithDefaults, TextMap, ParseMap, Harmless, Render;
    LoadedDependsOnKept(maxLen, body);
    DefaultedAgreeExactly(Kept(maxLen, body));
  }

  /** The pairs of "x=1\ncmd=&x=2". */
  const COVERED: seq<Pair> := [Pair("x", "1\ncmd="), Pair("x", "2")]

  lemma CoveredText()
    ensures JoinPairs(COVERED) == "x=1\ncmd=&x=2" && WellFormed(COVERED)
  {
    assert Shown(COVERED) == [Show(COVERED[0]), Show(COVERED[1])];
  }

  lemma CoveredSpreads()
    ensures CMD !in LastWins(COVERED) && Harmless(COVERED, WithDefaults(LastWins(COVERED)))
    ensures Named(Spread(COVERED), CMD)
  {
    hide Span, Runs, Fields, Field, LastWins, Spread, WithDefaults;
    var p, q := COVERED[0], COVERED[1];
    assert p.value[..1] == "1" && p.value[2..] == "cmd=" && p.value[1] in SEP;
    SpanIs(p.value, SEP, 1);
    var next := FieldFirst("cmd=", CMD);
    assert Hidden(p) == [Pair(CMD, "")] by {
      assert "cmd="[4..] == "" && "cmd="[next..] == "";
      RunsOfEmpty(SEP);
      FieldsCons([], []);
    }
    WritesOfFree(q);
    LastWinsMeaning(COVERED, CMD);
    DefaultsFill(LastWins(COVERED));
    assert LastAt(COVERED, 1, "x") && !LastAt(COVERED, 0, "x") by { assert COVERED[1].name == "x"; }
    CoveredNamed();
  }

  lemma CoveredNamed()
    requires Hidden(COVERED[0]) == [Pair(CMD, "")]
    ensures Named(Spread(COVERED), CMD)
  {
    hide Hidden, Span;
    assert (Writes(COVERED[0]) + Spread(COVERED[1..]))[1].name == CMD;
  }

  lemma DefaultsFill(m: map<string, string>)
    ensures CMD in WithDefaults(m) && (CMD !in m ==> WithDefaults(m)[CMD] == "")
  {
  }

  /** A default key can cover a hidden field: the maps differ, and not after set_body. */
  lemma DefaultsCanCover(maxLen: nat)
    requires maxLen >= 13
    ensures exists s: CString :: TextMap(s) != ParseMap(s)
                              && Loaded(maxLen, s).fields == WithDefaults(ParseMap(s))
  {
    hide Span, Runs, Fields, LastWins, ParsePairs, Spread, Loaded, WithDefaults, Render, Harmless;
    CoveredText();
    CoveredSpreads();
    RenderIsJoin(COVERED);
    var s := JoinPairs(COVERED);
    ParseOfRender(COVERED, None);
    HarmlessFits(COVERED, WithDefaults(LastWins(COVERED)));
    TextPairsOfRender(COVERED, None);
    NamedIsBound(Spread(COVERED), CMD);
    SetBodyAgreesExactly(maxLen, s);
  }

  /** Numbers survive the trip: a request that carries the command and the user as printed numbers
      leaves them in cmd_ and uin_. */
  lemma NumbersSurvive(maxLen: nat, ps: seq<Pair>, cmd: nat, uin: nat)
    requires Sendable(maxLen, ps)
    requires cmd < UINT_MODULUS && uin < UINT_MODULUS
    requires var m := LastWins(ps);
             CMD in m && m[CMD] == Print(cmd) && UIN in m && m[UIN] == Print(uin)
    ensures var r := Loaded(maxLen, JoinPairs(ps)); r.cmd == cmd && r.uin == uin
  {
    hide Span, Runs, Fields, ParsePairs, LastWins, Loaded, JoinPairs, Atoi, StrtoulUnsigned, Print;
    SetBodyAgrees(maxLen, ps);
    LoadedDependsOnKept(maxLen, JoinPairs(ps));
    AtoiOfPrint(cmd, []);
    assert Print(cmd) + [] == Print(cmd);
    StrtoulOfPrint(uin);
  }

  // ---------------------------------------------------------- substring search for a name

  /** Some name or value of the pairs contains `name`. */
  ghost predicate Mentions(ps: seq<Pair>, name: string) {
    exists i :: 0 <= i < |ps| && (Occurs(ps[i].name, name) || Occurs(ps[i].value, name))
  }

  lemma {:induction false} OccursInJoin(ps: seq<Pair>, name: string)
    requires Free(name, {'='}) && Free(name, {'&'}) && (name != [] || ps != [])
    ensures Occurs(JoinPairs(ps), name) <==> Mentions(ps, name)
    decreases |ps|
  {
    hide Occurs, JoinPairs, Render;
    if ps == [] {
      EmptyJoin();
      assert !Occurs([], name) by { OccursIff([], name); }
    } else {
      var p, rest := ps[0], ps[1..];
      assert ps == [p] + rest;
      RenderIsJoin(ps);
      RenderIsJoin(rest);
      RenderCons(p, rest, None);
      OccursSplit(p.name, '=', p.value, name);
      if rest == [] {
        assert Show(p) + [] == Show(p);
      } else {
        OccursInJoin(rest, name);
        OccursSplit(Show(p), '&', JoinPairs(rest), name);
        assert Show(p) + (['&'] + JoinPairs(rest)) == Show(p) + ['&'] + JoinPairs(rest);
        if i :| 0 <= i < |rest| && (Occurs(rest[i].name, name) || Occurs(rest[i].value, name)) {
          assert ps[i + 1] == rest[i];
        }
      }
    }
  }

  lemma RenderIsJoin(ps: seq<Pair>)
    ensures Render(ps, None) == JoinPairs(ps)
  {
  }

  /** A joined list of common pairs is stored as it is. */
  lemma LoadedText(maxLen: nat, ps: seq<Pair>)
    requires Sendable(maxLen, ps)
    ensures Loaded(maxLen, JoinPairs(ps)).text == JoinPairs(ps)
  {
    hide Runs, Fields, LastWins;
    forall i | 0 <= i < |ps|
      ensures Free(Shown(ps)[i], {'\r'})
    {
      assert forall k :: 0 <= k < |ps[i].name| ==> ps[i].name[k] !in SEP;
      assert forall k :: 0 <= k < |ps[i].value| ==> ps[i].value[k] !in SEP;
    }
    JoinFree(Shown(ps), '&', {'\r'});
  }

  /** When is_have tells whether a field was sent, on what the sender wrote: for names that can be
      fields at all, exactly when a name or value that contains the name implies a pair called
      that. */
  lemma SearchDecidesExactly(maxLen: nat, ps: seq<Pair>, name: string)
    requires Sendable(maxLen, ps)
    requires CleanName(name) && (name != [] || ps != [])
    ensures var text := Loaded(maxLen, JoinPairs(ps)).text;
            && (Occurs(text, name) <==> Mentions(ps, name))
            && (name in TextMap(text) <==> Named(ps, name))
            && ((Occurs(text, name) <==> name in TextMap(text))
                <==> (Mentions(ps, name) ==> Named(ps, name)))
  {
    hide Span, Runs, Fields, LastWins, Loaded, JoinPairs, Occurs;
    LoadedText(maxLen, ps);
    assert Free(name, {'&'}) by {
      assert forall i :: 0 <= i < |name| ==> name[i] !in SEP;
    }
    OccursInJoin(ps, name);
    RenderIsJoin(ps);
    TextPairsOfRender(ps, None);
    SpreadOfCommon(ps);
    LastWinsMeaning(ps, name);
    NoFalseNegativesIn(ps, name, JoinPairs(ps));
  }

  lemma NoFalseNegativesIn(ps: seq<Pair>, name: string, text: string)
    requires TextPairs(text) == ps
    ensures name in TextMap(text) <==> Named(ps, name)
    ensures name in TextMap(text) ==> Occurs(text, name)
  {
    hide Runs, Fields, LastWins, Occurs;
    NamedIsBound(ps, name);
    if name in TextMap(text) {
      NoFalseNegatives(text, name);
    }
  }

  /** The same for any stored text, on its tokens. */
  lemma SearchDecidesByTokens(text: string, name: string)
    requires CleanName(name) && name != [] && |name| < NAME_MAX
    ensures (Occurs(text, name) <==> name in TextMap(text))
       <==> ((exists t :: t in Runs(text, SEP) && Occurs(t, name)) ==>
              exists t :: t in Runs(text, SEP) && name + ['='] <= t)
  {
    hide Span, Runs, Fields, LastWins, Occurs;
    OccursInTokens(text, name);
    if name in TextMap(text) {
      NoFalseNegatives(text, name);
      LastWinsMeaning(TextPairs(text), name);
      var i :| LastAt(TextPairs(text), i, name);
      var t := FieldsCome(Runs(text, SEP), name);
      SpanStops(t, {'='});
      assert name + ['='] <= t;
    }
    if t :| t in Runs(text, SEP) && name + ['='] <= t {
      var p := RunIsWritten(text, t);
      assert text[p..p + |name| + 1] == t[..|name| + 1];
      assert FieldAt(text, name, p) && CutName(name) == name;
      StoredIffWritten(text, name);
    }
  }

  /** When get_result tells whether a result was sent, on what the sender wrote: its error means
      that no pair is called result, exactly when a name or value that contains the word implies
      such a pair and the number of the last such pair is not the error code. */
  lemma ResultDecidesExactly(maxLen: nat, ps: seq<Pair>)
    requires Sendable(maxLen, ps)
    ensures var m := Loaded(maxLen, JoinPairs(ps));
            (ResultOf(m.text, m.fields) == ERROR_NO_FIELD <==> !Named(ps, RESULT))
            <==> && (Mentions(ps, RESULT) ==> Named(ps, RESULT))
                 && forall i :: LastAt(ps, i, RESULT) ==> Atoi(ps[i].value) != ERROR_NO_FIELD
  {
    hide Span, Runs, Fields, LastWins, Loaded, JoinPairs, Occurs, Atoi, ParsePairs, Mentions;
    var text := JoinPairs(ps);
    SearchDecidesExactly(maxLen, ps, RESULT);
    LoadedText(maxLen, ps);
    OccursIff(text, RESULT);
    ResultAfterLoad(maxLen, text);
    SetBodyAgrees(maxLen, ps);
    LastWinsMeaning(ps, RESULT);
    DefaultsExtend(LastWins(ps));
    NamedIsBound(ps, RESULT);
  }
}
