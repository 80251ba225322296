/** The two text parsers compared: `IsgwProxy::parse` and the parser behind `QModeMsg::set_body`. */
module Agreement {
  import opened Text
  import opened Decimal
  import opened ProxyCodec
  import opened MessageCodec
  import opened FieldPlaces

  /** Pairs that both parsers read alike: names and values without separators, and names that fit
      the fixed buffer. */
  predicate Common(ps: seq<Pair>) {
    forall i :: 0 <= i < |ps| ==>
      Free(ps[i].name, SEP) && |ps[i].name| <= NAME_MAX && Free(ps[i].value, SEP)
  }

  lemma {:induction false} FieldsAreCommon(tokens: seq<string>)
    requires forall t :: t in tokens ==> IsRun(t, SEP)
    ensures Common(Fields(tokens))
  {
    hide Span;
    if tokens != [] {
      var t := tokens[0];
      assert t in tokens;
      FieldsAreCommon(tokens[1..]);
      assert forall j :: 0 <= j < |t| ==> t[j] !in SEP;
      assert Common(Field(t));
    }
  }

  lemma {:induction false} NoFields(tokens: seq<string>)
    requires forall t :: t in tokens ==> Free(t, {'='})
    ensures Fields(tokens) == []
  {
    if tokens != [] {
      var t := tokens[0];
      assert t in tokens && t[..|t|] == t;
      SpanIs(t, {'='}, |t|);
      NoFields(tokens[1..]);
    }
  }

  lemma {:induction false} RunsStayFree(s: string, d: set<char>, c: set<char>)
    requires Free(s, c)
    ensures forall t :: t in Runs(s, d) ==> Free(t, c)
    decreases |s|
  {
    if s == [] {
    } else if s[0] in d {
      RunsStayFree(s[1..], d, c);
    } else {
      RunsStayFree(s[Span(s, d)..], d, c);
    }
  }

  /** A text without '=' has no fields. */
  lemma UnreadHasNoFields(s: string)
    requires Free(s, {'='})
    ensures TextPairs(s) == []
  {
    RunsStayFree(s, SEP, {'='});
    NoFields(Runs(s, SEP));
  }

  // ----------------------------------------- what each parser makes of the same pairs

  /** What the message parser reads of a pair: its value ends at the first separator. */
  function FirstLine(p: Pair): Pair {
    Pair(p.name, p.value[..Span(p.value, SEP)])
  }

  /** The fields the message parser finds behind that separator, inside the value. */
  function Hidden(p: Pair): seq<Pair> {
    var k := Span(p.value, SEP);
    if k == |p.value| then [] else TextPairs(p.value[k + 1..])
  }

  function Writes(p: Pair): seq<Pair> {
    [FirstLine(p)] + Hidden(p)
  }

  function Spread(ps: seq<Pair>): seq<Pair> {
    if ps == [] then [] else Writes(ps[0]) + Spread(ps[1..])
  }

  /** Names that the message parser keeps as they are. */
  predicate NamesFit(ps: seq<Pair>) {
    forall i :: 0 <= i < |ps| ==> Free(ps[i].name, SEP) && |ps[i].name| <= NAME_MAX
  }

  lemma TextPairsAppend(a: string, x: char, b: string)
    requires x in SEP
    ensures TextPairs(a + [x] + b) == TextPairs(a) + TextPairs(b)
  {
    hide Span, Runs, Fields;
    RunsAppend(a, x, b, SEP);
    FieldsAppend(Runs(a, SEP), Runs(b, SEP));
  }

  lemma TextPairsOfShow(p: Pair)
    requires CleanName(p.name) && |p.name| <= NAME_MAX
    ensures TextPairs(Show(p)) == Writes(p)
  {
    hide Span, Runs, Fields;
    var s := Show(p);
    assert s[..|p.name| + 1] == p.name + ['='];
    var next := FieldFirst(s, p.name);
    assert s[|p.name| + 1..] == p.value;
    var k := Span(p.value, SEP);
    if k == |p.value| {
      assert s[next..] == [];
      RunsOfEmpty(SEP);
      FieldsCons([], []);
    } else {
      assert s[next..] == p.value[k + 1..];
    }
  }

  /** The message parser on a text of the proxy parser's grammar. */
  lemma {:induction false} TextPairsOfRender(ps: seq<Pair>, tail: Option<string>)
    requires WellFormed(ps) && NamesFit(ps) && Unread(tail)
    ensures TextPairs(Render(ps, tail)) == Spread(ps)
    decreases |ps|
  {
    hide Span, Runs, Fields, JoinPairs, Writes;
    if ps == [] {
      EmptyJoin();
      UnreadHasNoFields(Render(ps, tail));
    } else {
      var p, rest := ps[0], ps[1..];
      TextPairsOfRender(rest, tail);
      assert ps == [p] + rest;
      RenderCons(p, rest, tail);
      TextPairsOfShow(p);
      if rest == [] && tail.None? {
        assert Show(p) + [] == Show(p);
        assert Writes(p) + [] == Writes(p);
      } else {
        TextPairsAppend(Show(p), '&', Render(rest, tail));
        assert Show(p) + (['&'] + Render(rest, tail)) == Show(p) + ['&'] + Render(rest, tail);
      }
    }
  }

  lemma EmptyJoin()
    ensures JoinPairs([]) == []
  {
  }

  lemma {:induction false} SpreadOfCommon(ps: seq<Pair>)
    requires forall i :: 0 <= i < |ps| ==> Free(ps[i].value, SEP)
    ensures Spread(ps) == ps
  {
    hide Span;
    if ps != [] {
      WritesOfFree(ps[0]);
      SpreadOfCommon(ps[1..]);
    }
  }

  lemma WritesOfFree(p: Pair)
    requires Free(p.value, SEP)
    ensures FirstLine(p) == p && Hidden(p) == []
  {
    hide Span;
    assert p.value[..|p.value|] == p.value;
    SpanIs(p.value, SEP, |p.value|);
  }

  // ------------------------------------------------------------- equal last-wins maps

  ghost predicate Named(qs: seq<Pair>, name: string) {
    exists i :: 0 <= i < |qs| && qs[i].name == name
  }

  ghost predicate Overwritten(qs: seq<Pair>, i: int) {
    exists j :: 0 <= i < j < |qs| && qs[j].name == qs[i].name
  }

  /** Each assignment of `qs` is made again, in `qs` or in `later`, or carries the value of `m`. */
  ghost predicate Settles(qs: seq<Pair>, m: map<string, string>, later: seq<Pair>) {
    forall i :: 0 <= i < |qs| ==>
      || Overwritten(qs, i) || Named(later, qs[i].name)
      || (qs[i].name in m && m[qs[i].name] == qs[i].value)
  }

  lemma LastWinsSettles(qs: seq<Pair>)
    ensures forall k :: k in LastWins(qs) ==> Named(qs, k)
    ensures Settles(qs, LastWins(qs), [])
  {
    hide LastWins;
    forall i | 0 <= i < |qs| && !Overwritten(qs, i)
      ensures qs[i].name in LastWins(qs) && LastWins(qs)[qs[i].name] == qs[i].value
    {
      LastWinsMeaning(qs, qs[i].name);
      assert LastAt(qs, i, qs[i].name);
    }
    forall k | k in LastWins(qs)
      ensures Named(qs, k)
    {
      LastWinsMeaning(qs, k);
      var i :| LastAt(qs, i, k);
    }
  }

  lemma SettledIsLastWins(qs: seq<Pair>, m: map<string, string>)
    requires (forall k :: k in m ==> Named(qs, k)) && Settles(qs, m, [])
    ensures LastWins(qs) == m
  {
    hide LastWins;
    forall k
      ensures k in LastWins(qs) <==> k in m
      ensures k in m ==> LastWins(qs)[k] == m[k]
    {
      LastWinsMeaning(qs, k);
      if k in m {
        var i :| 0 <= i < |qs| && qs[i].name == k;
        Bound(qs, i);
      }
      if k in LastWins(qs) {
        var i :| LastAt(qs, i, k);
        assert !Overwritten(qs, i);
      }
    }
  }

  lemma LastWinsIs(qs: seq<Pair>, m: map<string, string>)
    ensures LastWins(qs) == m <==> (forall k :: k in m ==> Named(qs, k)) && Settles(qs, m, [])
  {
    hide LastWins, Settles, Named;
    LastWinsSettles(qs);
    if (forall k :: k in m ==> Named(qs, k)) && Settles(qs, m, []) {
      SettledIsLastWins(qs, m);
    }
  }

  lemma NamedAppend(a: seq<Pair>, b: seq<Pair>, name: string)
    ensures Named(a + b, name) <==> Named(a, name) || Named(b, name)
  {
    if i :| 0 <= i < |a| && a[i].name == name {
      assert (a + b)[i] == a[i];
    }
    if i :| 0 <= i < |b| && b[i].name == name {
      assert (a + b)[|a| + i] == b[i];
    }
  }

  lemma OverwrittenAppend(a: seq<Pair>, b: seq<Pair>, i: nat)
    requires i < |a| + |b|
    ensures Overwritten(a + b, i)
       <==> if i < |a| then Overwritten(a, i) || Named(b, a[i].name) else Overwritten(b, i - |a|)
  {
    var ab := a + b;
    if j :| i < j < |a| && a[j].name == ab[i].name {
      assert ab[j].name == ab[i].name;
    }
    if j :| 0 <= j < |b| && i < |a| + j && b[j].name == ab[i].name {
      assert ab[|a| + j].name == ab[i].name;
    }
    if j :| i < j < |ab| && ab[j].name == ab[i].name {
      assert if j < |a| then a[j].name == ab[i].name else b[j - |a|].name == ab[i].name;
    }
  }

  lemma SettlesAppend(a: seq<Pair>, b: seq<Pair>, m: map<string, string>, later: seq<Pair>)
    ensures Settles(a + b, m, later) <==> Settles(a, m, b + later) && Settles(b, m, later)
  {
    hide Overwritten, Named;
    var ab := a + b;
    forall i | 0 <= i < |ab|
      ensures Overwritten(ab, i)
         <==> if i < |a| then Overwritten(a, i) || Named(b, a[i].name) else Overwritten(b, i - |a|)
      ensures Named(b + later, ab[i].name) <==> Named(b, ab[i].name) || Named(later, ab[i].name)
    {
      OverwrittenAppend(a, b, i);
      NamedAppend(b, later, ab[i].name);
    }
    if Settles(ab, m, later) {
      forall i | 0 <= i < |a|
        ensures Overwritten(a, i) || Named(b + later, a[i].name)
             || (a[i].name in m && m[a[i].name] == a[i].value)
      {
        assert ab[i] == a[i];
      }
      forall i | 0 <= i < |b|
        ensures Overwritten(b, i) || Named(later, b[i].name)
             || (b[i].name in m && m[b[i].name] == b[i].value)
      {
        assert ab[|a| + i] == b[i];
      }
    }
  }

  lemma {:induction false} SettlesSpread(ps: seq<Pair>, m: map<string, string>)
    ensures Settles(Spread(ps), m, [])
       <==> forall i :: 0 <= i < |ps| ==> Settles(Writes(ps[i]), m, Spread(ps[i + 1..]))
  {
    hide Settles, Writes;
    if ps == [] {
      SettlesNothing(m);
    } else {
      var rest := ps[1..];
      SettlesSpread(rest, m);
      SettlesAppend(Writes(ps[0]), Spread(rest), m, []);
      assert Spread(rest) + [] == Spread(rest);
      forall i | 0 <= i < |rest|
        ensures ps[i + 1] == rest[i] && ps[i + 2..] == rest[i + 1..]
      {
      }
      if forall i :: 0 <= i < |ps| ==> Settles(Writes(ps[i]), m, Spread(ps[i + 1..])) {
        forall i | 0 <= i < |rest|
          ensures Settles(Writes(rest[i]), m, Spread(rest[i + 1..]))
        {
          assert Settles(Writes(ps[i + 1]), m, Spread(ps[i + 1 + 1..]));
        }
        assert Settles(Writes(ps[0]), m, Spread(ps[0 + 1..]));
      }
      if forall i :: 0 <= i < |rest| ==> Settles(Writes(rest[i]), m, Spread(rest[i + 1..])) {
        forall i | 1 <= i < |ps|
          ensures Settles(Writes(ps[i]), m, Spread(ps[i + 1..]))
        {
          assert Settles(Writes(rest[i - 1]), m, Spread(rest[i - 1 + 1..]));
        }
      }
    }
  }

  lemma SettlesNothing(m: map<string, string>)
    ensures Settles([], m, [])
  {
  }

  lemma {:induction false} SpreadNames(ps: seq<Pair>, j: nat)
    requires j < |ps|
    ensures Named(Spread(ps), ps[j].name)
  {
    hide Named;
    NamedAppend(Writes(ps[0]), Spread(ps[1..]), ps[j].name);
    if j == 0 {
      FirstNamed(FirstLine(ps[0]), Hidden(ps[0]));
    } else {
      SpreadNames(ps[1..], j - 1);
    }
  }

  lemma FirstNamed(q: Pair, qs: seq<Pair>)
    ensures Named([q] + qs, q.name)
  {
    assert ([q] + qs)[0] == q;
  }

  /** The condition for equal maps, on the pairs that are written in the text: names fit, the last
      value of each name has no separator, and every field hidden behind a line break inside a
      value is written again later or carries the value that `m` has for its name. */
  ghost predicate Harmless(ps: seq<Pair>, m: map<string, string>) {
    && NamesFit(ps) && LastValuesFit(ps)
    && (forall i :: 0 <= i < |ps| ==> Settles(Hidden(ps[i]), m, Spread(ps[i + 1..])))
  }

  ghost predicate LastValuesFit(ps: seq<Pair>) {
    forall i :: 0 <= i < |ps| && LastAt(ps, i, ps[i].name) ==> Free(ps[i].value, SEP)
  }

  ghost predicate Extends(m: map<string, string>, base: map<string, string>) {
    forall k :: k in base ==> k in m && m[k] == base[k]
  }

  /** A single assignment. */
  lemma SettlesOne(q: Pair, m: map<string, string>, later: seq<Pair>)
    ensures Settles([q], m, later) <==> Named(later, q.name) || (q.name in m && m[q.name] == q.value)
  {
    hide Named;
    assert [q][0] == q && !Overwritten([q], 0);
  }

  lemma FirstLineName(p: Pair)
    ensures FirstLine(p).name == p.name
  {
  }

  /** A pair writes the value its name ends with, or is written again. */
  lemma WritesSettle(ps: seq<Pair>, m: map<string, string>, i: nat)
    requires Extends(m, LastWins(ps)) && LastValuesFit(ps) && i < |ps|
    ensures var later := Spread(ps[i + 1..]);
            Settles(Writes(ps[i]), m, later) <==> Settles(Hidden(ps[i]), m, later)
  {
    hide Span, LastWins, Hidden, Spread, Settles, FirstLine, Named;
    var p, rest := ps[i], ps[i + 1..];
    var later := Spread(rest);
    SettlesAppend([FirstLine(p)], Hidden(p), m, later);
    NamedAppend(Hidden(p), later, p.name);
    SettlesOne(FirstLine(p), m, Hidden(p) + later);
    FirstLineName(p);
    if LastAt(ps, i, p.name) {
      LastWinsMeaning(ps, p.name);
      WritesOfFree(p);
    } else {
      var j :| i < j < |ps| && ps[j].name == p.name;
      assert rest[j - i - 1] == ps[j];
      SpreadNames(rest, j - i - 1);
    }
  }

  lemma HarmlessSettles(ps: seq<Pair>, m: map<string, string>)
    requires Extends(m, LastWins(ps)) && NamesFit(ps) && LastValuesFit(ps)
    ensures Settles(Spread(ps), m, []) <==> Harmless(ps, m)
    ensures forall k :: k in LastWins(ps) ==> Named(Spread(ps), k)
  {
    hide Span, Settles, Spread, LastWins, Hidden, Writes, Named, LastValuesFit, Extends;
    SettlesSpread(ps, m);
    forall i | 0 <= i < |ps|
      ensures Settles(Writes(ps[i]), m, Spread(ps[i + 1..]))
         <==> Settles(Hidden(ps[i]), m, Spread(ps[i + 1..]))
    {
      WritesSettle(ps, m, i);
    }
    forall k | k in LastWins(ps)
      ensures Named(Spread(ps), k)
    {
      LastWinsMeaning(ps, k);
      var i :| LastAt(ps, i, k);
      SpreadNames(ps, i);
    }
  }

  /** Equal maps, apart from default keys that one of them has with the empty value. */
  lemma DefaultsSettle(qs: seq<Pair>, base: map<string, string>)
    requires forall k :: k in base ==> Named(qs, k)
    ensures WithDefaults(LastWins(qs)) == WithDefaults(base)
       <==> Settles(qs, WithDefaults(base), [])
  {
    hide LastWins, Named;
    var m := WithDefaults(base);
    LastWinsSettles(qs);
    if Settles(qs, m, []) {
      forall k
        ensures k in base ==> k in LastWins(qs)
        ensures k in LastWins(qs) ==> k in m && m[k] == LastWins(qs)[k]
      {
        NamedIsBound(qs, k);
        if k in LastWins(qs) {
          SettledValue(qs, m, k);
        }
      }
    } else if WithDefaults(LastWins(qs)) == m {
      SettlesMore(qs, LastWins(qs), m);
    }
  }

  lemma NamedIsBound(qs: seq<Pair>, name: string)
    ensures Named(qs, name) <==> name in LastWins(qs)
  {
    hide LastWins;
    LastWinsMeaning(qs, name);
    if i :| 0 <= i < |qs| && qs[i].name == name {
      Bound(qs, i);
    }
  }

  lemma SettledValue(qs: seq<Pair>, m: map<string, string>, k: string)
    requires Settles(qs, m, []) && k in LastWins(qs)
    ensures k in m && m[k] == LastWins(qs)[k]
  {
    hide LastWins;
    LastWinsMeaning(qs, k);
    var i :| LastAt(qs, i, k);
    assert !Overwritten(qs, i);
  }

  lemma SettlesMore(qs: seq<Pair>, m: map<string, string>, more: map<string, string>)
    requires Settles(qs, m, []) && Extends(more, m)
    ensures Settles(qs, more, [])
  {
  }

  lemma DefaultsExtend(m: map<string, string>)
    ensures Extends(WithDefaults(m), m)
  {
  }

  lemma DefaultsFit(m: map<string, string>, k: string)
    requires k in WithDefaults(m)
    ensures k in m ==> WithDefaults(m)[k] == m[k]
    ensures k !in m ==> WithDefaults(m)[k] == "" && Free(k, SEP) && |k| <= NAME_MAX
  {
  }

  lemma HarmlessIsEqual(ps: seq<Pair>)
    requires NamesFit(ps) && LastValuesFit(ps)
    ensures LastWins(Spread(ps)) == LastWins(ps) <==> Harmless(ps, LastWins(ps))
    ensures WithDefaults(LastWins(Spread(ps))) == WithDefaults(LastWins(ps))
       <==> Harmless(ps, WithDefaults(LastWins(ps)))
  {
    hide Settles, Spread, LastWins, Named, Harmless, NamesFit, LastValuesFit, WithDefaults;
    var base := LastWins(ps);
    DefaultsExtend(base);
    HarmlessSettles(ps, base);
    HarmlessSettles(ps, WithDefaults(base));
    LastWinsIs(Spread(ps), base);
    DefaultsSettle(Spread(ps), base);
  }

  /** What equal maps say of the pairs, since the message parser never stores a separator. */
  lemma EqualMapsFit(s: string)
    requires WithDefaults(TextMap(s)) == WithDefaults(ParseMap(s))
    ensures NamesFit(ParsePairs(s)) && LastValuesFit(ParsePairs(s))
  {
    hide Span, Runs, Fields, LastWins, ParsePairs, WithDefaults;
    var ps, qs := ParsePairs(s), TextPairs(s);
    RunsAreRuns(s, SEP);
    FieldsAreCommon(Runs(s, SEP));
    forall i | 0 <= i < |ps|
      ensures Free(ps[i].name, SEP) && |ps[i].name| <= NAME_MAX
      ensures LastAt(ps, i, ps[i].name) ==> Free(ps[i].value, SEP)
    {
      Bound(ps, i);
      LastWinsMeaning(ps, ps[i].name);
      LastWinsMeaning(qs, ps[i].name);
      DefaultsExtend(ParseMap(s));
      DefaultsFit(TextMap(s), ps[i].name);
      if ps[i].name in TextMap(s) {
        var j :| LastAt(qs, j, ps[i].name);
      }
    }
  }

  /** When the two parsers build the same map, for every text: exactly when the text consists of
      harmless pairs and an unread tail. */
  lemma ParsersAgreeExactly(s: string)
    ensures TextMap(s) == ParseMap(s)
       <==> exists ps, tail ::
              && WellFormed(ps) && Unread(tail) && s == Render(ps, tail)
              && Harmless(ps, LastWins(ps))
  {
    hide Span, Runs, Fields, LastWins, ParsePairs, Render, Spread, Harmless, WithDefaults;
    if TextMap(s) == ParseMap(s) {
      EqualMapsFit(s);
      var tail := RenderOfParse(s);
      TextPairsOfRender(ParsePairs(s), tail);
      HarmlessIsEqual(ParsePairs(s));
    }
    forall ps, tail | && WellFormed(ps) && Unread(tail) && s == Render(ps, tail)
                      && Harmless(ps, LastWins(ps))
      ensures TextMap(s) == ParseMap(s)
    {
      HarmlessFits(ps, LastWins(ps));
      ParseOfRender(ps, tail);
      TextPairsOfRender(ps, tail);
      HarmlessIsEqual(ps);
    }
  }

  /** And when they do so up to the default keys that set_body adds. */
  lemma DefaultedAgreeExactly(s: string)
    ensures WithDefaults(TextMap(s)) == WithDefaults(ParseMap(s))
       <==> exists ps, tail ::
              && WellFormed(ps) && Unread(tail) && s == Render(ps, tail)
              && Harmless(ps, WithDefaults(LastWins(ps)))
  {
    hide Span, Runs, Fields, LastWins, ParsePairs, Render, Spread, Harmless, WithDefaults;
    if WithDefaults(TextMap(s)) == WithDefaults(ParseMap(s)) {
      EqualMapsFit(s);
      var tail := RenderOfParse(s);
      TextPairsOfRender(ParsePairs(s), tail);
      HarmlessIsEqual(ParsePairs(s));
    }
    forall ps, tail | && WellFormed(ps) && Unread(tail) && s == Render(ps, tail)
                      && Harmless(ps, WithDefaults(LastWins(ps)))
      ensures WithDefaults(TextMap(s)) == WithDefaults(ParseMap(s))
    {
      HarmlessFits(ps, WithDefaults(LastWins(ps)));
      ParseOfRender(ps, tail);
      TextPairsOfRender(ps, tail);
      HarmlessIsEqual(ps);
    }
  }

  lemma HarmlessFits(ps: seq<Pair>, m: map<string, string>)
    requires Harmless(ps, m)
    ensures NamesFit(ps) && LastValuesFit(ps)
  {
  }

  lemma {:induction false} ValuesStayFree(s: string, c: set<char>)
    requires Free(s, c)
    ensures forall i :: 0 <= i < |ParsePairs(s)| ==> Free(ParsePairs(s)[i].value, c)
    decreases |s|
  {
    hide Span;
    var i := Span(s, {'='});
    if i < |s| {
      var rest := s[i + 1..];
      var j := Span(rest, {'&'});
      if j < |rest| { ValuesStayFree(rest[j + 1..], c); }
    }
  }

  /** On a text without line breaks: the maps are equal exactly when it is made of pairs whose
      names have no '&' and at most 63 characters, and an unread tail. */
  lemma MapsAgreeOnLines(s: string)
    requires Free(s, {'\r', '\n'})
    ensures TextMap(s) == ParseMap(s)
       <==> exists ps, tail ::
              WellFormed(ps) && Common(ps) && Unread(tail) && s == Render(ps, tail)
  {
    hide Span, Runs, Fields, LastWins, ParsePairs, Render, Spread;
    if TextMap(s) == ParseMap(s) {
      EqualMapsFit(s);
      var tail := RenderOfParse(s);
      ValuesStayFree(s, {'\r', '\n'});
      var ps := ParsePairs(s);
      forall i | 0 <= i < |ps|
        ensures Free(ps[i].value, SEP)
      {
        assert Free(ps[i].value, {'&'}) && Free(ps[i].value, {'\r', '\n'});
      }
      assert Common(ps);
    }
    forall ps, tail | WellFormed(ps) && Common(ps) && Unread(tail) && s == Render(ps, tail)
      ensures TextMap(s) == ParseMap(s)
    {
      ParseOfRender(ps, tail);
      TextPairsOfRender(ps, tail);
      SpreadOfCommon(ps);
    }
  }

  /** The sequences of assignments, as opposed to the maps, are equal exactly for common pairs. */
  lemma PairsAgreeExactly(s: string)
    ensures TextPairs(s) == ParsePairs(s) <==> Common(ParsePairs(s))
  {
    hide Span, Runs, Fields, ParsePairs, Render, Spread;
    if Common(ParsePairs(s)) {
      var tail := RenderOfParse(s);
      TextPairsOfRender(ParsePairs(s), tail);
      SpreadOfCommon(ParsePairs(s));
    } else {
      RunsAreRuns(s, SEP);
      FieldsAreCommon(Runs(s, SEP));
    }
  }

  /** The parsers do differ: a stray part before a pair becomes part of its name in one only. */
  lemma ParsersDisagree()
    ensures ParseMap("a&b=c") != TextMap("a&b=c")
  {
    hide Span, Runs, Fields, LastWins;
    var s, name := "a&b=c", "a&b";
    assert s[..3] == name && s[4..] == "c" && "c"[..1] == "c";
    SpanIs(s, {'='}, 3);
    SpanIs("c", {'&'}, 1);
    ParseUnfold(s, 3, "c", 1);
    assert ParsePairs(s)[0].name == name && name[1] in SEP;
    if ParseMap(s) == TextMap(s) {
      EqualMapsFit(s);
    }
  }

  /** The pairs of "a=x\ny&a=z". */
  const BROKEN: seq<Pair> := [Pair("a", "x\ny"), Pair("a", "z")]

  lemma BrokenIsHarmless()
    ensures WellFormed(BROKEN) && Harmless(BROKEN, LastWins(BROKEN)) && !Common(BROKEN)
  {
    hide Span, Runs, Fields, LastWins, Spread;
    var p, q := BROKEN[0], BROKEN[1];
    assert p.value[..1] == "x" && p.value[2..] == "y" && p.value[1] in SEP;
    SpanIs(p.value, SEP, 1);
    UnreadHasNoFields("y");
    WritesOfFree(q);
    assert Hidden(p) == [] && Hidden(q) == [];
    assert LastAt(BROKEN, 1, "a") && !LastAt(BROKEN, 0, "a") by { assert BROKEN[1].name == "a"; }
    assert !Free(p.value, SEP);
  }

  /** A line break in a value that is overwritten can be harmless: the assignments differ, and the
      maps are the same. */
  lemma LineBreakCanBeHarmless()
    ensures exists s :: TextMap(s) == ParseMap(s) && TextPairs(s) != ParsePairs(s)
  {
    hide Span, Runs, Fields, LastWins, ParsePairs, Render, Spread, WellFormed, Harmless, Common;
    BrokenIsHarmless();
    var s := Render(BROKEN, None);
    ParseOfRender(BROKEN, None);
    ParsersAgreeExactly(s);
    PairsAgreeExactly(s);
  }
}
