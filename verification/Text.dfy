/** Text shared by the two codecs: delimiter-free runs, joining, and last-wins maps.

    `Runs` is the one notion of "token" in the project.  The proxy's `split` uses it with the
    delimiter set {' '} and the message tokeniser with the set of characters in QMSG_SEP. */
module Text {

  datatype Option<+T> = None | Some(value: T)

  /** A name and its value, as both text protocols write them: name=value. */
  datatype Pair = Pair(name: string, value: string)

  /** No character of `s` belongs to `d`. */
  predicate Free(s: string, d: set<char>) {
    forall i :: 0 <= i < |s| ==> s[i] !in d
  }

  /** Length of the longest prefix of `s` that is free of `d` (C's strcspn). */
  function Span(s: string, d: set<char>): (k: nat)
    ensures k <= |s|
  {
    if s == [] || s[0] in d then 0 else 1 + Span(s[1..], d)
  }

  lemma {:induction false} SpanStops(s: string, d: set<char>)
    ensures Free(s[..Span(s, d)], d)
    ensures Span(s, d) < |s| ==> s[Span(s, d)] in d
  {
    if s != [] && s[0] !in d {
      SpanStops(s[1..], d);
      assert s[..Span(s, d)] == [s[0]] + s[1..][..Span(s[1..], d)];
    }
  }

  lemma {:induction false} SpanAtLeast(s: string, d: set<char>, k: nat)
    requires k <= |s| && Free(s[..k], d)
    ensures k <= Span(s, d)
  {
    if k > 0 {
      assert s[0] == s[..k][0];
      assert s[..k][1..] == s[1..][..k - 1];
      SpanAtLeast(s[1..], d, k - 1);
    }
  }

  lemma {:induction false} SpanIs(s: string, d: set<char>, k: nat)
    requires k <= |s| && Free(s[..k], d)
    requires k < |s| ==> s[k] in d
    ensures Span(s, d) == k
  {
    if k > 0 {
      assert s[0] == s[..k][0];
      assert s[..k][1..] == s[1..][..k - 1];
      SpanIs(s[1..], d, k - 1);
    }
  }

  // ---------------------------------------------------------------------- runs

  /** The maximal nonempty `d`-free runs of `s`, in order. */
  function Runs(s: string, d: set<char>): seq<string>
    decreases |s|
  {
    if s == [] then []
    else if s[0] in d then Runs(s[1..], d)
    else
      var k := Span(s, d);
      [s[..k]] + Runs(s[k..], d)
  }

  lemma RunsSkip(s: string, d: set<char>)
    requires s != [] && s[0] in d
    ensures Runs(s, d) == Runs(s[1..], d)
  {
  }

  lemma RunsOfEmpty(d: set<char>)
    ensures Runs([], d) == []
  {
  }

  ghost predicate IsRun(t: string, d: set<char>) {
    t != [] && Free(t, d)
  }

  lemma {:induction false} RunsAreRuns(s: string, d: set<char>)
    ensures forall t :: t in Runs(s, d) ==> IsRun(t, d)
    decreases |s|
  {
    if s == [] {
    } else if s[0] in d {
      RunsAreRuns(s[1..], d);
    } else {
      SpanStops(s, d);
      RunsAreRuns(s[Span(s, d)..], d);
    }
  }

  /** A delimiter splits the problem in two: nothing crosses it and it leaves no trace. */
  lemma {:induction false} RunsAppend(a: string, x: char, b: string, d: set<char>)
    requires x in d
    ensures Runs(a + [x] + b, d) == Runs(a, d) + Runs(b, d)
    decreases |a|
  {
    hide Span;
    var s := a + [x] + b;
    if a == [] {
      assert s[1..] == b;
    } else if a[0] in d {
      RunsAppend(a[1..], x, b, d);
      assert s[1..] == a[1..] + [x] + b;
    } else {
      var k := Span(a, d);
      SpanStops(a, d);
      assert s[..k] == a[..k];
      SpanIs(s, d, k);
      RunsAppend(a[k..], x, b, d);
      assert s[k..] == a[k..] + [x] + b;
    }
  }

  /** There is a run exactly when some character is no delimiter. */
  lemma {:induction false} SomeRun(s: string, x: char)
    ensures Runs(s, {x}) != [] <==> exists k :: 0 <= k < |s| && s[k] != x
    decreases |s|
  {
    if s != [] && s[0] == x {
      SomeRun(s[1..], x);
      if k: nat :| 1 <= k < |s| && s[k] != x {
        assert s[1..][k - 1] != x;
      }
    }
  }

  lemma RunsOfRun(t: string, d: set<char>)
    requires IsRun(t, d)
    ensures Runs(t, d) == [t]
  {
    assert t[..|t|] == t;
    SpanIs(t, d, |t|);
  }

  /** One item off the front: what a single getline reads, with the rest of the text. */
  lemma RunsStep(s: string, d: set<char>)
    requires s != []
    ensures var k := Span(s, d);
            && (k < |s| ==> s[k] in d)
            && Runs(s, d) == (if k == 0 then [] else [s[..k]])
                           + if k == |s| then [] else Runs(s[k + 1..], d)
  {
    hide Span, Runs;
    SpanStops(s, d);
    var k := Span(s, d);
    if k == 0 {
      RunsSkip(s, d);
    } else {
      RunsOfRun(s[..k], d);
      if k == |s| {
        assert s[..k] == s;
      } else {
        RunsAppend(s[..k], s[k], s[k + 1..], d);
        assert s == s[..k] + [s[k]] + s[k + 1..];
      }
    }
  }

  lemma RunsTrailing(a: string, x: char, d: set<char>)
    requires x in d
    ensures Runs(a + [x], d) == Runs(a, d)
  {
    RunsAppend(a, x, [], d);
    assert a + [x] + [] == a + [x];
  }

  // An independent reading of "maximal runs": the text is the items, separated by gaps made of
  // delimiters only, where only the first and the last gap may be empty.

  function Weave(gaps: seq<string>, items: seq<string>): string
    requires |gaps| == |items| + 1
  {
    if items == [] then gaps[0] else gaps[0] + items[0] + Weave(gaps[1..], items[1..])
  }

  ghost predicate Gap(g: string, d: set<char>) {
    forall i :: 0 <= i < |g| ==> g[i] in d
  }

  ghost predicate IsWeave(s: string, gaps: seq<string>, items: seq<string>, d: set<char>) {
    && |gaps| == |items| + 1
    && (forall i :: 0 <= i < |gaps| ==> Gap(gaps[i], d))
    && (forall i :: 0 < i < |items| ==> gaps[i] != [])
    && (forall i :: 0 <= i < |items| ==> IsRun(items[i], d))
    && s == Weave(gaps, items)
  }

  lemma {:induction false} SkipGap(g: string, s: string, d: set<char>)
    requires Gap(g, d)
    ensures Runs(g + s, d) == Runs(s, d)
  {
    if g == [] {
      assert g + s == s;
    } else {
      assert Gap(g[1..], d);
      SkipGap(g[1..], s, d);
      assert (g + s)[1..] == g[1..] + s;
    }
  }

  lemma {:induction false} RunsOfWeave(s: string, gaps: seq<string>, items: seq<string>, d: set<char>)
    requires IsWeave(s, gaps, items, d)
    ensures Runs(s, d) == items
    decreases |items|
  {
    hide Span, Runs;
    RunsOfEmpty(d);
    if items == [] {
      SkipGap(s, [], d);
      assert s + [] == s;
    } else {
      var rest := Weave(gaps[1..], items[1..]);
      assert IsWeave(rest, gaps[1..], items[1..], d);
      RunsOfWeave(rest, gaps[1..], items[1..], d);
      SkipGap(gaps[0], items[0] + rest, d);
      assert s == gaps[0] + (items[0] + rest);
      RunsOfRun(items[0], d);
      if rest == [] {
        assert items[0] + rest == items[0];
      } else {
        assert rest[0] in d;
        RunsSkip(rest, d);
        RunsAppend(items[0], rest[0], rest[1..], d);
        assert items[0] + rest == items[0] + [rest[0]] + rest[1..];
      }
    }
  }

  lemma ExtendFirstGap(s: string, x: char, gaps: seq<string>, items: seq<string>, d: set<char>)
    returns (wider: seq<string>)
    requires x in d && IsWeave(s, gaps, items, d)
    ensures wider == [[x] + gaps[0]] + gaps[1..]
    ensures IsWeave([x] + s, wider, items, d)
  {
    wider := [[x] + gaps[0]] + gaps[1..];
    assert wider[1..] == gaps[1..];
    if items != [] {
      assert [x] + s == ([x] + gaps[0]) + items[0] + Weave(gaps[1..], items[1..]);
    }
  }

  lemma PrependItem(t: string, s: string, gaps: seq<string>, items: seq<string>, d: set<char>)
    requires IsRun(t, d) && IsWeave(s, gaps, items, d)
    requires items != [] ==> gaps[0] != []
    ensures IsWeave(t + s, [[]] + gaps, [t] + items, d)
  {
    assert ([[]] + gaps)[1..] == gaps;
    assert ([t] + items)[1..] == items;
    assert [] + t + s == t + s;
  }

  lemma {:induction false} WeaveOfRuns(s: string, d: set<char>) returns (gaps: seq<string>)
    ensures IsWeave(s, gaps, Runs(s, d), d)
    ensures s != [] && s[0] in d ==> gaps[0] != []
    decreases |s|
  {
    if s == [] {
      gaps := [[]];
    } else if s[0] in d {
      var inner := WeaveOfRuns(s[1..], d);
      gaps := ExtendFirstGap(s[1..], s[0], inner, Runs(s[1..], d), d);
      assert s == [s[0]] + s[1..];
    } else {
      var k := Span(s, d);
      SpanStops(s, d);
      var inner := WeaveOfRuns(s[k..], d);
      PrependItem(s[..k], s[k..], inner, Runs(s[k..], d), d);
      gaps := [[]] + inner;
      assert s == s[..k] + s[k..];
    }
  }

  /** `Runs` computes exactly the maximal delimiter-free runs. */
  lemma RunsCharacterised(s: string, items: seq<string>, d: set<char>)
    ensures Runs(s, d) == items <==> exists gaps :: IsWeave(s, gaps, items, d)
  {
    if Runs(s, d) == items {
      var gaps := WeaveOfRuns(s, d);
    }
    forall gaps | IsWeave(s, gaps, items, d)
      ensures Runs(s, d) == items
    {
      RunsOfWeave(s, gaps, items, d);
    }
  }

  // ------------------------------------------------------------ joining and flattening

  function Join(items: seq<string>, x: char): string {
    if items == [] then []
    else if |items| == 1 then items[0]
    else items[0] + [x] + Join(items[1..], x)
  }

  /** Tokenising a joined text gives back the joined items. */
  lemma {:induction false} RunsOfJoin(items: seq<string>, x: char, d: set<char>)
    requires x in d
    requires forall i :: 0 <= i < |items| ==> IsRun(items[i], d)
    ensures Runs(Join(items, x), d) == items
    decreases |items|
  {
    if items == [] {
    } else if |items| == 1 {
      RunsOfRun(items[0], d);
    } else {
      RunsOfRun(items[0], d);
      RunsOfJoin(items[1..], x, d);
      RunsAppend(items[0], x, Join(items[1..], x), d);
    }
  }

  lemma {:induction false} JoinFree(items: seq<string>, x: char, d: set<char>)
    requires x !in d && forall i :: 0 <= i < |items| ==> Free(items[i], d)
    ensures Free(Join(items, x), d)
  {
    if |items| > 1 {
      JoinFree(items[1..], x, d);
    }
  }

  function Flatten(items: seq<string>): string {
    if items == [] then [] else items[0] + Flatten(items[1..])
  }

  /** `s` with every character of `d` removed. */
  function Without(s: string, d: set<char>): string {
    if s == [] then [] else (if s[0] in d then [] else [s[0]]) + Without(s[1..], d)
  }

  lemma {:induction false} WithoutFreePrefix(s: string, k: nat, d: set<char>)
    requires k <= |s| && Free(s[..k], d)
    ensures Without(s, d) == s[..k] + Without(s[k..], d)
  {
    if k == 0 {
      assert s[k..] == s;
    } else {
      assert s[0] == s[..k][0];
      assert s[..k][1..] == s[1..][..k - 1];
      WithoutFreePrefix(s[1..], k - 1, d);
      assert s[1..][k - 1..] == s[k..];
      assert [s[0]] + s[1..][..k - 1] == s[..k];
    }
  }

  /** Tokenising loses the delimiters and nothing else. */
  lemma {:induction false} FlattenRuns(s: string, d: set<char>)
    ensures Flatten(Runs(s, d)) == Without(s, d)
    decreases |s|
  {
    if s == [] {
    } else if s[0] in d {
      FlattenRuns(s[1..], d);
    } else {
      var k := Span(s, d);
      SpanStops(s, d);
      FlattenRuns(s[k..], d);
      WithoutFreePrefix(s, k, d);
      assert Runs(s, d)[1..] == Runs(s[k..], d);
    }
  }

  // --------------------------------------------------------------------- maps

  /** The map built by assigning the pairs in order, so that the last value of a name wins. */
  function LastWins(ps: seq<Pair>): map<string, string> {
    if ps == [] then map[]
    else LastWins(ps[..|ps| - 1])[ps[|ps| - 1].name := ps[|ps| - 1].value]
  }

  lemma LastWinsSnoc(ps: seq<Pair>, p: Pair)
    ensures LastWins(ps + [p]) == LastWins(ps)[p.name := p.value]
  {
    assert (ps + [p])[..|ps|] == ps;
  }

  ghost predicate LastAt(ps: seq<Pair>, i: int, name: string) {
    && 0 <= i < |ps| && ps[i].name == name
    && forall j :: i < j < |ps| ==> ps[j].name != name
  }

  /** A name is bound exactly when some pair carries it, and to the value of its last pair. */
  lemma {:induction false} LastWinsMeaning(ps: seq<Pair>, name: string)
    ensures name in LastWins(ps) <==> exists i :: LastAt(ps, i, name)
    ensures forall i :: LastAt(ps, i, name) ==> LastWins(ps)[name] == ps[i].value
  {
    if ps == [] {
    } else {
      var n := |ps| - 1;
      LastWinsMeaning(ps[..n], name);
      if ps[n].name == name {
        assert LastAt(ps, n, name);
      } else {
        forall i
          ensures LastAt(ps, i, name) <==> LastAt(ps[..n], i, name)
        {
          LastAtFront(ps, i, name);
        }
      }
    }
  }

  lemma LastAtFront(ps: seq<Pair>, i: int, name: string)
    requires ps != [] && ps[|ps| - 1].name != name
    ensures LastAt(ps, i, name) <==> LastAt(ps[..|ps| - 1], i, name)
  {
    var front := ps[..|ps| - 1];
    if LastAt(front, i, name) {
      forall j | i < j < |ps|
        ensures ps[j].name != name
      {
        if j < |front| { assert ps[j] == front[j]; }
      }
    }
  }

  lemma {:induction false} Bound(ps: seq<Pair>, i: nat)
    requires i < |ps|
    ensures ps[i].name in LastWins(ps)
  {
    if i < |ps| - 1 {
      Bound(ps[..|ps| - 1], i);
    }
  }
}
