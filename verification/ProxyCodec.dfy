/** The index-based text codec of the proxy: `IsgwProxy::parse` and `IsgwProxy::split`. */
module ProxyCodec {
  import opened Text

  const NPOS: int := -1

  /** std::string::find_first_of for a one-character set. */
  function FindFirst(s: string, c: char, from: nat): (pos: int)
    requires from <= |s|
    ensures pos == NPOS || from <= pos < |s|
  {
    var k := Span(s[from..], {c});
    if from + k == |s| then NPOS else from + k
  }

  // ------------------------------------------------------------------- parse

  /** The pairs that parsing assigns, in order: '=' is looked for first, across any '&'. */
  function ParsePairs(s: string): seq<Pair>
    decreases |s|
  {
    var i := Span(s, {'='});
    if i == |s| then []
    else
      var rest := s[i + 1..];
      var j := Span(rest, {'&'});
      [Pair(s[..i], rest[..j])] + if j == |rest| then [] else ParsePairs(rest[j + 1..])
  }

  function ParseMap(s: string): map<string, string> {
    LastWins(ParsePairs(s))
  }

  lemma ParseUnfold(s: string, i: nat, rest: string, j: nat)
    requires i == Span(s, {'='}) < |s| && rest == s[i + 1..] && j == Span(rest, {'&'})
    ensures ParsePairs(s) == [Pair(s[..i], rest[..j])]
                           + if j == |rest| then [] else ParsePairs(rest[j + 1..])
  {
    hide Span;
  }

  lemma ParseEnd(s: string)
    requires Span(s, {'='}) == |s|
    ensures ParsePairs(s) == []
  {
  }

  /** The positions the loop of `parse` computes, seen from the unread part `input[from..]`. */
  lemma ParseStep(input: string, from: nat, eq: nat, amp: nat)
    requires from <= eq < amp <= |input|
    requires Span(input[from..], {'='}) == eq - from < |input[from..]|
    requires Span(input[eq + 1..], {'&'}) == amp - eq - 1
    ensures ParsePairs(input[from..])
         == [Pair(input[from..eq], input[eq + 1..amp])]
          + if amp == |input| then [] else ParsePairs(input[amp + 1..])
  {
    hide Span, ParsePairs;
    var s := input[from..];
    assert s[..eq - from] == input[from..eq];
    assert s[eq - from + 1..] == input[eq + 1..];
    var rest := input[eq + 1..];
    assert rest[..amp - eq - 1] == input[eq + 1..amp];
    if amp < |input| {
      assert rest[amp - eq..] == input[amp + 1..];
    }
    ParseUnfold(s, eq - from, rest, amp - eq - 1);
  }

  /** IsgwProxy::parse. */
  method Parse(input: string) returns (data: map<string, string>)
    ensures data == ParseMap(input)
  {
    hide Span, ParsePairs;
    data := map[];
    var oldPos := 0;
    ghost var done: seq<Pair> := [];
    assert input[0..] == input;
    while true
      invariant 0 <= oldPos <= |input|
      invariant ParsePairs(input) == done + ParsePairs(input[oldPos..])
      invariant data == LastWins(done)
      decreases |input| - oldPos
    {
      var pos := FindFirst(input, '=', oldPos);
      if pos == NPOS {
        ParseEnd(input[oldPos..]);
        assert ParsePairs(input) == done;
        break;
      }
      var name := input[oldPos..pos];
      ghost var from, eq := oldPos, pos;
      oldPos := pos + 1;
      pos := FindFirst(input, '&', oldPos);
      var value := if pos == NPOS then input[oldPos..] else input[oldPos..pos];
      data := data[name := value];
      ghost var amp := if pos == NPOS then |input| else pos;
      assert value == input[eq + 1..amp];
      ParseStep(input, from, eq, amp);
      LastWinsSnoc(done, Pair(name, value));
      done := done + [Pair(name, value)];
      if pos == NPOS {
        assert ParsePairs(input) == done;
        break;
      }
      oldPos := pos + 1;
    }
  }

  function Show(p: Pair): string {
    p.name + ['='] + p.value
  }

  function Shown(ps: seq<Pair>): seq<string> {
    seq(|ps|, i requires 0 <= i < |ps| => Show(ps[i]))
  }

  /** The pairs as the protocol writes them, joined with '&'. */
  function JoinPairs(ps: seq<Pair>): string {
    Join(Shown(ps), '&')
  }

  /** Names free of '=' (they may contain '&'), values free of '&' (they may contain '='). */
  predicate WellFormed(ps: seq<Pair>) {
    forall i :: 0 <= i < |ps| ==> Free(ps[i].name, {'='}) && Free(ps[i].value, {'&'})
  }

  /** A text of the grammar: joined pairs, then perhaps '&' and a remainder that is never read. */
  function Render(ps: seq<Pair>, tail: Option<string>): string {
    match tail
    case None => JoinPairs(ps)
    case Some(t) => if ps == [] then t else JoinPairs(ps) + ['&'] + t
  }

  ghost predicate Unread(tail: Option<string>) {
    tail.Some? ==> Free(tail.value, {'='})
  }

  lemma RenderCons(p: Pair, ps: seq<Pair>, tail: Option<string>)
    ensures Render([p] + ps, tail)
         == Show(p) + if ps == [] && tail == None then [] else ['&'] + Render(ps, tail)
  {
    assert Shown([p] + ps)[1..] == Shown(ps);
    assert Shown([p] + ps)[0] == Show(p);
  }

  /** One step of the grammar read backwards: what parsing does to a text starting with a pair. */
  lemma ParseShown(p: Pair, after: Option<string>)
    requires WellFormed([p])
    ensures var s := Show(p) + if after.None? then [] else ['&'] + after.value;
            ParsePairs(s) == [p] + if after.None? then [] else ParsePairs(after.value)
  {
    hide Span, ParsePairs;
    assert p == [p][0];
    var s := Show(p) + if after.None? then [] else ['&'] + after.value;
    var i := |p.name|;
    assert s[..i] == p.name;
    SpanIs(s, {'='}, i);
    var rest := s[i + 1..];
    var j := |p.value|;
    assert rest[..j] == p.value;
    SpanIs(rest, {'&'}, j);
    if after.Some? {
      assert rest[j + 1..] == after.value;
    }
    ParseUnfold(s, i, rest, j);
  }

  /** Round trip: a well-formed list comes back, and an unread tail adds nothing. */
  lemma {:induction false} ParseOfRender(ps: seq<Pair>, tail: Option<string>)
    requires WellFormed(ps) && Unread(tail)
    ensures ParsePairs(Render(ps, tail)) == ps
    decreases |ps|
  {
    if ps == [] {
      var t := if tail.None? then [] else tail.value;
      assert t[..|t|] == t;
      SpanIs(t, {'='}, |t|);
    } else {
      var rest := ps[1..];
      assert ps == [ps[0]] + rest;
      ParseOfRender(rest, tail);
      RenderCons(ps[0], rest, tail);
      var after := if rest == [] && tail == None then None else Some(Render(rest, tail));
      ParseShown(ps[0], after);
    }
  }

  lemma UnshowPair(s: string, i: nat, j: nat)
    requires i < |s| && s[i] == '=' && j <= |s| - i - 1
    ensures s == Show(Pair(s[..i], s[i + 1..][..j])) + s[i + 1..][j..]
  {
    var rest := s[i + 1..];
    assert rest == rest[..j] + rest[j..];
    assert s == s[..i] + ['='] + rest;
  }

  /** Every text is of the grammar: its pairs and one unread tail account for all of it. */
  lemma {:induction false} RenderOfParse(s: string) returns (tail: Option<string>)
    ensures WellFormed(ParsePairs(s)) && Unread(tail)
    ensures s == Render(ParsePairs(s), tail)
    ensures ParsePairs(s) == [] ==> tail.Some?
    decreases |s|
  {
    hide Span, ParsePairs, Shown, JoinPairs;
    var i := Span(s, {'='});
    SpanStops(s, {'='});
    if i == |s| {
      ParseEnd(s);
      assert s[..i] == s;
      tail := Some(s);
    } else {
      var rest := s[i + 1..];
      var j := Span(rest, {'&'});
      SpanStops(rest, {'&'});
      ParseUnfold(s, i, rest, j);
      UnshowPair(s, i, j);
      var p := Pair(s[..i], rest[..j]);
      if j == |rest| {
        tail := None;
        RenderFirst(p, [], None, s, []);
      } else {
        tail := RenderOfParse(rest[j + 1..]);
        RenderFirst(p, ParsePairs(rest[j + 1..]), tail, s, rest[j..]);
      }
    }
  }

  /** Putting one pair in front of a rendered text. */
  lemma RenderFirst(p: Pair, ps: seq<Pair>, tail: Option<string>, s: string, left: string)
    requires Free(p.name, {'='}) && Free(p.value, {'&'}) && WellFormed(ps)
    requires s == Show(p) + left
    requires if ps == [] && tail.None? then left == []
             else left != [] && left[0] == '&' && left[1..] == Render(ps, tail)
    ensures WellFormed([p] + ps)
    ensures s == Render([p] + ps, tail)
  {
    hide JoinPairs;
    RenderCons(p, ps, tail);
    if left != [] {
      assert left == ['&'] + left[1..];
    }
  }

  /** The declarative grammar of `parse`, in both directions and for every text. */
  lemma ParseCharacterised(s: string, ps: seq<Pair>)
    ensures ParsePairs(s) == ps
       <==> WellFormed(ps) && exists tail :: Unread(tail) && s == Render(ps, tail)
  {
    var tail := RenderOfParse(s);
    forall tail | WellFormed(ps) && Unread(tail) && s == Render(ps, tail)
      ensures ParsePairs(s) == ps
    {
      ParseOfRender(ps, tail);
    }
  }

  /** The exact precondition of the round trip. */
  lemma RoundTripExactly(ps: seq<Pair>)
    ensures ParsePairs(JoinPairs(ps)) == ps <==> WellFormed(ps)
  {
    ParseCharacterised(JoinPairs(ps), ps);
    if WellFormed(ps) {
      ParseOfRender(ps, None);
    }
  }

  /** `keys` lists the keys of `m`, each once, in some order. */
  ghost predicate Enumerates(keys: seq<string>, m: map<string, string>) {
    && (forall k :: k in keys <==> k in m)
    && (forall i, j :: 0 <= i < j < |keys| ==> keys[i] != keys[j])
  }

  function Listing(keys: seq<string>, m: map<string, string>): seq<Pair>
    requires forall k :: k in keys ==> k in m
  {
    seq(|keys|, i requires 0 <= i < |keys| => Pair(keys[i], m[keys[i]]))
  }

  lemma LastWinsListing(keys: seq<string>, m: map<string, string>)
    requires Enumerates(keys, m)
    ensures LastWins(Listing(keys, m)) == m
  {
    var ps := Listing(keys, m);
    forall k
      ensures k in LastWins(ps) <==> k in m
      ensures k in m ==> LastWins(ps)[k] == m[k]
    {
      LastWinsMeaning(ps, k);
      if k in m {
        var i :| 0 <= i < |keys| && keys[i] == k;
        assert LastAt(ps, i, k);
      }
    }
  }

  /** Parsing canonicalises: whatever was read can be printed in any key order and read again. */
  lemma Canonicalises(s: string, keys: seq<string>)
    requires Enumerates(keys, ParseMap(s))
    ensures ParseMap(JoinPairs(Listing(keys, ParseMap(s)))) == ParseMap(s)
  {
    var m := ParseMap(s);
    var tail := RenderOfParse(s);
    forall i | 0 <= i < |keys|
      ensures Free(keys[i], {'='}) && Free(m[keys[i]], {'&'})
    {
      LastWinsMeaning(ParsePairs(s), keys[i]);
      assert keys[i] in m;
      var j :| LastAt(ParsePairs(s), j, keys[i]);
    }
    ParseOfRender(Listing(keys, m), None);
    LastWinsListing(keys, m);
  }

  // ------------------------------------------------------------------- split

  /** IsgwProxy::split: the getline loop, dropping empty items. */
  method Split(src: string, delim: char) returns (elems: seq<string>)
    ensures elems == Runs(src, {delim})
  {
    hide Span, Runs;
    elems := [];
    var pos := 0;
    RunsOfEmpty({delim});
    assert src[0..] == src && src[|src|..] == [];
    while pos < |src|
      invariant 0 <= pos <= |src|
      invariant Runs(src, {delim}) == elems + Runs(src[pos..], {delim})
    {
      var end := FindFirst(src, delim, pos);
      var item := if end == NPOS then src[pos..] else src[pos..end];
      ghost var left := src[pos..];
      RunsStep(left, {delim});
      assert item == left[..Span(left, {delim})];
      if item != [] {
        elems := elems + [item];
      }
      pos := if end == NPOS then |src| else end + 1;
      if end != NPOS {
        assert left[|item| + 1..] == src[pos..];
      }
    }
  }
}
