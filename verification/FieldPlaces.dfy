/** Fields as places in the text of a message, and what the substring search of `is_have` sees. */
module FieldPlaces {
  import opened Text
  import opened Decimal
  import opened MessageCodec

  // ---------------------------------------------------------------- occurrences

  /** `t` occurs in `s` at `p`. */
  ghost predicate OccursAt(s: string, t: string, p: int) {
    0 <= p && p + |t| <= |s| && s[p..p + |t|] == t
  }

  /** strstr: whether `t` occurs in `s`. */
  predicate Occurs(s: string, t: string) {
    |t| <= |s| && (s[..|t|] == t || Occurs(s[1..], t))
  }

  lemma {:induction false} OccursIff(s: string, t: string)
    ensures Occurs(s, t) <==> exists p :: OccursAt(s, t, p)
  {
    if |t| <= |s| {
      if s[..|t|] == t {
        assert OccursAt(s, t, 0);
      } else if s != [] {
        OccursIff(s[1..], t);
        forall p | OccursAt(s, t, p)
          ensures OccursAt(s[1..], t, p - 1)
        {
          assert p != 0;
          assert s[1..][p - 1..p - 1 + |t|] == s[p..p + |t|];
        }
        forall p | OccursAt(s[1..], t, p)
          ensures OccursAt(s, t, p + 1)
        {
          assert s[1..][p..p + |t|] == s[p + 1..p + 1 + |t|];
        }
      }
    }
  }

  lemma NoStraddle(s: string, t: string, p: int, i: nat)
    requires OccursAt(s, t, p) && i < |s| && Free(t, {s[i]})
    ensures i < p || p + |t| <= i
  {
    forall k | p <= k < p + |t|
      ensures s[k] != s[i]
    {
      assert s[k] == t[k - p];
    }
  }

  /** An occurrence does not straddle a character that it does not contain. */
  lemma OccursSplit(a: string, x: char, b: string, t: string)
    requires Free(t, {x})
    ensures Occurs(a + [x] + b, t) <==> Occurs(a, t) || Occurs(b, t)
  {
    hide Occurs;
    var s := a + [x] + b;
    OccursIff(s, t);
    OccursIff(a, t);
    OccursIff(b, t);
    forall p | OccursAt(a, t, p)
      ensures OccursAt(s, t, p)
    {
      assert s[p..p + |t|] == a[p..p + |t|];
    }
    forall p | OccursAt(b, t, p)
      ensures OccursAt(s, t, |a| + 1 + p)
    {
      assert s[|a| + 1 + p..|a| + 1 + p + |t|] == b[p..p + |t|];
    }
    if p :| OccursAt(s, t, p) {
      NoStraddle(s, t, p, |a|);
      if p + |t| <= |a| {
        assert s[p..p + |t|] == a[p..p + |t|];
        assert OccursAt(a, t, p);
      } else if t == [] {
        assert OccursAt(a, t, 0);
      } else {
        assert s[p..p + |t|] == b[p - |a| - 1..p - |a| - 1 + |t|];
        assert OccursAt(b, t, p - |a| - 1);
      }
    }
  }

  /** Substring search sees exactly what some token contains. */
  lemma {:induction false} OccursInTokens(text: string, name: string)
    requires name != [] && Free(name, SEP)
    ensures Occurs(text, name) <==> exists t :: t in Runs(text, SEP) && Occurs(t, name)
    decreases |text|
  {
    hide Span, Runs;
    if text == [] {
      RunsOfEmpty(SEP);
    } else {
      RunsStep(text, SEP);
      var k := Span(text, SEP);
      assert !Occurs([], name);
      if k == |text| {
        assert text[..k] == text;
        assert Runs(text, SEP) == [text];
        assert text in Runs(text, SEP);
      } else {
        var head, rest := text[..k], text[k + 1..];
        assert text == head + [text[k]] + rest;
        forall i | 0 <= i < |name|
          ensures name[i] != text[k]
        {
          assert name[i] !in SEP;
        }
        OccursSplit(head, text[k], rest, name);
        OccursInTokens(rest, name);
        assert forall t :: t in Runs(text, SEP) <==> (k != 0 && t == head) || t in Runs(rest, SEP);
      }
    }
  }

  // ------------------------------------------------------------ where fields stand

  ghost predicate TokenStart(s: string, p: int) {
    0 <= p <= |s| && (p == 0 || s[p - 1] == '&' || s[p - 1] == '\r' || s[p - 1] == '\n')
  }

  /** A name that can be written as one: it contains no '=' and no separator. */
  ghost predicate CleanName(name: string) {
    forall i :: 0 <= i < |name| ==>
      name[i] != '&' && name[i] != '\r' && name[i] != '\n' && name[i] != '='
  }

  /** A field called `name` is written at `p`: at the start of a token, followed by '='. */
  ghost predicate FieldAt(s: string, name: string, p: int) {
    CleanName(name) && TokenStart(s, p) && OccursAt(s, name + ['='], p)
  }

  /** The text from `i` up to the next separator. */
  function ValueAt(s: string, i: nat): string
    requires i <= |s|
  {
    s[i..][..Span(s[i..], SEP)]
  }

  lemma {:induction false} RunIsWritten(s: string, t: string) returns (p: nat)
    requires t in Runs(s, SEP)
    ensures OccursAt(s, t, p) && TokenStart(s, p)
    decreases |s|
  {
    hide Span;
    SpanStops(s, SEP);
    if s[0] in SEP {
      var q := RunIsWritten(s[1..], t);
      p := q + 1;
      assert s[1..][q..q + |t|] == s[p..p + |t|];
    } else {
      var k := Span(s, SEP);
      if t == s[..k] {
        p := 0;
      } else {
        var q := RunIsWritten(s[k..], t);
        p := q + k;
        assert s[k..][q..q + |t|] == s[p..p + |t|];
        RunsAreRuns(s, SEP);
        assert t[0] !in SEP && s[k..][q..q + |t|][0] == t[0];
      }
    }
  }

  lemma {:induction false} FieldsCome(tokens: seq<string>, name: string) returns (t: string)
    requires exists i :: 0 <= i < |Fields(tokens)| && Fields(tokens)[i].name == name
    ensures t in tokens && Field(t) != [] && Field(t)[0].name == name
  {
    if exists i :: 0 <= i < |Field(tokens[0])| && Field(tokens[0])[i].name == name {
      t := tokens[0];
    } else {
      var i :| 0 <= i < |Fields(tokens)| && Fields(tokens)[i].name == name;
      assert Fields(tokens)[i] == Fields(tokens[1..])[i - |Field(tokens[0])|];
      t := FieldsCome(tokens[1..], name);
    }
  }

  /** Every stored name is the cut of a name written at the start of a token. */
  lemma NamesAreWritten(text: string, name: string) returns (n: string, p: nat)
    requires name in TextMap(text)
    ensures FieldAt(text, n, p) && CutName(n) == name
  {
    hide Span, Runs, Fields, LastWins;
    LastWinsMeaning(TextPairs(text), name);
    var i :| LastAt(TextPairs(text), i, name);
    var t := FieldsCome(Runs(text, SEP), name);
    p := RunIsWritten(text, t);
    RunsAreRuns(text, SEP);
    SpanStops(t, {'='});
    var k := Span(t, {'='});
    n := t[..k];
    assert forall j :: 0 <= j < k ==> n[j] == t[j];
    assert n + ['='] == t[..k + 1];
    assert text[p..p + k + 1] == text[p..p + |t|][..k + 1];
  }

  lemma FieldOfToken(t: string, n: string)
    requires CleanName(n) && n + ['='] <= t
    ensures Field(t) == [Pair(CutName(n), t[|n| + 1..])]
  {
    hide Span;
    assert t[..|n|] == (n + ['='])[..|n|] == n;
    assert t[|n|] == (n + ['='])[|n|];
    SpanIs(t, {'='}, |n|);
  }

  /** A text that starts with a field: the field, then what the next token starts. */
  lemma FieldFirst(s: string, n: string) returns (next: nat)
    requires CleanName(n) && n + ['='] <= s
    ensures |n| < next <= |s|
    ensures TokenStart(s, next) || next == |s|
    ensures var end := |n| + 1 + Span(s[|n| + 1..], SEP);
            next == if end == |s| then end else end + 1
    ensures TextPairs(s) == [Pair(CutName(n), ValueAt(s, |n| + 1))] + TextPairs(s[next..])
  {
    hide Span, Runs, Fields, Field;
    var head := n + ['='];
    assert s[..|head|] == head;
    forall i | 0 <= i < |head|
      ensures head[i] !in SEP
    {
      assert i < |n| ==> head[i] == n[i];
    }
    SpanAtLeast(s, SEP, |head|);
    RunsStep(s, SEP);
    var k := Span(s, SEP);
    var rest := s[|head|..];
    SpanStops(s, SEP);
    assert rest[..k - |head|] == s[..k][|head|..];
    assert forall i :: |head| <= i < k ==> s[..k][i] !in SEP;
    SpanIs(rest, SEP, k - |head|);
    assert head <= s[..k];
    FieldOfToken(s[..k], n);
    next := if k == |s| then k else k + 1;
    RunsOfEmpty(SEP);
    assert s[next..] == if k == |s| then [] else s[k + 1..];
    FieldsCons(s[..k], Runs(s[next..], SEP));
  }

  /** The fields of a text around one that is written at `p`. */
  lemma FieldHere(text: string, n: string, p: nat) returns (before: seq<Pair>, next: nat)
    requires FieldAt(text, n, p)
    ensures p + |n| < next <= |text|
    ensures TokenStart(text, next) || next == |text|
    ensures TextPairs(text)
         == before + [Pair(CutName(n), ValueAt(text, p + |n| + 1))] + TextPairs(text[next..])
  {
    hide Span, Runs, Fields, CutName;
    var rest := text[p..];
    assert rest[..|n| + 1] == text[p..p + |n| + 1];
    var q := FieldFirst(rest, n);
    next := p + q;
    assert rest[q..] == text[next..] && rest[|n| + 1..] == text[p + |n| + 1..];
    if p == 0 {
      before := [];
      assert rest == text;
    } else {
      before := TextPairs(text[..p - 1]);
      RunsAppend(text[..p - 1], text[p - 1], rest, SEP);
      assert text == text[..p - 1] + [text[p - 1]] + rest;
      FieldsAppend(Runs(text[..p - 1], SEP), Runs(rest, SEP));
    }
  }

  /** For every name: it is stored exactly when it is the first 63 characters of a name written at
      the start of a token and followed by '='. */
  lemma StoredIffWritten(text: string, name: string)
    ensures name in TextMap(text)
       <==> exists n, p :: FieldAt(text, n, p) && name == if |n| > 63 then n[..63] else n
  {
    StoredIffCut(text, name);
  }

  lemma StoredIffCut(text: string, name: string)
    ensures name in TextMap(text) <==> exists n, p :: FieldAt(text, n, p) && CutName(n) == name
  {
    hide Span, Runs, Fields, LastWins, CutName;
    if name in TextMap(text) {
      var n, p := NamesAreWritten(text, name);
    }
    if n, p :| FieldAt(text, n, p) && CutName(n) == name {
      var before, next := FieldHere(text, n, p);
      assert TextPairs(text)[|before|].name == name;
      Bound(TextPairs(text), |before|);
    }
  }

  /** No field stored under the same name is written after `p`. */
  ghost predicate LastFieldAt(text: string, n: string, p: nat) {
    && FieldAt(text, n, p)
    && forall m, q :: FieldAt(text, m, q) && CutName(m) == CutName(n) ==> q <= p
  }

  lemma FieldLater(text: string, from: nat, m: string, q: nat)
    requires from <= |text| && TokenStart(text, from) && FieldAt(text[from..], m, q)
    ensures FieldAt(text, m, from + q)
  {
    var t := m + ['='];
    assert text[from..][q..q + |t|] == text[from + q..from + q + |t|];
    assert q > 0 ==> text[from..][q - 1] == text[from + q - 1];
  }

  /** The stored value is the text behind the last such field, up to the next separator. */
  lemma StoredValue(text: string, n: string, p: nat) returns (end: nat)
    requires LastFieldAt(text, n, p)
    ensures p + |n| + 1 <= end <= |text|
    ensures forall i :: p + |n| + 1 <= i < end ==>
              text[i] != '&' && text[i] != '\r' && text[i] != '\n'
    ensures end < |text| ==> text[end] == '&' || text[end] == '\r' || text[end] == '\n'
    ensures var name := if |n| > 63 then n[..63] else n;
            name in TextMap(text) && TextMap(text)[name] == text[p + |n| + 1..end]
  {
    hide Span, Runs, Fields, LastWins;
    StoredValueAt(text, n, p);
    var from := p + |n| + 1;
    SpanStops(text[from..], SEP);
    var k := Span(text[from..], SEP);
    end := from + k;
    forall i | from <= i < end
      ensures text[i] !in SEP
    {
      assert text[from..][..k][i - from] == text[i];
    }
  }

  lemma StoredValueAt(text: string, n: string, p: nat)
    requires LastFieldAt(text, n, p)
    ensures CutName(n) in TextMap(text)
    ensures TextMap(text)[CutName(n)] == ValueAt(text, p + |n| + 1)
  {
    hide Span, Runs, Fields, LastWins, CutName;
    var name := CutName(n);
    var before, next := FieldHere(text, n, p);
    assert next == |text| ==> text[next..] == [];
    var after := TextPairs(text[next..]);
    forall m, q | FieldAt(text[next..], m, q)
      ensures CutName(m) != name
    {
      if next < |text| {
        FieldLater(text, next, m, q);
      }
    }
    StoredIffCut(text[next..], name);
    forall i | 0 <= i < |after|
      ensures after[i].name != name
    {
      Bound(after, i);
    }
    var all := TextPairs(text);
    assert LastAt(all, |before|, name) by {
      forall j | |before| < j < |all|
        ensures all[j].name != name
      {
        assert all[j] == after[j - |before| - 1];
      }
    }
    LastWinsMeaning(all, name);
  }

  /** strstr has no false negatives: every name stored from a token, cut or not, is found. */
  lemma NoFalseNegatives(text: string, name: string)
    requires name in TextMap(text)
    ensures Occurs(text, name)
  {
    hide Span, Runs, Fields, LastWins, Occurs;
    var n, p := NamesAreWritten(text, name);
    var t := n + ['='];
    assert text[p..p + |name|] == text[p..p + |t|][..|name|] == name;
    assert OccursAt(text, name, p);
    OccursIff(text, name);
  }

  /** It has false positives, as when a value contains the name. */
  lemma FalsePositive(maxLen: nat)
    requires maxLen >= 4
    ensures var m := Loaded(maxLen, "x=a"); Occurs(m.text, "a") && "a" !in m.fields
  {
    hide Runs, Fields, LastWins, Atoi, StrtoulUnsigned;
    var s := "x=a";
    assert Loaded(maxLen, s).text == s;
    assert OccursAt(s, "a", 2);
    OccursIff(s, "a");
    StoredIffWritten(s, "a");
    forall n, p | FieldAt(s, n, p)
      ensures CutName(n) != "a"
    {
      assert p == 0;
      assert s[..|n| + 1] == n + ['='];
      assert s[0] == (n + ['='])[0];
    }
    LoadedDependsOnKept(maxLen, s);
  }
}
