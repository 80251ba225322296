/** C strings in character arrays: the bounded copy and the destructive tokeniser. */
module CBuffers {
  import opened Text
  import opened MessageCodec

  /** The C string stored in a buffer: everything before the first terminator. */
  function CStr(buffer: seq<char>): CString {
    SpanStops(buffer, {NUL});
    buffer[..Span(buffer, {NUL})]
  }

  /** The string at `at` ends at `z`. */
  predicate Holds(buffer: seq<char>, at: nat, z: nat) {
    at <= z < |buffer| && buffer[z] == NUL && Free(buffer[at..z], {NUL})
  }

  lemma CStrIs(buffer: seq<char>, at: nat, z: nat)
    requires Holds(buffer, at, z)
    ensures CStr(buffer[at..]) == buffer[at..z]
  {
    hide Span;
    assert buffer[at..][..z - at] == buffer[at..z];
    SpanIs(buffer[at..], {NUL}, z - at);
  }

  lemma CStrEnds(buffer: seq<char>)
    ensures var z := |CStr(buffer)|;
            z < |buffer| ==> buffer[..z] == CStr(buffer) && buffer[z] == NUL
  {
    SpanStops(buffer, {NUL});
  }

  /** snprintf(dst, size, "%s", src): writes at most size - 1 characters and the terminator, and
      returns the full length of the source. */
  method Snprintf(dst: array<char>, size: nat, src: CString) returns (len: nat)
    requires 1 <= size <= dst.Length
    modifies dst
    ensures len == |src|
    ensures var kept := if |src| < size then |src| else size - 1;
            dst[..kept] == src[..kept] && dst[kept] == NUL
  {
    var i := 0;
    while i < |src| && i < size - 1
      invariant 0 <= i <= |src| && i <= size - 1
      invariant dst[..i] == src[..i]
    {
      dst[i] := src[i];
      i := i + 1;
    }
    dst[i] := NUL;
    len := |src|;
  }

  /** strspn: the end of the leading delimiters of the string at `start`. */
  method Strspn(buf: array<char>, start: nat, d: set<char>, ghost z: nat) returns (i: nat)
    requires Holds(buf[..], start, z)
    ensures start <= i <= z && Gap(buf[start..i], d)
    ensures i < z ==> buf[i] !in d
    ensures buf[i] == NUL <==> i == z
  {
    i := start;
    while buf[i] != NUL && buf[i] in d
      invariant start <= i <= z && Gap(buf[start..i], d)
      decreases z - i
    {
      EndIffNul(buf[..], start, z, i);
      i := i + 1;
    }
    EndIffNul(buf[..], start, z, i);
  }

  /** strcspn: the end of the characters of the string at `start` that are no delimiters. */
  method Strcspn(buf: array<char>, start: nat, d: set<char>, ghost z: nat) returns (end: nat)
    requires Holds(buf[..], start, z)
    ensures start <= end <= z && Free(buf[start..end], d)
    ensures end < z ==> buf[end] in d
    ensures buf[end] == NUL <==> end == z
  {
    end := start;
    while buf[end] != NUL && buf[end] !in d
      invariant start <= end <= z && Free(buf[start..end], d)
      decreases z - end
    {
      EndIffNul(buf[..], start, z, end);
      end := end + 1;
    }
    EndIffNul(buf[..], start, z, end);
  }

  /** strtok_r on the string at `start`, which ends at `z`.  Skips delimiters, cuts the buffer
      after the token by writing a terminator into it, and returns the start of the token, or -1
      for NULL, and the saved pointer. */
  method StrtokR(buf: array<char>, start: nat, d: set<char>, ghost z: nat)
    returns (tok: int, save: nat)
    requires Holds(buf[..], start, z)
    modifies buf
    ensures Holds(buf[..], save, z) && start <= save <= z < buf.Length
    ensures tok < buf.Length
    ensures tok < 0 ==> tok == -1 && Runs(old(buf[start..z]), d) == []
    ensures tok >= 0 ==>
              && start <= tok < save
              && Runs(old(buf[start..z]), d) == [CStr(buf[tok..])] + Runs(buf[save..z], d)
  {
    hide Span, Runs, CStr;
    ghost var before := buf[..];
    var i := Strspn(buf, start, d, z);
    HoldsLater(before, start, i, z);
    AfterGap(before, start, i, z, d);
    if buf[i] == NUL {
      tok, save := -1, i;
      return;
    }
    tok := i;
    var end := Strcspn(buf, i, d, z);
    FirstToken(before, i, end, z, d);
    if buf[end] == NUL {
      CStrIs(before, i, z);
      HoldsLater(before, start, z, z);
      save := end;
    } else {
      buf[end] := NUL;
      save := end + 1;
      AfterCut(before, buf[..], start, i, end, z);
    }
    assert buf[tok..] == buf[..][tok..] && buf[save..z] == buf[..][save..z];
  }

  lemma EndIffNul(buffer: seq<char>, start: nat, z: nat, i: nat)
    requires Holds(buffer, start, z) && start <= i <= z
    ensures buffer[i] == NUL <==> i == z
  {
    forall k | start <= k < z
      ensures buffer[k] != NUL
    {
      assert buffer[start..z][k - start] == buffer[k];
    }
  }

  /** The runs of a string do not depend on its leading delimiters. */
  lemma AfterGap(buffer: seq<char>, start: nat, i: nat, z: nat, d: set<char>)
    requires start <= i <= z < |buffer| && Gap(buffer[start..i], d)
    ensures Runs(buffer[start..z], d) == if i == z then [] else Runs(buffer[i..z], d)
  {
    hide Runs;
    SkipGap(buffer[start..i], buffer[i..z], d);
    assert buffer[start..z] == buffer[start..i] + buffer[i..z];
    RunsOfEmpty(d);
  }

  lemma HoldsLater(buffer: seq<char>, start: nat, i: nat, z: nat)
    requires Holds(buffer, start, z) && start <= i <= z
    ensures Holds(buffer, i, z)
  {
    forall k | 0 <= k < z - i
      ensures buffer[i..z][k] != NUL
    {
      assert buffer[i..z][k] == buffer[start..z][i - start + k];
    }
  }

  /** The runs of what is left when its first token is [i, end). */
  lemma FirstToken(buffer: seq<char>, i: nat, end: nat, z: nat, d: set<char>)
    requires i < z < |buffer| && buffer[i] !in d
    requires i <= end <= z && Free(buffer[i..end], d)
    requires end < z ==> buffer[end] in d
    ensures i < end
    ensures Runs(buffer[i..z], d)
         == [buffer[i..end]] + Runs(buffer[if end == z then z else end + 1..z], d)
  {
    hide Span, Runs;
    RunsOfEmpty(d);
    var left := buffer[i..z];
    assert left[..end - i] == buffer[i..end];
    SpanIs(left, d, end - i);
    RunsStep(left, d);
    if end < z {
      assert left[end - i + 1..] == buffer[end + 1..z];
    } else {
      assert buffer[z..z] == [];
    }
  }

  /** Writing the terminator behind the token separates it from the rest. */
  lemma AfterCut(before: seq<char>, after: seq<char>, start: nat, i: nat, end: nat, z: nat)
    requires Holds(before, start, z) && start <= i <= end < z && after == before[end := NUL]
    ensures CStr(after[i..]) == before[i..end]
    ensures Holds(after, end + 1, z) && after[end + 1..z] == before[end + 1..z]
  {
    hide Span, CStr;
    HoldsLater(before, start, end + 1, z);
    assert after[end + 1..z] == before[end + 1..z];
    assert after[i..end] == before[i..end];
    forall k | 0 <= k < end - i
      ensures after[i..end][k] != NUL
    {
      assert after[i..end][k] == before[start..z][i - start + k];
    }
    CStrIs(after, i, end);
  }
}
