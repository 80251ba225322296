/** The message object of the source: a fixed body buffer, overwritten by each set_body, and the
    map and numbers extracted from it. */
module QModeMsgClass {
  import opened Text
  import opened Decimal
  import opened MessageCodec
  import opened CBuffers
  import opened FieldPlaces

  const ERROR_NO_FIELD: int := -123456789
  const ERROR_PARA_ILL: int := -4

  /** The fields that `set` stores beside the body. */
  datatype Envelope = Envelope(sockFd: nat, sockSeq: nat, msgSeq: nat, prot: nat, time: nat,
                               sockIp: nat, sockPort: nat)

  const NO_ENVELOPE := Envelope(0, 0, 0, 0, 0, 0, 0)

  /** The meaning of get_result on a text and its map: the error when the word result is nowhere in
      the text, else the number of that field, 0 when there is no such field. */
  ghost function ResultOf(text: string, fields: map<string, string>): int {
    if !(exists p :: OccursAt(text, RESULT, p)) then ERROR_NO_FIELD
    else if RESULT in fields then Atoi(fields[RESULT]) else 0
  }

  lemma NoNumber()
    ensures Atoi("") == 0
  {
  }

  class QModeMsg {
    const maxLen: nat         // QMSG_MAX_LEN, a build option
    const body: array<char>
    var bodyLen: nat
    var msgMap: map<string, string>
    var cmd: nat
    var uin: nat
    var rflag: nat
    var envelope: Envelope

    ghost predicate Valid()
      reads this
    {
      1 <= maxLen && body.Length == maxLen + 1 && bodyLen <= maxLen
    }

    /** A body has been stored: its terminator is at bodyLen, or one before when a trailing '\r'
        was cut off or when the body did not fit. */
    ghost predicate HasText()
      requires Valid()
      reads this, body
    {
      var z := |CStr(body[..])|;
      Holds(body[..], 0, z) && (z == bodyLen || z + 1 == bodyLen)
    }

    ghost function View(): Message
      requires Valid()
      reads this, body
    {
      Message(CStr(body[..]), bodyLen, msgMap, cmd, uin, rflag)
    }

    /** The default constructor; the body buffer stays uninitialised. */
    constructor (maxLen: nat)
      requires maxLen >= 1
      ensures Valid() && this.maxLen == maxLen && fresh(body)
      ensures bodyLen == 0 && msgMap == map[] && cmd == 0 && uin == 0 && rflag == 0
      ensures envelope == Envelope(0, 0, 0, 0, 0, 0, 0) && rflag == 0
    {
      this.maxLen := maxLen;
      body := new char[maxLen + 1];
      bodyLen := 0;
      msgMap := map[];
      cmd, uin, rflag := 0, 0, 0;
      envelope := NO_ENVELOPE;
    }

    /** set_body; `None` is NULL. */
    method SetBody(src: Option<CString>)
      requires Valid()
      modifies this, body
      ensures Valid() && envelope == old(envelope)
      ensures src.None? ==> View() == old(View()) && body[..] == old(body[..])
      ensures src.Some? ==> HasText() && View() == Loaded(maxLen, src.value)
      // what the buffer holds, spelled out
      ensures src.Some? ==> bodyLen == if |src.value| < maxLen then |src.value| else maxLen
      ensures src.Some? ==>
                var s := src.value;
                var kept := if |s| >= maxLen then maxLen - 1
                            else if s != [] && s[|s| - 1] == '\r' then |s| - 1 else |s|;
                body[..kept] == s[..kept] && body[kept] == '\0'
    {
      hide Runs, Fields, LastWins, Atoi, Span, CStr;
      if src.Some? {
        bodyLen := Snprintf(body, maxLen, src.value);
        if bodyLen > maxLen {
          bodyLen := maxLen;
        }
        CopyHolds(body[..], src.value, maxLen);
        ParseMsg();
        LoadedBody(maxLen, src.value);
        CStrEnds(body[..]);
      }
    }

    /** set. */
    method Set(src: Option<CString>, envelope: Envelope)
      requires Valid()
      modifies this, body
      ensures Valid() && this.envelope == envelope
      ensures src.None? ==> View() == old(View()) && body[..] == old(body[..])
      ensures src.Some? ==> HasText() && View() == Loaded(maxLen, src.value)
    {
      SetBody(src);
      this.envelope := envelope;
    }

    /** parse_msg. */
    method ParseMsg()
      requires Valid() && HasText()
      modifies this, body
      ensures Valid() && HasText() && envelope == old(envelope)
      ensures View() == Parsed(old(View())) && bodyLen == old(bodyLen)
      ensures body[..] == if old(bodyLen > 0 && body[bodyLen - 1] == '\r')
                          then old(body[..])[bodyLen - 1 := '\0'] else old(body[..])
    {
      hide TextMap, Atoi, ToUnsigned, StrtoulUnsigned, CStr, Holds, Touch, WithDefaults;
      ghost var before := body[..];
      msgMap := map[];
      if bodyLen > 0 && body[bodyLen - 1] == '\r' {
        body[bodyLen - 1] := NUL;
      }
      StripHolds(before, body[..], bodyLen);
      var text := CStr(body[..]);
      msgMap := ParseText(text, bodyLen + 1);
      DefaultsInTurn(msgMap);
      msgMap := Touch(msgMap, CMD);
      cmd := ToUnsigned(Atoi(msgMap[CMD]));
      msgMap := Touch(msgMap, UIN);
      uin := StrtoulUnsigned(msgMap[UIN]);
      msgMap := Touch(msgMap, RFLAG);
      rflag := ToUnsigned(Atoi(msgMap[RFLAG]));
    }

    /** get_result.  The error means that the word occurs nowhere in the body; looking the field up
        inserts it, empty, when it is absent. */
    method GetResult() returns (ret: int)
      requires Valid() && HasText()
      modifies this`msgMap
      ensures ret == ResultOf(CStr(body[..]), old(msgMap))
      ensures !(exists p :: OccursAt(CStr(body[..]), "result", p)) ==>
                ret == -123456789 && msgMap == old(msgMap)
      ensures (exists p :: OccursAt(CStr(body[..]), "result", p)) ==>
                && ret == (if "result" in old(msgMap) then Atoi(old(msgMap)["result"]) else 0)
                && msgMap.Keys == old(msgMap).Keys + {"result"}
                && (forall k :: k in old(msgMap) ==> msgMap[k] == old(msgMap)[k])
                && ("result" !in old(msgMap) ==> msgMap["result"] == "")
    {
      hide CStr, Occurs, Atoi;
      OccursIff(CStr(body[..]), RESULT);
      if !Occurs(CStr(body[..]), RESULT) {
        return ERROR_NO_FIELD;
      }
      msgMap := Touch(msgMap, RESULT);
      ret := Atoi(msgMap[RESULT]);
      NoNumber();
    }

    /** is_have. */
    method IsHave(name: Option<CString>) returns (ret: int)
      requires Valid() && HasText()
      ensures name.None? ==> ret == -4
      ensures name.Some? ==>
                ret == if exists p :: OccursAt(CStr(body[..]), name.value, p) then 0 else -1
    {
      hide CStr, Occurs;
      if name.None? {
        return ERROR_PARA_ILL;
      }
      OccursIff(CStr(body[..]), name.value);
      if !Occurs(CStr(body[..]), name.value) {
        return -1;
      }
      return 0;
    }
  }

  /** The tokenising loop of parse_msg, over a local copy of `size` characters that strtok_r
      destroys. */
  method ParseText(text: CString, size: nat) returns (fields: map<string, string>)
    requires |text| < size
    ensures fields == TextMap(text)
  {
    hide Runs, Fields, Field, LastWins, Span, CStr, Holds, TextPairs;
    fields := map[];
    var tmp := new char[size];
    var _ := Snprintf(tmp, size, text);
    ghost var z := |text|;
    ghost var done: seq<Pair> := [];
    CopyHolds(tmp[..], text, size);
    NoPairs();
    assert tmp[0..z] == text;
    var p, ptr := StrtokR(tmp, 0, SEP, z);
    TokenTaken(text, p, CStr(tmp[if p < 0 then 0 else p..]), tmp[ptr..z]);
    while p != -1
      invariant -1 <= p < tmp.Length && ptr <= z < tmp.Length && Holds(tmp[..], ptr, z)
      invariant fields == LastWins(done)
      invariant TextPairs(text)
             == done + if p == -1 then [] else Field(CStr(tmp[p..])) + TextPairs(tmp[ptr..z])
      decreases z - ptr, p
    {
      var token := CStr(tmp[p..]);
      ghost var rest := tmp[ptr..z];
      fields := StoreField(token, fields, done);
      done := done + Field(token);
      p, ptr := StrtokR(tmp, ptr, SEP, z);
      TokenTaken(rest, p, CStr(tmp[if p < 0 then 0 else p..]), tmp[ptr..z]);
    }
    assert done + [] == done;
  }

  /** The body of the loop: a token with '=' assigns one field, with its name cut to the buffer. */
  method StoreField(p: string, fields: map<string, string>, ghost done: seq<Pair>)
    returns (r: map<string, string>)
    requires fields == LastWins(done)
    ensures r == LastWins(done + Field(p))
  {
    hide LastWins, Span;
    r := fields;
    var s := Span(p, {'='});
    if s < |p| {
      var nameLen := if s > NAME_MAX then NAME_MAX else s;
      var name := p[..nameLen];
      assert name == CutName(p[..s]);
      r := r[name := p[s + 1..]];
      LastWinsSnoc(done, Pair(name, p[s + 1..]));
    } else {
      assert done + [] == done;
    }
  }

  lemma NoPairs()
    ensures LastWins([]) == map[]
  {
  }

  /** One strtok_r step, on the fields. */
  lemma TokenTaken(before: string, p: int, token: string, after: string)
    requires Runs(before, SEP) == if p < 0 then [] else [token] + Runs(after, SEP)
    ensures TextPairs(before) == if p < 0 then [] else Field(token) + TextPairs(after)
  {
    hide Runs, Fields, Field;
    FieldsCons(token, Runs(after, SEP));
  }

  /** After the bounded copy the buffer holds the kept part. */
  lemma CopyHolds(buffer: seq<char>, src: CString, size: nat)
    requires 1 <= size <= |buffer|
    requires var kept := |Kept(size, src)|;
             buffer[..kept] == src[..kept] && buffer[kept] == NUL
    ensures var kept := |Kept(size, src)|;
            CStr(buffer) == Kept(size, src) && Holds(buffer, 0, kept)
  {
    hide Span, CStr;
    var kept := |Kept(size, src)|;
    assert buffer[0..kept] == Kept(size, src);
    assert Free(buffer[0..kept], {NUL});
    CStrIs(buffer, 0, kept);
    assert buffer[0..] == buffer;
  }

  /** Cutting a trailing '\r' off the buffer is `Stripped` on the stored text. */
  lemma StripHolds(before: seq<char>, after: seq<char>, bodyLen: nat)
    requires bodyLen < |before|
    requires var z := |CStr(before)|;
             Holds(before, 0, z) && (z == bodyLen || z + 1 == bodyLen)
    requires after == if bodyLen > 0 && before[bodyLen - 1] == '\r' then before[bodyLen - 1 := NUL]
                      else before
    ensures CStr(after) == Stripped(CStr(before), bodyLen)
    ensures var z := |CStr(after)|;
            Holds(after, 0, z) && (z == bodyLen || z + 1 == bodyLen)
  {
    hide Span, CStr;
    var z := |CStr(before)|;
    CStrIs(before, 0, z);
    assert before[0..] == before;
    if bodyLen > 0 && before[bodyLen - 1] == '\r' {
      assert z == bodyLen;
      assert after[0..z - 1] == before[0..z][..z - 1];
      CStrIs(after, 0, z - 1);
      assert after[0..] == after;
    }
  }

  /** What get_result reports right after a body was stored: the number in the field if there is
      one, and 0 when the word occurs only outside a field.  It reports the error exactly when the
      word occurs nowhere, or when the field is there and its number is the error code itself. */
  lemma ResultAfterLoad(maxLen: nat, body: CString)
    requires maxLen >= 1
    ensures var m := Loaded(maxLen, body);
            var occurs := exists p :: OccursAt(m.text, RESULT, p);
            var ret := ResultOf(m.text, m.fields);
            && (RESULT in TextMap(m.text) ==> occurs && ret == Atoi(m.fields[RESULT]))
            && (occurs && RESULT !in TextMap(m.text) ==> ret == 0)
            && (ret == ERROR_NO_FIELD
                <==> !occurs || (RESULT in TextMap(m.text)
                                 && Atoi(m.fields[RESULT]) == ERROR_NO_FIELD))
  {
    hide Runs, Fields, LastWins, Occurs, Atoi;
    var m := Loaded(maxLen, body);
    LoadedIsParsed(maxLen, body);
    OccursIff(m.text, RESULT);
    if RESULT in TextMap(m.text) {
      NoFalseNegatives(m.text, RESULT);
    }
  }

  /** A body whose field holds the error code: present, and reported as absent. */
  lemma ErrorCodeAsValue(maxLen: nat)
    requires maxLen >= 18
    ensures var m := Loaded(maxLen, RESULT + ['='] + Print(ERROR_NO_FIELD));
            RESULT in TextMap(m.text) && ResultOf(m.text, m.fields) == ERROR_NO_FIELD
  {
    hide Runs, Fields, Field, LastWins, Atoi, Span, Numeral;
    var value := Print(ERROR_NO_FIELD);
    var body := RESULT + ['='] + value;
    PrintIsShort();
    var next := FieldFirst(body, RESULT);
    assert body[|RESULT| + 1..] == value;
    PrintFree(ERROR_NO_FIELD);
    assert value[..|value|] == value;
    SpanIs(value, SEP, |value|);
    assert next == |body| && body[next..] == [];
    RunsOfEmpty(SEP);
    FieldsCons([], []);
    var p := Pair(RESULT, value);
    assert TextPairs(body) == [p];
    LastWinsSnoc([], p);
    assert [] + [p] == [p];
    assert TextMap(body)[RESULT] == value;
    AtoiOfPrint(ERROR_NO_FIELD, []);
    assert value + [] == value;
    assert Free(body, {NUL});
    var m := Loaded(maxLen, body);
    assert m.text == body;
    LoadedIsParsed(maxLen, body);
    ResultAfterLoad(maxLen, body);
  }

  /** Printed numbers contain no separator and no terminator. */
  lemma PrintFree(n: int)
    ensures Free(Print(n), SEP) && Free(Print(n), {NUL}) && Print(n) != [] && Print(n)[|Print(n)| - 1] != '\r'
  {
    hide Numeral;
    var m: nat := if n < 0 then -n else n;
    NumeralIsDigits(m);
    assert forall i :: 0 <= i < |Print(n)| ==> Print(n)[i] == '-' || IsDigit(Print(n)[i]);
  }

  lemma PrintIsShort()
    ensures |Print(ERROR_NO_FIELD)| <= 10
  {
    NumeralLength(123456789, 9);
  }

  lemma {:induction false} NumeralLength(n: nat, digits: nat)
    requires digits >= 1 && n < Pow10(digits)
    ensures |Numeral(n)| <= digits
  {
    if n >= 10 {
      NumeralLength(n / 10, digits - 1);
    }
  }

  lemma LoadedIsParsed(maxLen: nat, body: CString)
    requires maxLen >= 1
    ensures var m := Loaded(maxLen, body); m.fields == WithDefaults(TextMap(m.text))
  {
  }

  /** After set_body every name stored from a token, with whatever value, is found by is_have. */
  lemma StoredNamesAreHad(maxLen: nat, body: CString, name: string)
    requires maxLen >= 1 && name in TextMap(Loaded(maxLen, body).text)
    ensures name in Loaded(maxLen, body).fields
    ensures exists p :: OccursAt(Loaded(maxLen, body).text, name, p)
  {
    hide Runs, Fields, LastWins, Occurs;
    var m := Loaded(maxLen, body);
    LoadedIsParsed(maxLen, body);
    NoFalseNegatives(m.text, name);
    OccursIff(m.text, name);
  }
}
