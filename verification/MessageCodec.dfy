/** What a QMODE message means: the specification that `QModeMsg::parse_msg` is proved against. */
module MessageCodec {
  import opened Text
  import opened Decimal

  const NUL := '\0'

  /** A C string: the characters before its terminator. */
  type CString = s: string | Free(s, {NUL}) witness []

  /** The characters of QMSG_SEP. */
  const SEP: set<char> := {'&', '\r', '\n'}

  /** QMSG_NAME_LEN - 1, the longest name the fixed buffer holds. */
  const NAME_MAX: nat := 63

  const CMD := "cmd"
  const UIN := "uin"
  const RFLAG := "_rflag"
  const RESULT := "result"

  function CutName(name: string): string {
    if |name| > NAME_MAX then name[..NAME_MAX] else name
  }

  /** The field of one token: split at the first '=', or nothing if it has none. */
  function Field(token: string): seq<Pair> {
    var i := Span(token, {'='});
    if i == |token| then [] else [Pair(CutName(token[..i]), token[i + 1..])]
  }

  function Fields(tokens: seq<string>): seq<Pair> {
    if tokens == [] then [] else Field(tokens[0]) + Fields(tokens[1..])
  }

  lemma FieldsCons(token: string, tokens: seq<string>)
    ensures Fields([]) == [] && Fields([token] + tokens) == Field(token) + Fields(tokens)
  {
    assert ([token] + tokens)[1..] == tokens;
  }

  lemma {:induction false} FieldsAppend(a: seq<string>, b: seq<string>)
    ensures Fields(a + b) == Fields(a) + Fields(b)
  {
    if a == [] {
      assert a + b == b;
    } else {
      assert (a + b)[1..] == a[1..] + b;
      FieldsAppend(a[1..], b);
    }
  }

  /** The fields of a text, token by token. */
  function TextPairs(text: string): seq<Pair> {
    Fields(Runs(text, SEP))
  }

  function TextMap(text: string): map<string, string> {
    LastWins(TextPairs(text))
  }

  /** operator[] on an absent key inserts it with an empty value. */
  function Touch(m: map<string, string>, key: string): map<string, string> {
    if key in m then m else m[key := ""]
  }

  function WithDefaults(m: map<string, string>): map<string, string> {
    Touch(Touch(Touch(m, CMD), UIN), RFLAG)
  }

  /** The three look-ups one after the other, as parse_msg makes them. */
  lemma DefaultsInTurn(m: map<string, string>)
    ensures var a := Touch(m, CMD);
            var b := Touch(a, UIN);
            var d := WithDefaults(m);
            && d == Touch(b, RFLAG) && CMD in a && UIN in b && RFLAG in d
            && a[CMD] == d[CMD] && b[UIN] == d[UIN]
  {
  }

  /** The observable content of a message: its stored text, body_len_, msg_map_ and the extracted
      numbers. */
  datatype Message = Message(text: string, bodyLen: nat, fields: map<string, string>,
                             cmd: nat, uin: nat, rflag: nat)

  /** The text after the trailing '\r' at body_len_ - 1, if that is its last character, is gone. */
  function Stripped(text: string, bodyLen: nat): string {
    if text != [] && |text| == bodyLen && text[bodyLen - 1] == '\r' then text[..bodyLen - 1] else text
  }

  /** The effect of parse_msg. */
  function Parsed(m: Message): Message {
    var text := Stripped(m.text, m.bodyLen);
    var fields := WithDefaults(TextMap(text));
    Message(text, m.bodyLen, fields,
            ToUnsigned(Atoi(fields[CMD])), StrtoulUnsigned(fields[UIN]),
            ToUnsigned(Atoi(fields[RFLAG])))
  }

  /** What the bounded copy keeps of a body. */
  function Kept(maxLen: nat, body: string): string
    requires maxLen >= 1
  {
    if |body| < maxLen then body else body[..maxLen - 1]
  }

  /** The effect of set_body on a non-NULL body. */
  function Loaded(maxLen: nat, body: CString): Message
    requires maxLen >= 1
  {
    Parsed(Message(Kept(maxLen, body), if |body| < maxLen then |body| else maxLen, map[], 0, 0, 0))
  }

  // ------------------------------------------------------------------ reuse

  /** Parsing again changes nothing, although body_len_ still counts the stripped character. */
  lemma ParsedIdempotent(m: Message)
    ensures Parsed(Parsed(m)) == Parsed(m)
  {
    hide Runs, Fields, LastWins, Atoi;
  }

  lemma StrippedSameFields(text: string, bodyLen: nat)
    ensures TextPairs(Stripped(text, bodyLen)) == TextPairs(text)
  {
    hide Span, Runs, Fields;
    var t := Stripped(text, bodyLen);
    if t != text {
      RunsTrailing(t, '\r', SEP);
      assert text == t + ['\r'];
    }
  }

  /** The fields and numbers depend on the kept characters alone. */
  lemma LoadedDependsOnKept(maxLen: nat, body: CString)
    requires maxLen >= 1
    ensures var m := Loaded(maxLen, body);
            && m.fields == WithDefaults(TextMap(Kept(maxLen, body)))
            && m.cmd == ToUnsigned(Atoi(m.fields[CMD]))
            && m.uin == StrtoulUnsigned(m.fields[UIN])
            && m.rflag == ToUnsigned(Atoi(m.fields[RFLAG]))
  {
    hide Runs, Fields, LastWins, Atoi;
    StrippedSameFields(Kept(maxLen, body), if |body| < maxLen then |body| else maxLen);
  }

  /** What a load keeps of a body: body_len_ counts all of it up to the limit; the text is the body
      without a final '\r' if it fits, and its beginning if it does not. */
  lemma LoadedBody(maxLen: nat, body: CString)
    requires maxLen >= 1
    ensures var m := Loaded(maxLen, body);
            && m.bodyLen == (if |body| < maxLen then |body| else maxLen)
            && m.text == if |body| >= maxLen then body[..maxLen - 1]
                         else if body != [] && body[|body| - 1] == '\r' then body[..|body| - 1]
                         else body
  {
    hide Runs, Fields, LastWins, Atoi;
  }

  /** The fields of a loaded message are those of its text, and the three that parsing looks up are
      there with an empty value when the text has none. */
  lemma LoadedFields(maxLen: nat, body: CString, key: string)
    requires maxLen >= 1
    ensures var m := Loaded(maxLen, body);
            && (key in m.fields
                <==> key in TextMap(m.text) || key == "cmd" || key == "uin" || key == "_rflag")
            && (key in TextMap(m.text) ==> m.fields[key] == TextMap(m.text)[key])
            && (key in m.fields && key !in TextMap(m.text) ==> m.fields[key] == "")
  {
    hide Runs, Fields, LastWins, Atoi;
  }

  /** The numbers of a loaded message: command and flag are their fields as read by atoi, modulo
      2^32; so is the user, unless it has more than 64 bits, when it is the largest one. */
  lemma LoadedNumbers(maxLen: nat, body: CString)
    requires maxLen >= 1
    ensures var m := Loaded(maxLen, body);
            && "cmd" in m.fields && "uin" in m.fields && "_rflag" in m.fields
            && 0 <= m.cmd < 0x1_0000_0000 && (Atoi(m.fields["cmd"]) - m.cmd) % 0x1_0000_0000 == 0
            && 0 <= m.rflag < 0x1_0000_0000
            && (Atoi(m.fields["_rflag"]) - m.rflag) % 0x1_0000_0000 == 0
            && var v := Atoi(m.fields["uin"]);
               if -0xFFFF_FFFF_FFFF_FFFF <= v <= 0xFFFF_FFFF_FFFF_FFFF then
                 0 <= m.uin < 0x1_0000_0000 && (v - m.uin) % 0x1_0000_0000 == 0
               else m.uin == 0xFFFF_FFFF
  {
    hide Runs, Fields, LastWins, Atoi, ToUnsigned, StrtoulUnsigned;
    var m := Loaded(maxLen, body);
    LoadedDependsOnKept(maxLen, body);
    ToUnsignedWraps(Atoi(m.fields["cmd"]), m.cmd);
    ToUnsignedWraps(Atoi(m.fields["_rflag"]), m.rflag);
    StrtoulWraps(m.fields["uin"], Atoi(m.fields["uin"]));
    ToUnsignedWraps(Atoi(m.fields["uin"]), m.uin);
  }

  /** The message after a sequence of set_body calls; NULL bodies are ignored. */
  function AfterSets(maxLen: nat, m: Message, bodies: seq<Option<CString>>): Message
    requires maxLen >= 1
  {
    if bodies == [] then m
    else
      var before := AfterSets(maxLen, m, bodies[..|bodies| - 1]);
      match bodies[|bodies| - 1]
      case None => before
      case Some(body) => Loaded(maxLen, body)
  }

  ghost predicate LastBody(bodies: seq<Option<CString>>, i: int) {
    && 0 <= i < |bodies| && bodies[i].Some?
    && forall j :: i < j < |bodies| ==> bodies[j].None?
  }

  /** Reuse does not leak: whatever the message held and was set to before, its fields and numbers
      are those of the kept part of the last non-NULL body. */
  lemma {:induction false} ReuseDoesNotLeak(maxLen: nat, m: Message, bodies: seq<Option<CString>>,
                                            i: nat)
    requires maxLen >= 1 && LastBody(bodies, i)
    ensures var r := AfterSets(maxLen, m, bodies);
            && r.fields == WithDefaults(TextMap(Kept(maxLen, bodies[i].value)))
            && r.cmd == ToUnsigned(Atoi(r.fields[CMD]))
            && r.uin == StrtoulUnsigned(r.fields[UIN])
            && r.rflag == ToUnsigned(Atoi(r.fields[RFLAG]))
  {
    hide Runs, Fields, LastWins, Atoi, Loaded, WithDefaults, StrtoulUnsigned;
    if i == |bodies| - 1 {
      LoadedDependsOnKept(maxLen, bodies[i].value);
    } else {
      ReuseDoesNotLeak(maxLen, m, bodies[..|bodies| - 1], i);
    }
  }
}
