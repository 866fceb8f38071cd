/** JSON values, their text, and a strict recursive reader of RFC 8259 (numbers without
    fraction or exponent). */
module Json {
  import opened CText
  import opened Decimal
  import opened Utf8
  import opened JsonString

  datatype Value =
    | Str(s: string)
    | Num(n: int)
    | Bool(b: bool)
    | Arr(elems: seq<Value>)
    | Obj(members: seq<Member>)

  datatype Member = Member(key: string, value: Value)

  // ----- text ----------------------------------------------------------------------------

  function Text(v: Value): (t: string)
    decreases v, 0
  {
    match v
    case Str(s) => PrintString(s)
    case Num(n) => DecInt(n)
    case Bool(b) => if b then "true" else "false"
    case Arr(elems) => "[" + ElemsText(elems) + "]"
    case Obj(members) => "{" + MembersText(members) + "}"
  }

  function ElemsText(vs: seq<Value>): (t: string)
    decreases vs
  {
    if |vs| == 0 then ""
    else if |vs| == 1 then Text(vs[0])
    else Text(vs[0]) + "," + ElemsText(vs[1..])
  }

  function MemberText(m: Member): (t: string)
    decreases m, 1
  {
    PrintString(m.key) + ":" + Text(m.value)
  }

  function MembersText(ms: seq<Member>): (t: string)
    decreases ms
  {
    if |ms| == 0 then ""
    else if |ms| == 1 then MemberText(ms[0])
    else MemberText(ms[0]) + "," + MembersText(ms[1..])
  }

  /** The value with every string sanitised. */
  function Sanitised(v: Value): (r: Value)
    decreases v, 0
  {
    match v
    case Str(s) => Str(Sanitise(s))
    case Num(_) => v
    case Bool(_) => v
    case Arr(elems) => Arr(SanitisedElems(elems))
    case Obj(members) => Obj(SanitisedMembers(members))
  }

  function SanitisedElems(vs: seq<Value>): (r: seq<Value>)
    ensures |r| == |vs| && forall i :: 0 <= i < |r| ==> r[i] == Sanitised(vs[i])
    decreases vs
  {
    if |vs| == 0 then [] else [Sanitised(vs[0])] + SanitisedElems(vs[1..])
  }

  function SanitisedMember(m: Member): (r: Member)
    decreases m, 1
  {
    Member(Sanitise(m.key), Sanitised(m.value))
  }

  function SanitisedMembers(ms: seq<Member>): (r: seq<Member>)
    ensures |r| == |ms| && forall i :: 0 <= i < |r| ==> r[i] == SanitisedMember(ms[i])
    decreases ms
  {
    if |ms| == 0 then [] else [SanitisedMember(ms[0])] + SanitisedMembers(ms[1..])
  }

  // ----- the reader ----------------------------------------------------------------------

  function SkipBlanks(t: string): (r: string)
    ensures |r| <= |t|
  {
    if |t| > 0 && IsWs(t[0]) then SkipBlanks(t[1..]) else t
  }

  /** The digits at the start of a text, and what follows them. */
  function TakeDigits(t: string): (r: (string, string))
    ensures |r.0| + |r.1| == |t|
    ensures forall i :: 0 <= i < |r.0| ==> IsDigit(r.0[i])
  {
    if |t| > 0 && IsDigit(t[0]) then ([t[0]] + TakeDigits(t[1..]).0, TakeDigits(t[1..]).1) else ("", t)
  }

  /** An unsigned integer without superfluous leading zeros. */
  function ReadDigits(t: string): (r: Parsed<nat>)
    ensures r.Good? ==> |r.rest| < |t|
  {
    var d := TakeDigits(t);
    if |d.0| == 0 || (|d.0| > 1 && d.0[0] == '0') then Bad else Good(Decimal.Value(d.0), d.1)
  }

  function ReadNumber(t: string): (r: Parsed<Value>)
    ensures r.Good? ==> |r.rest| < |t|
  {
    if |t| > 0 && t[0] == '-' then
      var r := ReadDigits(t[1..]);
      if r.Bad? then Bad else var n: int := r.value; Good(Num(-n), r.rest)
    else
      var r := ReadDigits(t);
      if r.Bad? then Bad else Good(Num(r.value), r.rest)
  }

  function ReadValue(t: string): (r: Parsed<Value>)
    ensures r.Good? ==> |r.rest| < |t|
    decreases |t|, 0
  {
    if |t| == 0 then Bad
    else if t[0] == '"' then
      var r := ReadString(t[1..]);
      if r.Bad? then Bad else Good(Str(r.value), r.rest)
    else if t[0] == '[' then ReadArr(SkipBlanks(t[1..]))
    else if t[0] == '{' then ReadObj(SkipBlanks(t[1..]))
    else if "true" <= t then Good(Bool(true), t[4..])
    else if "false" <= t then Good(Bool(false), t[5..])
    else ReadNumber(t)
  }

  /** The rest of an array, read behind its opening bracket. */
  function ReadArr(t: string): (r: Parsed<Value>)
    ensures r.Good? ==> |r.rest| < |t|
    decreases |t|, 2
  {
    if |t| > 0 && t[0] == ']' then Good(Arr([]), t[1..])
    else
      var r := ReadElems(t);
      if r.Bad? then Bad else Good(Arr(r.value), r.rest)
  }

  function ReadObj(t: string): (r: Parsed<Value>)
    ensures r.Good? ==> |r.rest| < |t|
    decreases |t|, 3
  {
    if |t| > 0 && t[0] == '}' then Good(Obj([]), t[1..])
    else
      var r := ReadMembers(t);
      if r.Bad? then Bad else Good(Obj(r.value), r.rest)
  }

  /** At least one element, up to and including the closing bracket. */
  function ReadElems(t: string): (r: Parsed<seq<Value>>)
    ensures r.Good? ==> |r.rest| < |t|
    decreases |t|, 1
  {
    var v := ReadValue(t);
    if v.Bad? then Bad
    else
      var u := SkipBlanks(v.rest);
      if |u| == 0 then Bad
      else if u[0] == ']' then Good([v.value], u[1..])
      else if u[0] != ',' then Bad
      else
        var r := ReadElems(SkipBlanks(u[1..]));
        if r.Bad? then Bad else Good([v.value] + r.value, r.rest)
  }

  function ReadMember(t: string): (r: Parsed<Member>)
    ensures r.Good? ==> |r.rest| < |t|
    decreases |t|, 1
  {
    if |t| == 0 || t[0] != '"' then Bad
    else
      var key := ReadString(t[1..]);
      if key.Bad? then Bad
      else
        var u := SkipBlanks(key.rest);
        if |u| == 0 || u[0] != ':' then Bad
        else
          var v := ReadValue(SkipBlanks(u[1..]));
          if v.Bad? then Bad else Good(Member(key.value, v.value), v.rest)
  }

  function ReadMembers(t: string): (r: Parsed<seq<Member>>)
    ensures r.Good? ==> |r.rest| < |t|
    decreases |t|, 2
  {
    var m := ReadMember(t);
    if m.Bad? then Bad
    else
      var u := SkipBlanks(m.rest);
      if |u| == 0 then Bad
      else if u[0] == '}' then Good([m.value], u[1..])
      else if u[0] != ',' then Bad
      else
        var r := ReadMembers(SkipBlanks(u[1..]));
        if r.Bad? then Bad else Good([m.value] + r.value, r.rest)
  }

  /** A whole JSON text: one value with nothing but blanks around it. */
  function ReadDocument(t: string): (r: Parsed<Value>) {
    var v := ReadValue(SkipBlanks(t));
    if v.Good? && |SkipBlanks(v.rest)| == 0 then Good(v.value, "") else Bad
  }

  // ----- the reader recovers what was printed --------------------------------------------

  /** What may follow a value: the end, or a character that no number continues with. */
  ghost predicate Delimited(rest: string) {
    |rest| > 0 ==> !IsDigit(rest[0])
  }

  lemma {:induction false} TakeDigitsOf(d: string, rest: string)
    requires forall i :: 0 <= i < |d| ==> IsDigit(d[i])
    requires Delimited(rest)
    ensures TakeDigits(d + rest) == (d, rest)
  {
    if |d| == 0 {
      assert d + rest == rest;
    } else {
      var t := d + rest;
      TakeDigitsOf(d[1..], rest);
      assert t[0] == d[0] && t[1..] == d[1..] + rest;
      assert [d[0]] + d[1..] == d;
    }
  }

  lemma DigitsRoundTrip(n: nat, rest: string)
    requires Delimited(rest)
    ensures ReadDigits(Dec(n) + rest) == Good(n, rest)
  {
    TakeDigitsOf(Dec(n), rest);
    ValueOfDec(n);
  }

  lemma NumberRoundTrip(n: int, rest: string)
    requires Delimited(rest)
    ensures ReadNumber(DecInt(n) + rest) == Good(Num(n), rest)
  {
    if n < 0 {
      NegativeRoundTrip(-n, rest);
    } else {
      DigitsRoundTrip(n, rest);
      assert (Dec(n) + rest)[0] == Dec(n)[0];
    }
  }

  lemma NegativeRoundTrip(n: nat, rest: string)
    requires Delimited(rest)
    ensures ReadNumber("-" + Dec(n) + rest) == Good(Num(0 - n), rest)
  {
    var t := "-" + Dec(n) + rest;
    DigitsRoundTrip(n, rest);
    var u := t[1..];
    assert u == Dec(n) + rest;
    assert t[0] == '-' && ReadDigits(u) == Good(n, rest);
  }

  /** The first character of a value's text: never a blank, and it tells the kind of value. */
  lemma FirstChar(v: Value)
    ensures |Text(v)| > 0 && !IsWs(Text(v)[0]) && Text(v)[0] != ']' && Text(v)[0] != '}'
    ensures v.Str? <==> Text(v)[0] == '"'
    ensures v.Arr? <==> Text(v)[0] == '['
    ensures v.Obj? <==> Text(v)[0] == '{'
    ensures v.Num? ==> IsDigit(Text(v)[0]) || Text(v)[0] == '-'
  {
    if v.Num? {
      assert DecInt(v.n)[0] == if v.n < 0 then '-' else Dec(v.n)[0];
    }
  }

  lemma NoBlank(t: string, rest: string)
    requires |t| > 0 && !IsWs(t[0])
    ensures SkipBlanks(t + rest) == t + rest
  {
  }

  lemma BoolRoundTrip(b: bool, rest: string)
    ensures ReadValue(Text(Bool(b)) + rest) == Good(Bool(b), rest)
  {
    var t := Text(Bool(b)) + rest;
    if b {
      assert "true" <= t && t[4..] == rest;
    } else {
      assert "false" <= t && t[5..] == rest;
    }
  }

  lemma StrRoundTrip(s: string, rest: string)
    ensures ReadValue(PrintString(s) + rest) == Good(Str(Sanitise(s)), rest)
  {
    var t := PrintString(s) + rest;
    assert t[1..] == Escape(s) + ("\"" + rest);
    StringRoundTrip(s, rest);
  }

  lemma NumRoundTrip(n: int, rest: string)
    requires Delimited(rest)
    ensures ReadValue(DecInt(n) + rest) == Good(Num(n), rest)
  {
    FirstChar(Num(n));
    var t := DecInt(n) + rest;
    assert t[0] == DecInt(n)[0];
    assert "true"[0] == 't' && "false"[0] == 'f';
    NumberRoundTrip(n, rest);
  }

  /** Reading the text of a value gives the value with its strings sanitised, and stops where
      the text stops, whatever follows. */
  lemma {:induction false} ValueRoundTrip(v: Value, rest: string)
    requires Delimited(rest)
    ensures ReadValue(Text(v) + rest) == Good(Sanitised(v), rest)
    decreases v, 0
  {
    match v
    case Str(s) => StrRoundTrip(s, rest);
    case Num(n) => NumRoundTrip(n, rest);
    case Bool(b) => BoolRoundTrip(b, rest);
    case Arr(elems) =>
      if |elems| == 0 {
        assert Text(v) + rest == "[" + ("]" + rest);
        EmptyArr(rest);
      } else {
        ElemsRoundTrip(elems, rest);
        ArrFrame(elems, rest);
      }
    case Obj(members) =>
      if |members| == 0 {
        assert Text(v) + rest == "{" + ("}" + rest);
        EmptyObj(rest);
      } else {
        MembersRoundTrip(members, rest);
        ObjFrame(members, rest);
      }
  }

  lemma EmptyArr(rest: string)
    ensures ReadValue("[" + ("]" + rest)) == Good(Arr([]), rest)
  {
    var t := "[" + ("]" + rest);
    assert t[1..] == "]" + rest && ("]" + rest)[1..] == rest;
  }

  lemma EmptyObj(rest: string)
    ensures ReadValue("{" + ("}" + rest)) == Good(Obj([]), rest)
  {
    var t := "{" + ("}" + rest);
    assert t[1..] == "}" + rest && ("}" + rest)[1..] == rest;
  }

  /** A bracket, a body that begins with no blank and no closing bracket, and what it reads as. */
  lemma ReadBracketed(body: string, vs: seq<Value>, rest: string)
    requires |body| > 0 && !IsWs(body[0]) && body[0] != ']'
    requires ReadElems(body) == Good(vs, rest)
    ensures ReadValue("[" + body) == Good(Arr(vs), rest)
  {
    var t := "[" + body;
    assert t[0] == '[' && t[1..] == body;
  }

  lemma ReadBraced(body: string, ms: seq<Member>, rest: string)
    requires |body| > 0 && !IsWs(body[0]) && body[0] != '}'
    requires ReadMembers(body) == Good(ms, rest)
    ensures ReadValue("{" + body) == Good(Obj(ms), rest)
  {
    var t := "{" + body;
    assert t[0] == '{' && t[1..] == body;
  }

  lemma ArrFrame(elems: seq<Value>, rest: string)
    requires |elems| > 0
    requires ReadElems(ElemsText(elems) + ("]" + rest)) == Good(SanitisedElems(elems), rest)
    ensures ReadValue(Text(Arr(elems)) + rest) == Good(Sanitised(Arr(elems)), rest)
  {
    var text := ElemsText(elems);
    var body := text + ("]" + rest);
    ElemsStart(elems);
    ReadBracketed(body, SanitisedElems(elems), rest);
    Assoc("[", text, "]" + rest);
    Assoc("[" + text, "]", rest);
  }

  lemma ObjFrame(members: seq<Member>, rest: string)
    requires |members| > 0
    requires ReadMembers(MembersText(members) + ("}" + rest)) == Good(SanitisedMembers(members), rest)
    ensures ReadValue(Text(Obj(members)) + rest) == Good(Sanitised(Obj(members)), rest)
  {
    var text := MembersText(members);
    var body := text + ("}" + rest);
    MembersStart(members);
    ReadBraced(body, SanitisedMembers(members), rest);
    Assoc("{", text, "}" + rest);
    Assoc("{" + text, "}", rest);
  }

  lemma ElemsStart(vs: seq<Value>)
    requires |vs| > 0
    ensures |ElemsText(vs)| > 0 && !IsWs(ElemsText(vs)[0]) && ElemsText(vs)[0] != ']'
  {
    FirstChar(vs[0]);
    assert ElemsText(vs)[0] == Text(vs[0])[0];
  }

  lemma MembersStart(ms: seq<Member>)
    requires |ms| > 0
    ensures |MembersText(ms)| > 0 && MembersText(ms)[0] == '"'
  {
    assert MemberText(ms[0])[0] == '"';
    assert MembersText(ms)[0] == MemberText(ms[0])[0];
  }

  /** A value, a comma and more elements. */
  lemma ReadElemsStep(t: string, v: Value, more: string, vs: seq<Value>, rest: string)
    requires ReadValue(t) == Good(v, "," + more)
    requires |more| > 0 && !IsWs(more[0]) && ReadElems(more) == Good(vs, rest)
    ensures ReadElems(t) == Good([v] + vs, rest)
  {
    assert ("," + more)[1..] == more;
  }

  lemma ReadMembersStep(t: string, m: Member, more: string, ms: seq<Member>, rest: string)
    requires ReadMember(t) == Good(m, "," + more)
    requires |more| > 0 && !IsWs(more[0]) && ReadMembers(more) == Good(ms, rest)
    ensures ReadMembers(t) == Good([m] + ms, rest)
  {
    assert ("," + more)[1..] == more;
  }

  lemma {:induction false} ElemsRoundTrip(vs: seq<Value>, rest: string)
    requires |vs| > 0
    ensures ReadElems(ElemsText(vs) + ("]" + rest)) == Good(SanitisedElems(vs), rest)
    decreases vs
  {
    var end := "]" + rest;
    if |vs| == 1 {
      ValueRoundTrip(vs[0], end);
      assert end[1..] == rest;
      assert SanitisedElems(vs) == [Sanitised(vs[0])];
    } else {
      var tail := ElemsText(vs[1..]);
      ValueRoundTrip(vs[0], "," + (tail + end));
      ElemsRoundTrip(vs[1..], rest);
      ElemsStart(vs[1..]);
      Assoc(Text(vs[0]), ",", tail + end);
      Assoc(Text(vs[0]) + ",", tail, end);
      ReadElemsStep(ElemsText(vs) + end, Sanitised(vs[0]), tail + end, SanitisedElems(vs[1..]), rest);
    }
  }

  lemma {:induction false} MemberRoundTrip(m: Member, rest: string)
    requires Delimited(rest)
    ensures ReadMember(MemberText(m) + rest) == Good(SanitisedMember(m), rest)
    decreases m, 1
  {
    var body, t := Text(m.value) + rest, MemberText(m) + rest;
    MemberStart(m, rest, t, body);
    FirstChar(m.value);
    NoBlank(Text(m.value), rest);
    ValueRoundTrip(m.value, rest);
    MemberRead(t, body, Sanitise(m.key), Sanitised(m.value), rest);
  }

  /** The key of a member is read up to its colon. */
  lemma {:induction false} MemberStart(m: Member, rest: string, t: string, body: string)
    requires t == MemberText(m) + rest && body == Text(m.value) + rest
    ensures |t| > 0 && t[0] == '"' && ReadString(t[1..]) == Good(Sanitise(m.key), ":" + body)
  {
    QuotedStart(Escape(m.key), Text(m.value), rest);
    StringRoundTrip(m.key, ":" + body);
  }

  /** What stands behind the opening quote of a key. */
  lemma {:induction false} QuotedStart(key: string, value: string, rest: string)
    ensures var t := (("\"" + key + "\"") + ":" + value) + rest;
            t[0] == '"' && t[1..] == key + ("\"" + (":" + (value + rest)))
  {
    var quoted := "\"" + key + "\"";
    Assoc(quoted + ":", value, rest);
    Assoc(quoted, ":", value + rest);
    Assoc("\"", key, "\"");
    Assoc("\"" + key, "\"", ":" + (value + rest));
    Assoc("\"", key, "\"" + (":" + (value + rest)));
  }

  lemma {:induction false} MemberRead(t: string, body: string, key: string, v: Value, rest: string)
    requires |t| > 0 && t[0] == '"' && ReadString(t[1..]) == Good(key, ":" + body)
    requires SkipBlanks(body) == body && ReadValue(body) == Good(v, rest)
    ensures ReadMember(t) == Good(Member(key, v), rest)
  {
    var after := ":" + body;
    assert after[0] == ':' && after[1..] == body;
  }

  lemma {:induction false} MembersRoundTrip(ms: seq<Member>, rest: string)
    requires |ms| > 0
    ensures ReadMembers(MembersText(ms) + ("}" + rest)) == Good(SanitisedMembers(ms), rest)
    decreases ms
  {
    var end := "}" + rest;
    if |ms| == 1 {
      MemberRoundTrip(ms[0], end);
      assert end[1..] == rest;
      assert SanitisedMembers(ms) == [SanitisedMember(ms[0])];
    } else {
      var tail := MembersText(ms[1..]);
      MemberRoundTrip(ms[0], "," + (tail + end));
      MembersRoundTrip(ms[1..], rest);
      MembersStart(ms[1..]);
      Assoc(MemberText(ms[0]), ",", tail + end);
      Assoc(MemberText(ms[0]) + ",", tail, end);
      ReadMembersStep(MembersText(ms) + end, SanitisedMember(ms[0]), tail + end, SanitisedMembers(ms[1..]), rest);
    }
  }

  /** The text of any value, followed by blanks only, is one JSON text. */
  lemma DocumentRoundTrip(v: Value)
    ensures ReadDocument(Text(v) + "\n") == Good(Sanitised(v), "")
  {
    FirstChar(v);
    NoBlank(Text(v), "\n");
    ValueRoundTrip(v, "\n");
    assert SkipBlanks("\n") == "";
  }
}
