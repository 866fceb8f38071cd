/** Well-formed fwupd security reports, and what each of the two readers sees in one.

    A report is a tree of attributes and fields with free layout; its text is what the
    readers get. The meaning of an attribute is read off the tree, never off the text. */
module FwupdReport {
  import opened CText
  import opened QuotedTokens
  import opened HsiReaders

  /** The white space on either side of a colon. */
  datatype Sep = Sep(before: string, after: string)

  /** One member of an attribute object. `tail`, `sep` and `rest` hold everything up to the
      next quote: commas, brackets, white space, numbers, `true` and `false`. */
  datatype Field =
    | StringField(key: string, colon: Sep, value: string, tail: string)
    | ListField(key: string, sep: string, items: seq<Tok>)
    | PlainField(key: string, rest: string)

  datatype Attribute = Attribute(colon: Sep, id: string, tail: string, fields: seq<Field>)

  // ----- the text of a report ------------------------------------------------------------

  function SepText(s: Sep): (t: string) {
    s.before + ":" + s.after
  }

  function FieldToks(f: Field): (ts: seq<Tok>)
    ensures |ts| > 0 && ts[0].str == f.key
  {
    match f
    case StringField(key, colon, value, tail) => [Tok(key, SepText(colon)), Tok(value, tail)]
    case ListField(key, sep, items) => [Tok(key, sep)] + items
    case PlainField(key, rest) => [Tok(key, rest)]
  }

  function FieldsToks(fs: seq<Field>): (ts: seq<Tok>) {
    FlatMap(FieldToks, fs)
  }

  function AttrToks(a: Attribute): (ts: seq<Tok>) {
    [Tok("AppstreamId", SepText(a.colon)), Tok(a.id, a.tail)] + FieldsToks(a.fields)
  }

  function ReportToks(attrs: seq<Attribute>): (ts: seq<Tok>) {
    FlatMap(AttrToks, attrs)
  }

  /** Everything before the first attribute, then the attributes. */
  function ReportText(lead: string, head: seq<Tok>, attrs: seq<Attribute>): (json: string) {
    lead + Doc(head + ReportToks(attrs))
  }

  // ----- the meaning of a report ---------------------------------------------------------

  ghost predicate HasField(fs: seq<Field>, key: string) {
    exists i :: 0 <= i < |fs| && fs[i].key == key
  }

  /** The attribute carries the flag "success". */
  ghost predicate AttrPassing(a: Attribute) {
    exists i, j :: 0 <= i < |a.fields| && a.fields[i].key == "Flags" && a.fields[i].ListField?
      && 0 <= j < |a.fields[i].items| && a.fields[i].items[j].str == "success"
  }

  /** The attribute's "HsiResult". */
  ghost predicate AttrResult(a: Attribute, result: string) {
    exists i :: 0 <= i < |a.fields| && a.fields[i].key == "HsiResult" && a.fields[i].StringField?
      && a.fields[i].value == result
  }

  /** The attribute's "HsiResultSuccess". */
  ghost predicate AttrSuccess(a: Attribute, success: string) {
    exists i :: 0 <= i < |a.fields| && a.fields[i].key == "HsiResultSuccess" && a.fields[i].StringField?
      && a.fields[i].value == success
  }

  /** The brackets of a list, and what stands between and around them. */
  ghost predicate ListInner(f: Field, pre: string, inner: string, post: string) {
    && f.ListField? && '[' !in pre && ']' !in inner
    && f.sep + Doc(f.items) == pre + ("[" + (inner + ("]" + post)))
  }

  /** Neither passing nor inapplicable. */
  ghost predicate AttrWeak(a: Attribute) {
    !AttrPassing(a) && !AttrResult(a, NOT_SUPPORTED)
  }

  // ----- well-formedness -----------------------------------------------------------------

  predicate IsKeyName(s: string) {
    s == "AppstreamId" || s == "Flags" || s == "HsiResult" || s == "HsiResultSuccess"
  }

  predicate IsWord(s: string) {
    IsKeyName(s) || s == "success"
  }

  ghost predicate AllWs(s: string) {
    forall i :: 0 <= i < |s| ==> IsWs(s[i])
  }

  ghost predicate WsSep(s: Sep) {
    AllWs(s.before) && AllWs(s.after)
  }

  ghost predicate GoodToks(ts: seq<Tok>) {
    forall i :: 0 <= i < |ts| ==> '"' !in ts[i].str && '"' !in ts[i].gap && !IsWord(ts[i].gap)
  }

  /** No value is spelled like a key name, and "success" stands only in the Flags list. */
  ghost predicate WellFormedField(f: Field) {
    && f.key != "AppstreamId" && f.key != "success"
    && (f.key == "HsiResult" || f.key == "HsiResultSuccess" ==> f.StringField?)
    && (f.key == "Flags" ==> f.ListField?)
    && (f.StringField? ==> WsSep(f.colon) && !IsWord(f.value))
    && (f.ListField? ==>
          forall j :: 0 <= j < |f.items| ==>
            !IsKeyName(f.items[j].str) && (f.key != "Flags" ==> f.items[j].str != "success"))
  }

  ghost predicate WellFormedAttr(a: Attribute) {
    && WsSep(a.colon) && !IsWord(a.id)
    && GoodToks(AttrToks(a))
    && (forall i :: 0 <= i < |a.fields| ==> WellFormedField(a.fields[i]))
    && (forall i, j :: 0 <= i < j < |a.fields| ==> a.fields[i].key != a.fields[j].key)
    && HasField(a.fields, "HsiResult")
  }

  ghost predicate WellFormedReport(lead: string, head: seq<Tok>, attrs: seq<Attribute>) {
    && '"' !in lead
    && GoodToks(head) && (forall i :: 0 <= i < |head| ==> head[i].str != "AppstreamId")
    && (forall i :: 0 <= i < |attrs| ==> WellFormedAttr(attrs[i]))
    && (forall i, j :: 0 <= i < j < |attrs| ==> attrs[i].id != attrs[j].id)
  }

  // ----- where the keys of one attribute stand -------------------------------------------

  lemma GoodIsClean(ts: seq<Tok>, key: string)
    requires GoodToks(ts) && IsWord(key)
    ensures CleanFor(ts, key)
  {
  }

  lemma KeyIndexIs(ts: seq<Tok>, key: string, from: nat, p: nat)
    requires from <= p <= |ts|
    requires p < |ts| ==> ts[p].str == key
    requires forall j :: from <= j < p ==> ts[j].str != key
    ensures KeyIndex(ts, key, from) == p
  {
  }

  ghost predicate Lacks(ts: seq<Tok>, key: string) {
    forall i :: 0 <= i < |ts| ==> ts[i].str != key
  }

  /** A field that is not called by a key name does not spell it anywhere. */
  lemma FieldLacks(f: Field, key: string)
    requires WellFormedField(f) && IsKeyName(key) && f.key != key
    ensures Lacks(FieldToks(f), key)
  {
  }

  lemma FieldLacksSuccess(f: Field)
    requires WellFormedField(f) && f.key != "Flags"
    ensures Lacks(FieldToks(f), "success")
  {
  }

  lemma {:induction false} FieldsLack(fs: seq<Field>, key: string)
    requires forall f :: f in fs ==> Lacks(FieldToks(f), key)
    ensures Lacks(FieldsToks(fs), key)
  {
    if |fs| > 0 {
      FieldsLack(fs[1..], key);
    }
  }

  /** The token index of field `i` inside its attribute. */
  function FieldAt(a: Attribute, i: nat): (k: nat)
    requires i < |a.fields|
  {
    2 + |FieldsToks(a.fields[..i])|
  }

  lemma AttrSplit(a: Attribute, i: nat)
    requires i < |a.fields|
    ensures FieldAt(a, i) + |FieldToks(a.fields[i])| <= |AttrToks(a)|
    ensures AttrToks(a)[2..FieldAt(a, i)] == FieldsToks(a.fields[..i])
    ensures AttrToks(a)[FieldAt(a, i)..] == FieldToks(a.fields[i]) + FieldsToks(a.fields[i + 1..])
  {
    FlatMapSplit(FieldToks, a.fields, i);
  }

  /** A key name other than the id key is found at its field, wherever the search starts
      among the first three tokens; it is not found when there is no such field. */
  lemma {:induction false} KeyOfAttr(a: Attribute, key: string, from: nat)
    requires WellFormedAttr(a) && IsKeyName(key) && key != "AppstreamId" && from <= 2
    ensures forall i :: 0 <= i < |a.fields| && a.fields[i].key == key ==>
      KeyIndex(AttrToks(a), key, from) == FieldAt(a, i) < |AttrToks(a)|
    ensures !HasField(a.fields, key) ==> KeyIndex(AttrToks(a), key, from) == |AttrToks(a)|
  {
    var ts := AttrToks(a);
    forall i | 0 <= i < |a.fields| && a.fields[i].key == key
      ensures KeyIndex(ts, key, from) == FieldAt(a, i) < |ts|
    {
      AttrSplit(a, i);
      forall g | g in a.fields[..i]
        ensures Lacks(FieldToks(g), key)
      {
        FieldLacks(g, key);
      }
      FieldsLack(a.fields[..i], key);
      assert ts[FieldAt(a, i)] == ts[FieldAt(a, i)..][0];
      forall j | 2 <= j < FieldAt(a, i)
        ensures ts[j].str != key
      {
        assert ts[j] == ts[2..FieldAt(a, i)][j - 2];
      }
      KeyIndexIs(ts, key, from, FieldAt(a, i));
    }
    if !HasField(a.fields, key) {
      forall g | g in a.fields
        ensures Lacks(FieldToks(g), key)
      {
        FieldLacks(g, key);
      }
      FieldsLack(a.fields, key);
      KeyIndexIs(ts, key, from, |ts|);
    }
  }

  /** The next id key after the own one is outside the attribute. */
  lemma NoInnerId(a: Attribute)
    requires WellFormedAttr(a)
    ensures KeyIndex(AttrToks(a), "AppstreamId", 1) == |AttrToks(a)|
    ensures KeyIndex(AttrToks(a), "AppstreamId", 2) == |AttrToks(a)|
  {
    forall g | g in a.fields
      ensures Lacks(FieldToks(g), "AppstreamId")
    {
      FieldLacks(g, "AppstreamId");
    }
    FieldsLack(a.fields, "AppstreamId");
    KeyIndexIs(AttrToks(a), "AppstreamId", 1, |AttrToks(a)|);
    KeyIndexIs(AttrToks(a), "AppstreamId", 2, |AttrToks(a)|);
  }

  /** What both readers compute at the level of tokens. */
  predicate TokPassing(ts: seq<Tok>, from: nat)
    requires from <= |ts|
  {
    var flags := KeyIndex(ts, "Flags", from);
    flags < |ts| && KeyIndex(ts, "success", flags) < |ts|
  }

  lemma {:induction false} TokPassingIsPassing(a: Attribute, from: nat)
    requires WellFormedAttr(a) && from <= 2
    ensures TokPassing(AttrToks(a), from) <==> AttrPassing(a)
  {
    KeyOfAttr(a, "Flags", from);
    if HasField(a.fields, "Flags") {
      var i :| 0 <= i < |a.fields| && a.fields[i].key == "Flags";
      SuccessOfFlags(a, i);
      PassingIs(a, i);
    }
  }

  lemma {:induction false} PassingIs(a: Attribute, i: nat)
    requires WellFormedAttr(a) && i < |a.fields| && a.fields[i].key == "Flags"
    ensures a.fields[i].ListField?
    ensures AttrPassing(a) <==> exists j :: 0 <= j < |a.fields[i].items| && a.fields[i].items[j].str == "success"
  {
    assert WellFormedField(a.fields[i]);
  }

  lemma {:induction false} SuccessOfFlags(a: Attribute, i: nat)
    requires WellFormedAttr(a) && i < |a.fields| && a.fields[i].key == "Flags"
    ensures FieldAt(a, i) <= |AttrToks(a)|
    ensures KeyIndex(AttrToks(a), "success", FieldAt(a, i)) < |AttrToks(a)| <==>
      exists j :: 0 <= j < |a.fields[i].items| && a.fields[i].items[j].str == "success"
  {
    var ts, p, f := AttrToks(a), FieldAt(a, i), a.fields[i];
    AttrSplit(a, i);
    forall g | g in a.fields[i + 1..]
      ensures Lacks(FieldToks(g), "success")
    {
      FieldLacksSuccess(g);
    }
    FieldsLack(a.fields[i + 1..], "success");
    SuccessAmong(ts, p, f, FieldsToks(a.fields[i + 1..]));
  }

  lemma {:induction false} SuccessAmong(ts: seq<Tok>, p: nat, f: Field, others: seq<Tok>)
    requires p <= |ts| && f.ListField? && f.key != "success" && Lacks(others, "success")
    requires ts[p..] == [Tok(f.key, f.sep)] + f.items + others
    ensures KeyIndex(ts, "success", p) < |ts| <==> exists j :: 0 <= j < |f.items| && f.items[j].str == "success"
  {
    var k := KeyIndex(ts, "success", p);
    if k < |ts| {
      assert ts[k] == ts[p..][k - p];
      assert 0 < k - p <= |f.items| && ts[k] == f.items[k - p - 1];
    }
    if j :| 0 <= j < |f.items| && f.items[j].str == "success" {
      assert ts[p + (1 + j)] == ts[p..][1 + j] == f.items[j];
    }
  }

  // ----- one attribute in the text of a report -------------------------------------------

  /** The attribute occupies the tokens from `b` on, and an attribute or the end follows. */
  ghost predicate Placed(lead: string, ts: seq<Tok>, b: nat, a: Attribute) {
    var n := |AttrToks(a)|;
    && '"' !in lead && GoodToks(ts) && WellFormedAttr(a)
    && b + n <= |ts| && ts[b..b + n] == AttrToks(a)
    && (b + n < |ts| ==> ts[b + n].str == "AppstreamId")
  }

  /** Searching in a stretch of tokens and in all of them. */
  lemma KeyIndexWindow(ts: seq<Tok>, mid: seq<Tok>, b: nat, key: string, from: nat)
    requires b + |mid| <= |ts| && ts[b..b + |mid|] == mid && from <= |mid|
    ensures var k := KeyIndex(mid, key, from);
      if k < |mid| then KeyIndex(ts, key, b + from) == b + k
      else KeyIndex(ts, key, b + from) >= b + |mid|
  {
    var k := KeyIndex(mid, key, from);
    forall j | b + from <= j < b + k
      ensures ts[j].str != key
    {
      assert mid[j - b] == ts[j];
    }
    if k < |mid| {
      assert mid[k] == ts[b + k];
    }
  }

  /** Token positions compare like token indices. */
  lemma PosBefore(lead: string, ts: seq<Tok>, j: nat, k: nat)
    requires j <= |ts| && k <= |ts|
    ensures Pos(lead, ts, j) < Pos(lead, ts, k) <==> j < k
  {
    if j < k {
      PosMonotone(lead, ts, j, k);
    } else {
      PosMonotone(lead, ts, k, j);
    }
  }

  lemma {:induction false} IdKeys(lead: string, ts: seq<Tok>, b: nat, a: Attribute, end: nat)
    requires Placed(lead, ts, b, a) && end == b + |AttrToks(a)|
    ensures Pos(lead, ts, b) + |ID_KEY| <= |lead + Doc(ts)|
    ensures IndexOf(lead + Doc(ts), ID_KEY, Pos(lead, ts, b) + |ID_KEY|) == Pos(lead, ts, end)
  {
    IdToks(ts, b, a);
    NextIdToken(ts, b, a);
    AfterIdToken(lead, ts, b, end);
  }

  lemma NextIdToken(ts: seq<Tok>, b: nat, a: Attribute)
    requires WellFormedAttr(a)
    requires b + |AttrToks(a)| <= |ts| && ts[b..b + |AttrToks(a)|] == AttrToks(a)
    requires b + |AttrToks(a)| < |ts| ==> ts[b + |AttrToks(a)|].str == "AppstreamId"
    ensures KeyIndex(ts, "AppstreamId", b + 1) == b + |AttrToks(a)|
    ensures KeyIndex(ts, "AppstreamId", b + 2) == b + |AttrToks(a)|
  {
    NoInnerId(a);
    KeyIndexWindow(ts, AttrToks(a), b, "AppstreamId", 1);
    KeyIndexIs(ts, "AppstreamId", b + 1, b + |AttrToks(a)|);
    KeyIndexIs(ts, "AppstreamId", b + 2, b + |AttrToks(a)|);
  }

  /** The search for the next record, from just behind the id of this one. */
  lemma {:induction false} NextRecord(lead: string, ts: seq<Tok>, b: nat, a: Attribute, end: nat)
    requires Placed(lead, ts, b, a) && end == b + |AttrToks(a)|
    ensures AfterId(lead, ts, b, a) <= |lead + Doc(ts)|
    ensures IndexOf(lead + Doc(ts), ID_KEY, AfterId(lead, ts, b, a)) == Pos(lead, ts, end)
  {
    IdToks(ts, b, a);
    NextIdToken(ts, b, a);
    AfterIdToken(lead, ts, b + 1, end);
  }

  lemma AfterIdToken(lead: string, ts: seq<Tok>, i: nat, end: nat)
    requires GoodToks(ts) && i < |ts| && '"' !in lead && KeyIndex(ts, "AppstreamId", i + 1) == end <= |ts|
    ensures Pos(lead, ts, i) + |Quoted(ts[i].str)| <= |lead + Doc(ts)|
    ensures IndexOf(lead + Doc(ts), ID_KEY, Pos(lead, ts, i) + |Quoted(ts[i].str)|) == Pos(lead, ts, end)
  {
    GoodIsClean(ts, "AppstreamId");
    FindAfterToken(lead, ts, "AppstreamId", i);
  }

  /** A text position from which both the flags and the result are found as if the search
      had started at token `m`. */
  ghost predicate SearchesFrom(json: string, lead: string, ts: seq<Tok>, from: nat, m: nat) {
    from <= |json| && m <= |ts|
    && IndexOf(json, FLAGS_KEY, from) == Pos(lead, ts, KeyIndex(ts, "Flags", m))
    && IndexOf(json, RESULT_KEY, from) == Pos(lead, ts, KeyIndex(ts, "HsiResult", m))
  }

  lemma SearchFromToken(lead: string, ts: seq<Tok>, m: nat)
    requires GoodToks(ts) && m <= |ts|
    ensures SearchesFrom(lead + Doc(ts), lead, ts, Pos(lead, ts, m), m)
  {
    GoodIsClean(ts, "Flags");
    GoodIsClean(ts, "HsiResult");
    FindFromToken(lead, ts, "Flags", m);
    FindFromToken(lead, ts, "HsiResult", m);
  }

  lemma SearchAfterToken(lead: string, ts: seq<Tok>, m: nat, next: nat, from: nat)
    requires GoodToks(ts) && m < |ts| && next == m + 1
    requires from == Pos(lead, ts, m) + |Quoted(ts[m].str)|
    ensures SearchesFrom(lead + Doc(ts), lead, ts, from, next)
  {
    GoodIsClean(ts, "Flags");
    GoodIsClean(ts, "HsiResult");
    FindAfterToken(lead, ts, "Flags", m);
    FindAfterToken(lead, ts, "HsiResult", m);
  }

  ghost predicate TokPassingUpTo(ts: seq<Tok>, m: nat, end: nat)
    requires m <= |ts|
  {
    var flags := KeyIndex(ts, "Flags", m);
    flags < end && KeyIndex(ts, "success", flags) < end
  }

  lemma {:induction false} TokPassingPlaced(ts: seq<Tok>, b: nat, a: Attribute, m: nat)
    requires WellFormedAttr(a) && m <= 2
    requires b + |AttrToks(a)| <= |ts| && ts[b..b + |AttrToks(a)|] == AttrToks(a)
    ensures TokPassingUpTo(ts, b + m, b + |AttrToks(a)|) <==> AttrPassing(a)
  {
    TokPassingIsPassing(a, m);
    PassingInWindow(ts, AttrToks(a), b, m);
  }

  lemma {:induction false} PassingInWindow(ts: seq<Tok>, mid: seq<Tok>, b: nat, m: nat)
    requires b + |mid| <= |ts| && ts[b..b + |mid|] == mid && m <= |mid|
    ensures TokPassingUpTo(ts, b + m, b + |mid|) <==> TokPassing(mid, m)
  {
    var flags := KeyIndex(ts, "Flags", b + m);
    KeyIndexWindow(ts, mid, b, "Flags", m);
    if flags < b + |mid| {
      KeyIndexWindow(ts, mid, b, "success", flags - b);
    }
  }

  /** The passing test on the text is the passing test on the tokens. */
  lemma {:induction false} PassingByTokens(lead: string, ts: seq<Tok>, from: nat, m: nat, end: nat)
    requires GoodToks(ts) && end <= |ts|
    requires SearchesFrom(lead + Doc(ts), lead, ts, from, m)
    ensures Passing(lead + Doc(ts), from, Pos(lead, ts, end)) <==> TokPassingUpTo(ts, m, end)
  {
    var flags := KeyIndex(ts, "Flags", m);
    GoodIsClean(ts, "success");
    FindFromToken(lead, ts, "success", flags);
    PosBefore(lead, ts, flags, end);
    PosBefore(lead, ts, KeyIndex(ts, "success", flags), end);
  }

  lemma {:induction false} PassingPlaced(lead: string, ts: seq<Tok>, b: nat, a: Attribute, from: nat, m: nat, end: nat)
    requires Placed(lead, ts, b, a) && m <= 2 && end == b + |AttrToks(a)|
    requires SearchesFrom(lead + Doc(ts), lead, ts, from, b + m)
    ensures Passing(lead + Doc(ts), from, Pos(lead, ts, end)) <==> AttrPassing(a)
  {
    TokPassingPlaced(ts, b, a, m);
    PassingByTokens(lead, ts, from, b + m, end);
  }

  lemma {:induction false} SkipWsOver(json: string, p: nat, w: string, bound: nat)
    requires AllWs(w) && p + |w| < bound <= |json|
    requires json[p..p + |w|] == w && !IsWs(json[p + |w|])
    ensures SkipWs(json, p, bound) == p + |w|
    decreases |w|
  {
    if |w| > 0 {
      assert json[p] == w[0];
      assert json[p + 1..p + 1 + |w[1..]|] == w[1..];
      SkipWsOver(json, p + 1, w[1..], bound);
    }
  }

  ghost predicate StandsAt(json: string, p: nat, s: string) {
    p + |s| <= |json| && json[p..p + |s|] == s
  }

  lemma StandsSplit(json: string, p: nat, s: string, t: string)
    requires StandsAt(json, p, s + t)
    ensures StandsAt(json, p, s) && StandsAt(json, p + |s|, t)
  {
    assert json[p..p + |s|] == (s + t)[..|s|];
    assert json[p + |s|..p + |s| + |t|] == (s + t)[|s|..];
  }

  /** A colon and a quoted value stand at `p`. */
  ghost predicate ValueStands(json: string, p: nat, s: Sep, v: string) {
    WsSep(s) && '"' !in v && StandsAt(json, p, SepText(s) + Quoted(v))
  }

  /** The marks of a value, and what stands between them. */
  lemma ValueMarks(json: string, p: nat, s: Sep, v: string) returns (colon: nat, open: nat, close: nat)
    requires ValueStands(json, p, s, v)
    ensures colon == p + |s.before| && open == p + |SepText(s)| && close == open + 1 + |v|
    ensures p <= colon < open < close < |json|
    ensures json[colon] == ':' && json[open] == '"' && json[close] == '"'
    ensures json[p..colon] == s.before && json[colon + 1..open] == s.after && json[open + 1..close] == v
  {
    StandsSplit(json, p, SepText(s), Quoted(v));
    colon, open := SepMarks(json, p, s);
    close := QuotedMarks(json, open, v);
  }

  lemma SepMarks(json: string, p: nat, s: Sep) returns (colon: nat, open: nat)
    requires StandsAt(json, p, SepText(s))
    ensures colon == p + |s.before| && open == p + |SepText(s)|
    ensures p <= colon < open <= |json| && json[colon] == ':'
    ensures json[p..colon] == s.before && json[colon + 1..open] == s.after
  {
    colon, open := p + |s.before|, p + |SepText(s)|;
    StandsSplit(json, p, s.before + ":", s.after);
    StandsSplit(json, p, s.before, ":");
    assert json[colon] == ":"[0];
  }

  lemma QuotedMarks(json: string, open: nat, v: string) returns (close: nat)
    requires StandsAt(json, open, Quoted(v))
    ensures close == open + 1 + |v| < |json|
    ensures json[open] == '"' && json[close] == '"' && json[open + 1..close] == v
  {
    close := open + 1 + |v|;
    StandsSplit(json, open, "\"" + v, "\"");
    StandsSplit(json, open, "\"", v);
    assert json[open] == "\""[0];
    assert json[close] == "\""[0];
  }

  /** The searches of the attribute reader hit the marks. */
  lemma ValueFound(json: string, p: nat, s: Sep, v: string) returns (colon: nat, open: nat, close: nat)
    requires ValueStands(json, p, s, v)
    ensures open == p + |SepText(s)| && close == open + 1 + |v|
    ensures p <= colon < open < close < |json| && json[open + 1..close] == v
    ensures IndexOf(json, ":", p) == colon
    ensures IndexOf(json, "\"", colon + 1) == open
    ensures IndexOf(json, "\"", open + 1) == close
  {
    colon, open, close := ValueMarks(json, p, s, v);
    forall j | p <= j < colon
      ensures json[j] != ':'
    {
      assert json[j] == json[p..colon][j - p];
    }
    forall j | colon < j < open
      ensures json[j] != '"'
    {
      assert json[j] == json[colon + 1..open][j - colon - 1];
    }
    forall j | open < j < close
      ensures json[j] != '"'
    {
      assert json[j] == json[open + 1..close][j - open - 1];
    }
    CharIndex(json, ':', p, colon);
    CharIndex(json, '"', colon + 1, open);
    CharIndex(json, '"', open + 1, close);
  }

  lemma ValueSpanRead(json: string, p: nat, s: Sep, v: string, bound: nat)
    requires ValueStands(json, p, s, v) && p + |SepText(s)| + |v| + 2 <= bound <= |json|
    ensures ValueSpan(json, p, bound) == Some(v)
  {
    var colon, open, close := ValueMarks(json, p, s, v);
    SkipWsOver(json, p, s.before, bound);
    SkipWsOver(json, colon + 1, s.after, bound);
    forall j | open < j < close
      ensures json[j] != '"'
    {
      assert json[j] == json[open + 1..close][j - open - 1];
    }
    SpanFromMarks(json, p, bound, colon, open, close);
  }

  lemma SpanFromMarks(json: string, p: nat, bound: nat, colon: nat, open: nat, close: nat)
    requires p <= colon < open < close < bound <= |json|
    requires json[colon] == ':' && json[open] == '"' && json[close] == '"'
    requires SkipWs(json, p, bound) == colon && SkipWs(json, colon + 1, bound) == open
    requires forall j :: open < j < close ==> json[j] != '"'
    ensures ValueSpan(json, p, bound) == Some(json[open + 1..close])
  {
    CharIndex(json, '"', open + 1, close);
  }

  lemma QuotedValueRead(json: string, p: nat, s: Sep, v: string, bound: nat)
    requires ValueStands(json, p, s, v) && p + |SepText(s)| + |v| + 2 <= bound <= |json|
    ensures QuotedValue(json, p, bound) == Some(Stored(v, VALUE_BYTES))
  {
    var _, _, _ := ValueFound(json, p, s, v);
  }

  /** A key token and its value token as they stand in the text. */
  lemma {:induction false} TokenValue(lead: string, ts: seq<Tok>, k: nat, s: Sep)
    requires k + 1 < |ts| && ts[k].gap == SepText(s)
    ensures StandsAt(lead + Doc(ts), Pos(lead, ts, k) + |Quoted(ts[k].str)|, SepText(s) + Quoted(ts[k + 1].str))
    ensures Pos(lead, ts, k) + |Quoted(ts[k].str)| + |SepText(s) + Quoted(ts[k + 1].str)|
            == Pos(lead, ts, k + 1) + |Quoted(ts[k + 1].str)| <= Pos(lead, ts, k + 2)
  {
    var pre := lead + Doc(ts[..k]) + Quoted(ts[k].str);
    SplitAfter(lead, ts, k);
    var mid := SepText(s) + Quoted(ts[k + 1].str);
    var rest := ts[k + 1].gap + Doc(ts[k + 2..]);
    assert ts[k + 1..][1..] == ts[k + 2..];
    assert ts[k].gap + Doc(ts[k + 1..]) == mid + rest;
    assert StandsAt(pre + (mid + rest), |pre|, mid);
    PosNext(lead, ts, k);
    PosNext(lead, ts, k + 1);
  }

  /** The two tokens of a string field. */
  lemma {:induction false} StringFieldToks(ts: seq<Tok>, b: nat, a: Attribute, i: nat)
    requires b + |AttrToks(a)| <= |ts| && ts[b..b + |AttrToks(a)|] == AttrToks(a)
    requires i < |a.fields| && a.fields[i].StringField?
    ensures FieldAt(a, i) + 2 <= |AttrToks(a)|
    ensures var f := a.fields[i];
      ts[b + FieldAt(a, i)] == Tok(f.key, SepText(f.colon)) && ts[b + FieldAt(a, i) + 1] == Tok(f.value, f.tail)
  {
    var p := FieldAt(a, i);
    AttrSplit(a, i);
    assert AttrToks(a)[p..][0] == ts[b + p];
    assert AttrToks(a)[p..][1] == ts[b + p + 1];
  }

  /** The tokens of a string field, of which the value holds no quote. */
  lemma {:induction false} ValueToks(ts: seq<Tok>, b: nat, a: Attribute, i: nat, k: nat, end: nat)
    requires GoodToks(ts) && b + |AttrToks(a)| == end <= |ts| && ts[b..end] == AttrToks(a)
    requires i < |a.fields| && WellFormedField(a.fields[i]) && a.fields[i].StringField? && k == b + FieldAt(a, i)
    ensures k + 2 <= end && WsSep(a.fields[i].colon)
    ensures ts[k] == Tok(a.fields[i].key, SepText(a.fields[i].colon))
    ensures ts[k + 1].str == a.fields[i].value && '"' !in ts[k + 1].str
  {
    StringFieldToks(ts, b, a, i);
  }

  /** The token of the result key, and the value token behind it. */
  lemma {:induction false} ResultToks(ts: seq<Tok>, b: nat, a: Attribute, m: nat) returns (k: nat, f: Field)
    requires WellFormedAttr(a) && GoodToks(ts) && m <= 2
    requires b + |AttrToks(a)| <= |ts| && ts[b..b + |AttrToks(a)|] == AttrToks(a)
    ensures k == KeyIndex(ts, "HsiResult", b + m) && k + 2 <= b + |AttrToks(a)|
    ensures f.StringField? && WsSep(f.colon) && '"' !in f.value
    ensures ts[k] == Tok("HsiResult", SepText(f.colon)) && ts[k + 1].str == f.value
    ensures forall r :: AttrResult(a, r) <==> f.value == r
  {
    var i :| 0 <= i < |a.fields| && a.fields[i].key == "HsiResult";
    f, k := a.fields[i], b + FieldAt(a, i);
    assert WellFormedField(f);
    ResultKey(ts, b, a, m, i);
    ValueToks(ts, b, a, i, k, b + |AttrToks(a)|);
    ResultIs(a, i);
  }

  lemma {:induction false} ResultKey(ts: seq<Tok>, b: nat, a: Attribute, m: nat, i: nat)
    requires WellFormedAttr(a) && m <= 2
    requires b + |AttrToks(a)| <= |ts| && ts[b..b + |AttrToks(a)|] == AttrToks(a)
    requires i < |a.fields| && a.fields[i].key == "HsiResult"
    ensures KeyIndex(ts, "HsiResult", b + m) == b + FieldAt(a, i) < b + |AttrToks(a)|
  {
    KeyOfAttr(a, "HsiResult", m);
    KeyIndexWindow(ts, AttrToks(a), b, "HsiResult", m);
  }

  lemma {:induction false} ResultIs(a: Attribute, i: nat)
    requires WellFormedAttr(a) && i < |a.fields| && a.fields[i].key == "HsiResult" && a.fields[i].StringField?
    ensures forall r :: AttrResult(a, r) <==> a.fields[i].value == r
  {
  }

  /** A string value stands behind its key token, before any later token. */
  lemma {:induction false} ValuePlaced(lead: string, ts: seq<Tok>, k: nat, s: Sep, end: nat)
    requires k + 2 <= end <= |ts| && ts[k].gap == SepText(s) && WsSep(s) && '"' !in ts[k + 1].str
    ensures var p := Pos(lead, ts, k) + |Quoted(ts[k].str)|;
      && Pos(lead, ts, k) < Pos(lead, ts, end)
      && p + |SepText(s)| + |ts[k + 1].str| + 2 == Pos(lead, ts, k + 1) + |Quoted(ts[k + 1].str)|
      && p + |SepText(s)| + |ts[k + 1].str| + 2 <= Pos(lead, ts, end) <= |lead + Doc(ts)|
      && ValueStands(lead + Doc(ts), p, s, ts[k + 1].str)
  {
    TokenValue(lead, ts, k, s);
    PosMonotone(lead, ts, k + 2, end);
    PosMonotone(lead, ts, k, end);
    PosMonotone(lead, ts, end, |ts|);
    PosEnd(lead, ts);
  }

  /** What the counting reader takes from a well-formed attribute. */
  lemma {:induction false} RecordPlaced(lead: string, ts: seq<Tok>, b: nat, a: Attribute, end: nat)
    requires Placed(lead, ts, b, a) && end == b + |AttrToks(a)|
    ensures Pos(lead, ts, b) <= |lead + Doc(ts)| && Pos(lead, ts, end) <= |lead + Doc(ts)|
    ensures var r := RecordAt(lead + Doc(ts), Pos(lead, ts, b), Pos(lead, ts, end));
      && (r.passing <==> AttrPassing(a))
      && (r.notSupported <==> AttrResult(a, NOT_SUPPORTED))
      && r.id == if Reproducible(a.id) then Some(a.id) else None
  {
    SearchFromToken(lead, ts, b);
    PassingPlaced(lead, ts, b, a, Pos(lead, ts, b), 0, end);
    NotSupportedPlaced(lead, ts, b, a, end);
    IdSpan(lead, ts, b, a, end);
  }

  lemma {:induction false} NotSupportedPlaced(lead: string, ts: seq<Tok>, b: nat, a: Attribute, end: nat)
    requires Placed(lead, ts, b, a) && end == b + |AttrToks(a)|
    ensures Pos(lead, ts, b) <= |lead + Doc(ts)| && Pos(lead, ts, end) <= |lead + Doc(ts)|
    ensures NotSupported(lead + Doc(ts), Pos(lead, ts, b), Pos(lead, ts, end)) <==> AttrResult(a, NOT_SUPPORTED)
  {
    var k, f := ResultPlaced(lead, ts, b, a, end);
    SearchFromToken(lead, ts, b);
    NotSupportedAt(lead + Doc(ts), Pos(lead, ts, b), Pos(lead, ts, k), f.colon, f.value, Pos(lead, ts, end));
  }

  lemma {:induction false} ResultPlaced(lead: string, ts: seq<Tok>, b: nat, a: Attribute, end: nat)
    returns (k: nat, f: Field)
    requires Placed(lead, ts, b, a) && end == b + |AttrToks(a)|
    ensures k == KeyIndex(ts, "HsiResult", b) && k + 2 <= end
    ensures f.StringField? && forall r :: AttrResult(a, r) <==> f.value == r
    ensures Pos(lead, ts, k) < Pos(lead, ts, end) <= |lead + Doc(ts)|
    ensures Pos(lead, ts, k) + |RESULT_KEY| + |SepText(f.colon)| + |f.value| + 2 <= Pos(lead, ts, end)
    ensures ValueStands(lead + Doc(ts), Pos(lead, ts, k) + |RESULT_KEY|, f.colon, f.value)
  {
    k, f := ResultToks(ts, b, a, 0);
    ValuePlaced(lead, ts, k, f.colon, end);
  }

  lemma {:induction false} NotSupportedAt(json: string, from: nat, key: nat, s: Sep, v: string, bound: nat)
    requires from <= |json| && key == IndexOf(json, RESULT_KEY, from) < bound <= |json|
    requires ValueStands(json, key + |RESULT_KEY|, s, v) && key + |RESULT_KEY| + |SepText(s)| + |v| + 2 <= bound
    ensures NotSupported(json, from, bound) <==> v == NOT_SUPPORTED
  {
    ValueSpanRead(json, key + |RESULT_KEY|, s, v, bound);
  }

  lemma {:induction false} IdSpan(lead: string, ts: seq<Tok>, b: nat, a: Attribute, end: nat)
    requires Placed(lead, ts, b, a) && end == b + |AttrToks(a)|
    ensures Pos(lead, ts, end) <= |lead + Doc(ts)|
    ensures ValueStands(lead + Doc(ts), Pos(lead, ts, b) + |ID_KEY|, a.colon, a.id)
    ensures Pos(lead, ts, b) + |ID_KEY| + |SepText(a.colon)| + |a.id| + 2
            == Pos(lead, ts, b + 1) + |Quoted(a.id)| <= Pos(lead, ts, end)
    ensures ValueSpan(lead + Doc(ts), Pos(lead, ts, b) + |ID_KEY|, Pos(lead, ts, end)) == Some(a.id)
  {
    IdToks(ts, b, a);
    ValuePlaced(lead, ts, b, a.colon, end);
    ValueSpanRead(lead + Doc(ts), Pos(lead, ts, b) + |ID_KEY|, a.colon, a.id, Pos(lead, ts, end));
  }

  lemma IdToks(ts: seq<Tok>, b: nat, a: Attribute)
    requires WellFormedAttr(a) && GoodToks(ts)
    requires b + |AttrToks(a)| <= |ts| && ts[b..b + |AttrToks(a)|] == AttrToks(a)
    ensures ts[b] == Tok("AppstreamId", SepText(a.colon)) && ts[b + 1] == Tok(a.id, a.tail) && '"' !in a.id
  {
    assert ts[b] == ts[b..b + |AttrToks(a)|][0] && ts[b + 1] == ts[b..b + |AttrToks(a)|][1];
    assert '"' !in ts[b + 1].str;
  }

  /** The index just behind an attribute's id. */
  function AfterId(lead: string, ts: seq<Tok>, b: nat, a: Attribute): (p: nat)
    requires b + 1 <= |ts|
  {
    Pos(lead, ts, b + 1) + |Quoted(a.id)|
  }

  /** What the attribute reader takes from the same attribute. */
  lemma {:induction false} EvidencePlaced(lead: string, ts: seq<Tok>, b: nat, a: Attribute, end: nat)
    requires Placed(lead, ts, b, a) && end == b + |AttrToks(a)|
    ensures AfterId(lead, ts, b, a) <= Pos(lead, ts, end) <= |lead + Doc(ts)|
    ensures var e := Evidence(lead + Doc(ts), AfterId(lead, ts, b, a), Pos(lead, ts, end));
      e.Some? && FoundOf(e.value, a)
  {
    IdSpan(lead, ts, b, a, end);
    IdToks(ts, b, a);
    var from := AfterId(lead, ts, b, a);
    EvidenceAfterId(lead, ts, b, a, from, end);
    SuccessPlaced(lead, ts, b, a, from, end);
    ActionPlaced(lead, ts, b, a, from, end);
  }

  lemma {:induction false} EvidenceAfterId(lead: string, ts: seq<Tok>, b: nat, a: Attribute, from: nat, end: nat)
    requires Placed(lead, ts, b, a) && end == b + |AttrToks(a)|
    requires from == Pos(lead, ts, b + 1) + |Quoted(ts[b + 1].str)| <= Pos(lead, ts, end) <= |lead + Doc(ts)|
    ensures var json, bound := lead + Doc(ts), Pos(lead, ts, end); var e := Evidence(json, from, bound);
      && e.Some? && (e.value.passing <==> AttrPassing(a)) && ResultFound(e.value.result, a)
      && e.value.success == SuccessValue(json, from, bound) && e.value.action == ActionIn(json, from, bound)
  {
    SearchAfterToken(lead, ts, b + 1, b + 2, from);
    PassingPlaced(lead, ts, b, a, from, 2, end);
    var k, f := ResultToks(ts, b, a, 2);
    ValuePlaced(lead, ts, k, f.colon, end);
    EvidenceFromValue(lead + Doc(ts), from, f.colon, f.value, Pos(lead, ts, end));
    ResultStored(a, f.value);
  }

  lemma ResultStored(a: Attribute, v: string)
    requires forall r :: AttrResult(a, r) <==> v == r
    ensures ResultFound(Stored(v, VALUE_BYTES), a)
  {
    StoredKeepsNotSupported(v);
  }

  lemma EvidenceFromValue(json: string, from: nat, s: Sep, v: string, bound: nat)
    requires from <= bound <= |json| && IndexOf(json, RESULT_KEY, from) < bound
    requires var p := IndexOf(json, RESULT_KEY, from) + |RESULT_KEY|;
      ValueStands(json, p, s, v) && p + |SepText(s)| + |v| + 2 <= bound
    ensures var e := Evidence(json, from, bound);
      && e.Some? && e.value.passing == Passing(json, from, bound)
      && e.value.result == Stored(v, VALUE_BYTES)
      && e.value.success == SuccessValue(json, from, bound) && e.value.action == ActionIn(json, from, bound)
  {
    QuotedValueRead(json, IndexOf(json, RESULT_KEY, from) + |RESULT_KEY|, s, v, bound);
  }

  /** A search from behind token `i` ends at the next token of that key. */
  lemma {:induction false} KeySearch(lead: string, ts: seq<Tok>, i: nat, from: nat, key: string)
    requires GoodToks(ts) && IsKeyName(key) && i < |ts|
    requires from == Pos(lead, ts, i) + |Quoted(ts[i].str)| <= |lead + Doc(ts)|
    ensures IndexOf(lead + Doc(ts), Quoted(key), from) == Pos(lead, ts, KeyIndex(ts, key, i + 1))
  {
    GoodIsClean(ts, key);
    FindAfterToken(lead, ts, key, i);
  }

  /** Where a key of the attribute stands, seen from behind its id. */
  lemma {:induction false} KeyToken(ts: seq<Tok>, b: nat, a: Attribute, end: nat, key: string)
    requires WellFormedAttr(a) && IsKeyName(key) && key != "AppstreamId"
    requires end == b + |AttrToks(a)| <= |ts| && ts[b..end] == AttrToks(a)
    ensures forall i :: 0 <= i < |a.fields| && a.fields[i].key == key ==>
      KeyIndex(ts, key, b + 2) == b + FieldAt(a, i) < end
    ensures !HasField(a.fields, key) ==> KeyIndex(ts, key, b + 2) >= end
  {
    KeyOfAttr(a, key, 2);
    KeyIndexWindow(ts, AttrToks(a), b, key, 2);
  }

  /** The success value as the attribute reader finds it. */
  lemma {:induction false} SuccessPlaced(lead: string, ts: seq<Tok>, b: nat, a: Attribute, from: nat, end: nat)
    requires Placed(lead, ts, b, a) && end == b + |AttrToks(a)|
    requires from == Pos(lead, ts, b + 1) + |Quoted(ts[b + 1].str)| <= Pos(lead, ts, end) <= |lead + Doc(ts)|
    ensures SuccessFound(SuccessValue(lead + Doc(ts), from, Pos(lead, ts, end)), a)
  {
    KeyToken(ts, b, a, end, "HsiResultSuccess");
    KeySearch(lead, ts, b + 1, from, "HsiResultSuccess");
    if i :| 0 <= i < |a.fields| && a.fields[i].key == "HsiResultSuccess" {
      SuccessOf(lead, ts, b, a, i, b + FieldAt(a, i), from, end);
    } else {
      PosMonotone(lead, ts, end, KeyIndex(ts, "HsiResultSuccess", b + 2));
      SuccessAbsent(lead + Doc(ts), from, Pos(lead, ts, end), a);
    }
  }

  lemma {:induction false} SuccessAbsent(json: string, from: nat, bound: nat, a: Attribute)
    requires from <= bound <= |json| && IndexOf(json, RESULT_SUCCESS_KEY, from) >= bound
    requires !HasField(a.fields, "HsiResultSuccess")
    ensures SuccessFound(SuccessValue(json, from, bound), a)
  {
  }

  lemma {:induction false} SuccessOf(lead: string, ts: seq<Tok>, b: nat, a: Attribute, i: nat, k: nat, from: nat,
                                     end: nat)
    requires WellFormedAttr(a) && GoodToks(ts)
    requires b + |AttrToks(a)| == end <= |ts| && ts[b..end] == AttrToks(a)
    requires i < |a.fields| && a.fields[i].key == "HsiResultSuccess" && k == b + FieldAt(a, i) < end
    requires from <= Pos(lead, ts, end) <= |lead + Doc(ts)|
    requires IndexOf(lead + Doc(ts), RESULT_SUCCESS_KEY, from) == Pos(lead, ts, k)
    ensures SuccessFound(SuccessValue(lead + Doc(ts), from, Pos(lead, ts, end)), a)
  {
    assert WellFormedField(a.fields[i]);
    ValueToks(ts, b, a, i, k, end);
    SuccessAt(lead, ts, k, a.fields[i].colon, from, end);
    SuccessIs(a, i);
    SuccessStored(a, a.fields[i].value, i);
  }

  lemma {:induction false} SuccessStored(a: Attribute, v: string, i: nat)
    requires i < |a.fields| && a.fields[i].key == "HsiResultSuccess" && forall s :: AttrSuccess(a, s) <==> v == s
    ensures SuccessFound(Stored(v, VALUE_BYTES), a)
  {
  }

  lemma {:induction false} SuccessAt(lead: string, ts: seq<Tok>, k: nat, s: Sep, from: nat, end: nat)
    requires k + 2 <= end <= |ts| && ts[k] == Tok("HsiResultSuccess", SepText(s)) && WsSep(s) && '"' !in ts[k + 1].str
    requires from <= Pos(lead, ts, end) <= |lead + Doc(ts)|
    requires IndexOf(lead + Doc(ts), RESULT_SUCCESS_KEY, from) == Pos(lead, ts, k)
    ensures SuccessValue(lead + Doc(ts), from, Pos(lead, ts, end)) == Stored(ts[k + 1].str, VALUE_BYTES)
  {
    ValuePlaced(lead, ts, k, s, end);
    SuccessFrom(lead + Doc(ts), from, Pos(lead, ts, k), s, ts[k + 1].str, Pos(lead, ts, end));
  }

  lemma {:induction false} SuccessFrom(json: string, from: nat, key: nat, s: Sep, v: string, bound: nat)
    requires from <= bound <= |json| && key == IndexOf(json, RESULT_SUCCESS_KEY, from) < bound
    requires ValueStands(json, key + |RESULT_SUCCESS_KEY|, s, v)
    requires key + |RESULT_SUCCESS_KEY| + |SepText(s)| + |v| + 2 <= bound
    ensures SuccessValue(json, from, bound) == Stored(v, VALUE_BYTES)
  {
    QuotedValueRead(json, key + |RESULT_SUCCESS_KEY|, s, v, bound);
  }

  lemma {:induction false} SuccessIs(a: Attribute, i: nat)
    requires WellFormedAttr(a) && i < |a.fields|
    requires a.fields[i].key == "HsiResultSuccess" && a.fields[i].StringField?
    ensures forall s :: AttrSuccess(a, s) <==> a.fields[i].value == s
  {
  }

  /** A list stands behind its key token, inside its attribute. */
  lemma {:induction false} ListPlaced(lead: string, ts: seq<Tok>, b: nat, a: Attribute, i: nat, end: nat)
    requires b + |AttrToks(a)| == end <= |ts| && ts[b..end] == AttrToks(a)
    requires i < |a.fields| && a.fields[i].ListField?
    ensures var f, k := a.fields[i], b + FieldAt(a, i);
      && k < end && ts[k].str == f.key
      && StandsAt(lead + Doc(ts), Pos(lead, ts, k) + |Quoted(f.key)|, f.sep + Doc(f.items))
      && Pos(lead, ts, k) + |Quoted(f.key)| + |f.sep + Doc(f.items)| <= Pos(lead, ts, end) <= |lead + Doc(ts)|
  {
    var f, k := a.fields[i], b + FieldAt(a, i);
    AttrSplit(a, i);
    assert ts[k..end] == AttrToks(a)[FieldAt(a, i)..];
    FirstOf(ts, k, FieldToks(f), FieldsToks(a.fields[i + 1..]), end);
    ListToks(lead, ts, k, f, end);
  }

  lemma FirstOf(ts: seq<Tok>, k: nat, own: seq<Tok>, others: seq<Tok>, end: nat)
    requires k <= end <= |ts| && ts[k..end] == own + others
    ensures k + |own| <= end && ts[k..k + |own|] == own
  {
    assert ts[k..k + |own|] == ts[k..end][..|own|];
  }

  lemma {:induction false} ListToks(lead: string, ts: seq<Tok>, k: nat, f: Field, end: nat)
    requires f.ListField? && k + 1 + |f.items| <= end <= |ts|
    requires ts[k..k + 1 + |f.items|] == [Tok(f.key, f.sep)] + f.items
    ensures k < end && ts[k].str == f.key
    ensures StandsAt(lead + Doc(ts), Pos(lead, ts, k) + |Quoted(f.key)|, f.sep + Doc(f.items))
    ensures Pos(lead, ts, k) + |Quoted(f.key)| + |f.sep + Doc(f.items)| <= Pos(lead, ts, end) <= |lead + Doc(ts)|
  {
    var n := k + 1 + |f.items|;
    KeyAndItems(ts, k, n, f);
    ListWithin(lead, ts, k, n, end);
    ListText(lead, ts, k, n);
  }

  lemma {:induction false} KeyAndItems(ts: seq<Tok>, k: nat, n: nat, f: Field)
    requires f.ListField? && n == k + 1 + |f.items| <= |ts| && ts[k..n] == [Tok(f.key, f.sep)] + f.items
    ensures ts[k] == Tok(f.key, f.sep) && ts[k + 1..n] == f.items
  {
    assert ts[k] == ts[k..n][0] && ts[k + 1..n] == ts[k..n][1..] == f.items;
  }

  lemma {:induction false} ListWithin(lead: string, ts: seq<Tok>, k: nat, n: nat, end: nat)
    requires k < n <= end <= |ts|
    ensures Pos(lead, ts, k) + |Quoted(ts[k].str)| + |ts[k].gap + Doc(ts[k + 1..n])|
            <= Pos(lead, ts, end) <= |lead + Doc(ts)|
  {
    PosNext(lead, ts, k);
    PosRun(lead, ts, k + 1, n);
    PosMonotone(lead, ts, n, end);
    PosMonotone(lead, ts, end, |ts|);
    PosEnd(lead, ts);
  }

  lemma {:induction false} ListText(lead: string, ts: seq<Tok>, k: nat, n: nat)
    requires k < n <= |ts|
    ensures StandsAt(lead + Doc(ts), Pos(lead, ts, k) + |Quoted(ts[k].str)|, ts[k].gap + Doc(ts[k + 1..n]))
  {
    var pre, gap, list := lead + Doc(ts[..k]) + Quoted(ts[k].str), ts[k].gap, Doc(ts[k + 1..n]);
    SplitAfter(lead, ts, k);
    var rest := DocHead(ts[k + 1..], ts[k + 1..n]);
    StandsBetween(pre, gap, list, rest);
  }

  lemma DocHead(ts: seq<Tok>, head: seq<Tok>) returns (rest: string)
    requires head <= ts
    ensures Doc(ts) == Doc(head) + rest
  {
    DocSplit(ts, |head|);
    assert ts[..|head|] == head;
    rest := Doc(ts[|head|..]);
  }

  lemma StandsBetween(pre: string, gap: string, list: string, rest: string)
    ensures StandsAt(pre + (gap + (list + rest)), |pre|, gap + list)
  {
    Assoc(gap, list, rest);
    assert (pre + ((gap + list) + rest))[|pre|..|pre| + |gap + list|] == gap + list;
  }

  lemma PosRun(lead: string, ts: seq<Tok>, j: nat, k: nat)
    requires j <= k <= |ts|
    ensures Pos(lead, ts, k) == Pos(lead, ts, j) + |Doc(ts[j..k])|
  {
    DocConcat(ts[..j], ts[j..k]);
    assert ts[..j] + ts[j..k] == ts[..k];
  }

  /** The action as the attribute reader finds it. */
  lemma {:induction false} ActionPlaced(lead: string, ts: seq<Tok>, b: nat, a: Attribute, from: nat, end: nat)
    requires Placed(lead, ts, b, a) && end == b + |AttrToks(a)|
    requires from == Pos(lead, ts, b + 1) + |Quoted(ts[b + 1].str)| <= Pos(lead, ts, end) <= |lead + Doc(ts)|
    ensures ActionFound(ActionIn(lead + Doc(ts), from, Pos(lead, ts, end)), a)
  {
    KeyToken(ts, b, a, end, "Flags");
    KeySearch(lead, ts, b + 1, from, "Flags");
    forall i, pre, inner, post | 0 <= i < |a.fields| && a.fields[i].key == "Flags"
                                 && ListInner(a.fields[i], pre, inner, post)
      ensures ActionIn(lead + Doc(ts), from, Pos(lead, ts, end)) == ActionNamed(Stored("[" + inner, FLAGS_BUFFER))
    {
      ActionOf(lead, ts, b, a, i, from, end, pre, inner, post);
    }
    if !HasField(a.fields, "Flags") {
      PosMonotone(lead, ts, end, KeyIndex(ts, "Flags", b + 2));
    }
  }

  lemma {:induction false} ActionOf(lead: string, ts: seq<Tok>, b: nat, a: Attribute, i: nat, from: nat, end: nat,
                 pre: string, inner: string, post: string)
    requires b + |AttrToks(a)| == end <= |ts| && ts[b..end] == AttrToks(a)
    requires i < |a.fields| && a.fields[i].key == "Flags" && ListInner(a.fields[i], pre, inner, post)
    requires b + FieldAt(a, i) < end && from <= Pos(lead, ts, end) <= |lead + Doc(ts)|
    requires IndexOf(lead + Doc(ts), FLAGS_KEY, from) == Pos(lead, ts, b + FieldAt(a, i))
    ensures ActionIn(lead + Doc(ts), from, Pos(lead, ts, end)) == ActionNamed(Stored("[" + inner, FLAGS_BUFFER))
  {
    ListPlaced(lead, ts, b, a, i, end);
    PosBefore(lead, ts, b + FieldAt(a, i), end);
    ActionAt(lead + Doc(ts), from, Pos(lead, ts, b + FieldAt(a, i)), Pos(lead, ts, end), pre, inner, post);
  }

  /** The brackets of a list, and what stands before and between them. */
  lemma {:induction false} ListMarks(json: string, p: nat, pre: string, inner: string, post: string)
    requires StandsAt(json, p, pre + ("[" + (inner + ("]" + post))))
    ensures var open := p + |pre|; var close := open + 1 + |inner|;
      && close < |json| && json[open] == '[' && json[close] == ']'
      && json[p..open] == pre && json[open + 1..close] == inner
  {
    var open := p + |pre|;
    var close := open + 1 + |inner|;
    StandsSplit(json, p, pre, "[" + (inner + ("]" + post)));
    StandsSplit(json, open, "[", inner + ("]" + post));
    StandsSplit(json, open + 1, inner, "]" + post);
    StandsSplit(json, close, "]", post);
    assert json[open] == "["[0] && json[close] == "]"[0];
  }

  lemma {:induction false} ActionAt(json: string, from: nat, key: nat, bound: nat, pre: string, inner: string,
                                    post: string)
    requires from <= bound <= |json| && key == IndexOf(json, FLAGS_KEY, from) < bound
    requires StandsAt(json, key + |FLAGS_KEY|, pre + ("[" + (inner + ("]" + post))))
    requires key + |FLAGS_KEY| + |pre + ("[" + (inner + ("]" + post)))| <= bound
    requires '[' !in pre && ']' !in inner
    ensures ActionIn(json, from, bound) == ActionNamed(Stored("[" + inner, FLAGS_BUFFER))
  {
    var p := key + |FLAGS_KEY|;
    var open := p + |pre|;
    var close := open + 1 + |inner|;
    ListMarks(json, p, pre, inner, post);
    forall j | p <= j < open
      ensures json[j] != '['
    {
      assert json[j] == json[p..open][j - p];
    }
    forall j | open <= j < close
      ensures json[j] != ']'
    {
      assert j > open ==> json[j] == json[open + 1..close][j - open - 1];
    }
    CharIndex(json, '[', p, open);
    CharIndex(json, ']', open, close);
    assert json[open..close] == "[" + inner;
  }

  /** A value cut to the reader's buffer is "not-supported" only when the whole value is. */
  lemma StoredKeepsNotSupported(v: string)
    ensures Stored(v, VALUE_BYTES) == NOT_SUPPORTED <==> v == NOT_SUPPORTED
  {
    assert |NOT_SUPPORTED| == 13;
  }

  /** Where the attribute reader looks for the id of the next record. */
  lemma {:induction false} NextIdPlaced(lead: string, ts: seq<Tok>, b: nat, a: Attribute, from: nat)
    requires Placed(lead, ts, b, a) && from <= |lead + Doc(ts)|
    requires IndexOf(lead + Doc(ts), ID_KEY, from) == Pos(lead, ts, b)
    ensures NextId(lead + Doc(ts), from) == Some(IdValue(a.id, AfterId(lead, ts, b, a)))
  {
    IdSpan(lead, ts, b, a, b + |AttrToks(a)|);
    NextIdAt(lead + Doc(ts), from, Pos(lead, ts, b), a.colon, a.id, AfterId(lead, ts, b, a));
  }

  lemma NextIdAt(json: string, from: nat, idKey: nat, s: Sep, v: string, after: nat)
    requires from <= |json| && idKey == IndexOf(json, ID_KEY, from) < |json|
    requires ValueStands(json, idKey + |ID_KEY|, s, v) && after == idKey + |ID_KEY| + |SepText(s)| + |v| + 2
    ensures NextId(json, from) == Some(IdValue(v, after))
  {
    var colon, open, close := ValueFound(json, idKey + |ID_KEY|, s, v);
    NextIdFromMarks(json, from, idKey, colon, open, close);
  }

  lemma NextIdFromMarks(json: string, from: nat, idKey: nat, colon: nat, open: nat, close: nat)
    requires from <= |json| && idKey == IndexOf(json, ID_KEY, from) < |json|
    requires idKey + |ID_KEY| <= colon < open < close < |json|
    requires IndexOf(json, ":", idKey + |ID_KEY|) == colon
    requires IndexOf(json, "\"", colon + 1) == open && IndexOf(json, "\"", open + 1) == close
    ensures NextId(json, from) == Some(IdValue(json[open + 1..close], close + 1))
  {
  }

  // ----- the whole report ----------------------------------------------------------------

  ghost predicate RecordOf(r: Record, a: Attribute) {
    && (r.passing <==> AttrPassing(a))
    && (r.notSupported <==> AttrResult(a, NOT_SUPPORTED))
    && r.id == if Reproducible(a.id) then Some(a.id) else None
  }

  ghost predicate RecordsOf(rs: seq<Record>, attrs: seq<Attribute>) {
    |rs| == |attrs| && forall i :: 0 <= i < |rs| ==> RecordOf(rs[i], attrs[i])
  }

  /** The result is the attribute's, as far as the buffer for it reaches. */
  ghost predicate ResultFound(result: string, a: Attribute) {
    && (result == NOT_SUPPORTED <==> AttrResult(a, NOT_SUPPORTED))
    && (forall r :: AttrResult(a, r) ==> result == Stored(r, VALUE_BYTES))
  }

  /** The success value is the attribute's, or empty when it has none. */
  ghost predicate SuccessFound(success: string, a: Attribute) {
    && (forall s :: AttrSuccess(a, s) ==> success == Stored(s, VALUE_BYTES))
    && (!HasField(a.fields, "HsiResultSuccess") ==> success == "")
  }

  /** The action is the one that the list of flags names, as far as the buffer for it reaches. */
  ghost predicate ActionFound(action: Action, a: Attribute) {
    && (forall i, pre, inner, post :: 0 <= i < |a.fields| && a.fields[i].key == "Flags"
                                      && ListInner(a.fields[i], pre, inner, post) ==>
          action == ActionNamed(Stored("[" + inner, FLAGS_BUFFER)))
    && (!HasField(a.fields, "Flags") ==> action == NO_ACTION)
  }

  /** What the attribute reader reports is what the attribute says. */
  ghost predicate FoundOf(f: Found, a: Attribute) {
    && (f.passing <==> AttrPassing(a)) && ResultFound(f.result, a)
    && SuccessFound(f.success, a) && ActionFound(f.action, a)
  }

  /** The attributes fill the tokens from `b` to the end. */
  ghost predicate AttrsFrom(lead: string, ts: seq<Tok>, b: nat, attrs: seq<Attribute>) {
    && '"' !in lead && GoodToks(ts) && b <= |ts| && ts[b..] == ReportToks(attrs)
    && forall i :: 0 <= i < |attrs| ==> WellFormedAttr(attrs[i])
  }

  lemma {:induction false} FirstPlaced(lead: string, ts: seq<Tok>, b: nat, attrs: seq<Attribute>, end: nat)
    requires AttrsFrom(lead, ts, b, attrs) && attrs != [] && end == b + |AttrToks(attrs[0])|
    ensures Placed(lead, ts, b, attrs[0])
    ensures AttrsFrom(lead, ts, end, attrs[1..])
  {
    var first, rest := AttrToks(attrs[0]), ReportToks(attrs[1..]);
    assert ts[b..] == first + rest;
    assert ts[b..end] == ts[b..][..|first|] == first;
    assert ts[end..] == ts[b..][|first|..] == rest;
    if end < |ts| {
      assert ts[end] == rest[0] == AttrToks(attrs[1..][0])[0];
    }
  }

  /** The counting reader sees exactly one record per attribute. */
  lemma {:induction false} RecordsFrom(lead: string, ts: seq<Tok>, b: nat, attrs: seq<Attribute>, from: nat)
    requires AttrsFrom(lead, ts, b, attrs) && from <= |lead + Doc(ts)|
    requires IndexOf(lead + Doc(ts), ID_KEY, from) == Pos(lead, ts, b)
    ensures RecordsOf(Records(lead + Doc(ts), from), attrs)
    decreases |attrs|
  {
    var json := lead + Doc(ts);
    if |attrs| == 0 {
      assert b == |ts|;
      PosEnd(lead, ts);
    } else {
      var end := b + |AttrToks(attrs[0])|;
      FirstPlaced(lead, ts, b, attrs, end);
      FirstRecord(lead, ts, b, attrs[0], end);
      FromIdKey(lead, ts, end, attrs[1..]);
      RecordsFrom(lead, ts, end, attrs[1..], Pos(lead, ts, end));
      RecordsStep(json, from, Pos(lead, ts, b), Pos(lead, ts, end));
      RecordsCons(RecordAt(json, Pos(lead, ts, b), Pos(lead, ts, end)), Records(json, Pos(lead, ts, end)), attrs);
    }
  }

  lemma {:induction false} FirstRecord(lead: string, ts: seq<Tok>, b: nat, a: Attribute, end: nat)
    requires Placed(lead, ts, b, a) && end == b + |AttrToks(a)|
    ensures Pos(lead, ts, b) + |ID_KEY| <= |lead + Doc(ts)| && Pos(lead, ts, end) <= |lead + Doc(ts)|
    ensures IndexOf(lead + Doc(ts), ID_KEY, Pos(lead, ts, b) + |ID_KEY|) == Pos(lead, ts, end)
    ensures RecordOf(RecordAt(lead + Doc(ts), Pos(lead, ts, b), Pos(lead, ts, end)), a)
  {
    RecordPlaced(lead, ts, b, a, end);
    IdKeys(lead, ts, b, a, end);
  }

  lemma {:induction false} RecordsCons(first: Record, later: seq<Record>, attrs: seq<Attribute>)
    requires |attrs| > 0 && RecordOf(first, attrs[0]) && RecordsOf(later, attrs[1..])
    ensures RecordsOf([first] + later, attrs)
  {
  }

  lemma {:induction false} RecordsStep(json: string, from: nat, idKey: nat, bound: nat)
    requires from <= |json| && IndexOf(json, ID_KEY, from) == idKey < |json|
    requires IndexOf(json, ID_KEY, idKey + |ID_KEY|) == bound
    ensures Records(json, from) == [RecordAt(json, idKey, bound)] + Records(json, bound)
  {
  }

  /** A search from the start of an attribute, or from the end of the text, stays there. */
  lemma {:induction false} FromIdKey(lead: string, ts: seq<Tok>, b: nat, attrs: seq<Attribute>)
    requires AttrsFrom(lead, ts, b, attrs)
    ensures Pos(lead, ts, b) <= |lead + Doc(ts)|
    ensures IndexOf(lead + Doc(ts), ID_KEY, Pos(lead, ts, b)) == Pos(lead, ts, b)
  {
    GoodIsClean(ts, "AppstreamId");
    FindFromToken(lead, ts, "AppstreamId", b);
    if |attrs| > 0 {
      assert ts[b] == ts[b..][0] == AttrToks(attrs[0])[0];
    }
    KeyIndexIs(ts, "AppstreamId", b, b);
  }

  /** The attribute reader answers from the first attribute of that id, if there is one. */
  lemma {:induction false} LookupFrom(lead: string, ts: seq<Tok>, b: nat, attrs: seq<Attribute>, id: string, from: nat)
    requires AttrsFrom(lead, ts, b, attrs) && from <= |lead + Doc(ts)|
    requires IndexOf(lead + Doc(ts), ID_KEY, from) == Pos(lead, ts, b)
    ensures Answers(Lookup(lead + Doc(ts), id, from), attrs, id)
    decreases |attrs|
  {
    var json := lead + Doc(ts);
    if |attrs| == 0 {
      assert b == |ts|;
      PosEnd(lead, ts);
    } else {
      var a, end := attrs[0], b + |AttrToks(attrs[0])|;
      var after := AfterId(lead, ts, b, a);
      FirstPlaced(lead, ts, b, attrs, end);
      NextIdPlaced(lead, ts, b, a, from);
      NextRecord(lead, ts, b, a, end);
      LookupStep(json, id, from, IdValue(a.id, after));
      if a.id == id {
        EvidencePlaced(lead, ts, b, a, end);
      } else {
        LookupFrom(lead, ts, end, attrs[1..], id, after);
        AnswerLater(Lookup(json, id, after), attrs, id);
      }
    }
  }

  /** The answer of the attribute reader fits the report. */
  ghost predicate Answers(r: Option<Found>, attrs: seq<Attribute>, id: string) {
    if r.None? then forall i :: 0 <= i < |attrs| ==> attrs[i].id != id
    else exists i :: 0 <= i < |attrs| && attrs[i].id == id && FoundOf(r.value, attrs[i])
  }

  lemma {:induction false} AnswerLater(r: Option<Found>, attrs: seq<Attribute>, id: string)
    requires |attrs| > 0 && attrs[0].id != id && Answers(r, attrs[1..], id)
    ensures Answers(r, attrs, id)
  {
    if i :| 0 <= i < |attrs| - 1 && attrs[1..][i].id == id && r.Some? && FoundOf(r.value, attrs[1..][i]) {
      assert attrs[i + 1] == attrs[1..][i];
    }
    if i :| 0 < i < |attrs| && attrs[i].id == id {
      assert attrs[1..][i - 1] == attrs[i];
    }
  }

  lemma {:induction false} LookupStep(json: string, id: string, from: nat, next: IdValue)
    requires from <= |json| && NextId(json, from) == Some(next)
    ensures Lookup(json, id, from) ==
      if next.id == id then Evidence(json, next.after, IndexOf(json, ID_KEY, next.after))
      else Lookup(json, id, next.after)
  {
  }

  lemma ReportStart(lead: string, head: seq<Tok>, attrs: seq<Attribute>)
    requires WellFormedReport(lead, head, attrs)
    ensures var ts := head + ReportToks(attrs);
      && AttrsFrom(lead, ts, |head|, attrs)
      && IndexOf(lead + Doc(ts), ID_KEY, 0) == Pos(lead, ts, |head|)
  {
    var ts := head + ReportToks(attrs);
    ReportToksGood(attrs);
    assert ts[|head|..] == ReportToks(attrs);
    GoodIsClean(ts, "AppstreamId");
    FindFromGap(lead, ts, "AppstreamId");
    if |attrs| > 0 {
      assert ts[|head|] == AttrToks(attrs[0])[0];
    }
    KeyIndexIs(ts, "AppstreamId", 0, |head|);
  }

  lemma {:induction false} ReportToksGood(attrs: seq<Attribute>)
    requires forall i :: 0 <= i < |attrs| ==> WellFormedAttr(attrs[i])
    ensures GoodToks(ReportToks(attrs))
  {
    if |attrs| > 0 {
      ReportToksGood(attrs[1..]);
      assert WellFormedAttr(attrs[0]);
    }
  }

  /** Both readers agree with the report, and therefore with each other, on every attribute. */
  lemma {:induction false} ReadersAgree(lead: string, head: seq<Tok>, attrs: seq<Attribute>)
    requires WellFormedReport(lead, head, attrs)
    ensures var json := ReportText(lead, head, attrs);
      && RecordsOf(Records(json, 0), attrs)
      && (forall i :: 0 <= i < |attrs| ==>
            var r := Lookup(json, attrs[i].id, 0);
            r.Some? && FoundOf(r.value, attrs[i])
            && r.value.passing == Records(json, 0)[i].passing
            && (r.value.result == NOT_SUPPORTED) == Records(json, 0)[i].notSupported)
      && (forall id :: (forall i :: 0 <= i < |attrs| ==> attrs[i].id != id) ==> Lookup(json, id, 0) == None)
  {
    var json, ts := ReportText(lead, head, attrs), head + ReportToks(attrs);
    ReportStart(lead, head, attrs);
    RecordsFrom(lead, ts, |head|, attrs, 0);
    forall id
      ensures Answers(Lookup(json, id, 0), attrs, id)
    {
      LookupFrom(lead, ts, |head|, attrs, id, 0);
    }
  }
}
