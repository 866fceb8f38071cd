/** The JSON document of a run: what `print_json` prints (src/output.c), and the report that a
    reader of the document recovers. */
module JsonReport {
  import opened CText
  import opened Decimal
  import opened Checks
  import opened Utf8
  import opened JsonString
  import opened Json

  /** `posture_summary_t`. */
  datatype Summary = Summary(ok: nat, warn: nat, fail: nat, skip: nat)

  datatype Subgroup = Subgroup(name: string, summary: Summary, results: seq<CheckResult>, truncated: bool)

  datatype Group = Group(name: string, summary: Summary, subgroups: seq<Subgroup>)

  datatype Document = Document(mode: string, banner: string, groups: seq<Group>, overall: Summary, exitCode: int)

  // ----- names ---------------------------------------------------------------------------

  function StateName(s: State): (n: string) {
    match s
    case OK => "OK"
    case WARN => "WARN"
    case FAIL => "FAIL"
    case SKIP => "SKIP"
  }

  function ReasonName(r: SkipReason): (n: string) {
    match r
    case NONE => "NONE"
    case TOOL_ABSENT => "TOOL_ABSENT"
    case FEATURE_ABSENT => "FEATURE_ABSENT"
    case EXEC_FAILED => "EXEC_FAILED"
    case PROBE_INDETERMINATE => "PROBE_INDETERMINATE"
    case REPORT_FIELD_ABSENT => "REPORT_FIELD_ABSENT"
    case OUTPUT_UNPARSEABLE => "OUTPUT_UNPARSEABLE"
    case NOT_CONFIGURED => "NOT_CONFIGURED"
    case SUBJECT_ABSENT => "SUBJECT_ABSENT"
    case HW_ABSENT => "HW_ABSENT"
    case VENDOR_SCOPE => "VENDOR_SCOPE"
  }

  /** `bythos_summary_state`. */
  function SummaryState(s: Summary): (st: State) {
    if s.fail > 0 then FAIL else if s.warn > 0 then WARN else if s.ok > 0 then OK else SKIP
  }

  function ExitMeaning(code: int): (m: string) {
    if code == 0 then "no_fail"
    else if code == 1 then "posture_fail"
    else if code == 2 then "usage_error"
    else "unknown"
  }

  // ----- printing ------------------------------------------------------------------------

  /** A key that the format strings spell out, and the text printed for its value. */
  datatype Field = Field(key: string, text: string)

  function FieldsText(fs: seq<Field>): (t: string) {
    if |fs| == 0 then ""
    else if |fs| == 1 then Quoted(fs[0].key) + ":" + fs[0].text
    else Quoted(fs[0].key) + ":" + fs[0].text + "," + FieldsText(fs[1..])
  }

  function ObjText(fs: seq<Field>): (t: string) {
    "{" + FieldsText(fs) + "}"
  }

  function BoolText(b: bool): (t: string) {
    if b then "true" else "false"
  }

  function CountsFields(s: Summary): (fs: seq<Field>) {
    [Field("ok", Dec(s.ok)), Field("warn", Dec(s.warn)), Field("fail", Dec(s.fail)), Field("skip", Dec(s.skip))]
  }

  function CountsText(s: Summary): (t: string) { ObjText(CountsFields(s)) }

  function SummaryFields(s: Summary): (fs: seq<Field>) {
    [Field("state", PrintString(StateName(SummaryState(s)))), Field("counts", CountsText(s))]
  }

  /** `print_json_summary`. */
  function SummaryText(s: Summary): (t: string) { ObjText(SummaryFields(s)) }

  function ResultFields(r: CheckResult): (fs: seq<Field>) {
    [
      Field("name", PrintString(r.name)),
      Field("state", PrintString(StateName(r.state))),
      Field("skip_reason", PrintString(ReasonName(r.reason))),
      Field("detail", PrintString(r.detail)),
      Field("requires_root", BoolText(r.requiresRoot)),
      Field("actionable", BoolText(r.actionable))
    ]
  }

  function ResultText(r: CheckResult): (t: string) { ObjText(ResultFields(r)) }

  function SubgroupFields(name: string, summary: Summary, results: string, truncated: bool): (fs: seq<Field>) {
    [
      Field("name", PrintString(name)),
      Field("summary", SummaryText(summary)),
      Field("results", "[" + results + "]"),
      Field("truncated", BoolText(truncated))
    ]
  }

  function SubgroupText(name: string, summary: Summary, results: string, truncated: bool): (t: string) {
    ObjText(SubgroupFields(name, summary, results, truncated))
  }

  function GroupFields(name: string, summary: Summary, subgroups: string): (fs: seq<Field>) {
    [
      Field("name", PrintString(name)),
      Field("summary", SummaryText(summary)),
      Field("subgroups", "[" + subgroups + "]")
    ]
  }

  function GroupText(name: string, summary: Summary, subgroups: string): (t: string) {
    ObjText(GroupFields(name, summary, subgroups))
  }

  function DocumentFields(mode: string, banner: string, groups: string, overall: Summary, code: int): (fs: seq<Field>) {
    [
      Field("mode", PrintString(mode)),
      Field("banner", PrintString(banner)),
      Field("groups", "[" + groups + "]"),
      Field("overall", SummaryText(overall)),
      Field("exit_code", DecInt(code)),
      Field("exit_meaning", PrintString(ExitMeaning(code)))
    ]
  }

  function DocumentText(mode: string, banner: string, groups: string, overall: Summary, code: int): (t: string) {
    ObjText(DocumentFields(mode, banner, groups, overall, code))
  }

  // ----- the tree that is printed --------------------------------------------------------

  function CountsTree(s: Summary): (v: Value) {
    Obj([
      Member("ok", Num(s.ok)),
      Member("warn", Num(s.warn)),
      Member("fail", Num(s.fail)),
      Member("skip", Num(s.skip))
    ])
  }

  function SummaryTree(s: Summary): (v: Value) {
    Obj([Member("state", Str(StateName(SummaryState(s)))), Member("counts", CountsTree(s))])
  }

  function ResultTree(r: CheckResult): (v: Value) {
    Obj([
      Member("name", Str(r.name)),
      Member("state", Str(StateName(r.state))),
      Member("skip_reason", Str(ReasonName(r.reason))),
      Member("detail", Str(r.detail)),
      Member("requires_root", Bool(r.requiresRoot)),
      Member("actionable", Bool(r.actionable))
    ])
  }

  function ResultTrees(rs: seq<CheckResult>): (vs: seq<Value>) {
    seq(|rs|, i requires 0 <= i < |rs| => ResultTree(rs[i]))
  }

  function SubgroupTree(g: Subgroup): (v: Value) {
    Obj([
      Member("name", Str(g.name)),
      Member("summary", SummaryTree(g.summary)),
      Member("results", Arr(ResultTrees(g.results))),
      Member("truncated", Bool(g.truncated))
    ])
  }

  function SubgroupTrees(gs: seq<Subgroup>): (vs: seq<Value>) {
    seq(|gs|, i requires 0 <= i < |gs| => SubgroupTree(gs[i]))
  }

  function GroupTree(g: Group): (v: Value) {
    Obj([
      Member("name", Str(g.name)),
      Member("summary", SummaryTree(g.summary)),
      Member("subgroups", Arr(SubgroupTrees(g.subgroups)))
    ])
  }

  function GroupTrees(gs: seq<Group>): (vs: seq<Value>) {
    seq(|gs|, i requires 0 <= i < |gs| => GroupTree(gs[i]))
  }

  function DocumentTree(d: Document): (v: Value) {
    Obj([
      Member("mode", Str(d.mode)),
      Member("banner", Str(d.banner)),
      Member("groups", Arr(GroupTrees(d.groups))),
      Member("overall", SummaryTree(d.overall)),
      Member("exit_code", Num(d.exitCode)),
      Member("exit_meaning", Str(ExitMeaning(d.exitCode)))
    ])
  }

  // ----- what is printed is the text of the tree -----------------------------------------

  /** A member whose key needs no escape, and the field printed for it. */
  ghost predicate Prints(f: Field, m: Member) {
    Plain(f.key) && m.key == f.key && f.text == Text(m.value)
  }

  lemma {:induction false} FieldsAreMembers(fs: seq<Field>, ms: seq<Member>)
    requires |fs| == |ms| && forall i :: 0 <= i < |fs| ==> Prints(fs[i], ms[i])
    ensures FieldsText(fs) == MembersText(ms)
  {
    if |fs| > 0 {
      PlainUnchanged(fs[0].key);
      if |fs| > 1 {
        FieldsAreMembers(fs[1..], ms[1..]);
      }
    }
  }

  lemma ResultKeysPlain()
    ensures Plain("name") && Plain("state") && Plain("skip_reason") && Plain("detail")
    ensures Plain("requires_root") && Plain("actionable")
  {
  }

  lemma GroupKeysPlain()
    ensures Plain("name") && Plain("summary") && Plain("results") && Plain("truncated") && Plain("subgroups")
  {
  }

  lemma DocumentKeysPlain()
    ensures Plain("mode") && Plain("banner") && Plain("groups") && Plain("overall")
    ensures Plain("exit_code") && Plain("exit_meaning")
  {
  }

  lemma SummaryKeysPlain()
    ensures Plain("state") && Plain("counts") && Plain("ok") && Plain("warn") && Plain("fail") && Plain("skip")
  {
  }

  /** An object of plain keys is printed field by field. */
  lemma ObjectIsTree(fs: seq<Field>, ms: seq<Member>)
    requires |fs| == |ms| && forall i :: 0 <= i < |fs| ==> Prints(fs[i], ms[i])
    ensures ObjText(fs) == Text(Obj(ms))
  {
    FieldsAreMembers(fs, ms);
  }

  lemma CountsAreTree(s: Summary)
    ensures CountsText(s) == Text(CountsTree(s))
  {
    SummaryKeysPlain();
    ObjectIsTree(CountsFields(s), CountsTree(s).members);
  }

  lemma SummaryIsTree(s: Summary)
    ensures SummaryText(s) == Text(SummaryTree(s))
  {
    SummaryKeysPlain();
    CountsAreTree(s);
    ObjectIsTree(SummaryFields(s), SummaryTree(s).members);
  }

  lemma ResultIsTree(r: CheckResult)
    ensures ResultText(r) == Text(ResultTree(r))
  {
    ResultKeysPlain();
    ObjectIsTree(ResultFields(r), ResultTree(r).members);
  }

  lemma SubgroupIsTree(g: Subgroup)
    ensures SubgroupText(g.name, g.summary, ElemsText(ResultTrees(g.results)), g.truncated) == Text(SubgroupTree(g))
  {
    GroupKeysPlain();
    SummaryIsTree(g.summary);
    ObjectIsTree(SubgroupFields(g.name, g.summary, ElemsText(ResultTrees(g.results)), g.truncated),
                 SubgroupTree(g).members);
  }

  lemma GroupIsTree(g: Group)
    ensures GroupText(g.name, g.summary, ElemsText(SubgroupTrees(g.subgroups))) == Text(GroupTree(g))
  {
    GroupKeysPlain();
    SummaryIsTree(g.summary);
    ObjectIsTree(GroupFields(g.name, g.summary, ElemsText(SubgroupTrees(g.subgroups))), GroupTree(g).members);
  }

  lemma DocumentIsTree(d: Document)
    ensures DocumentText(d.mode, d.banner, ElemsText(GroupTrees(d.groups)), d.overall, d.exitCode)
            == Text(DocumentTree(d))
  {
    SummaryIsTree(d.overall);
    var fs := DocumentFields(d.mode, d.banner, ElemsText(GroupTrees(d.groups)), d.overall, d.exitCode);
    DocumentPrints(fs, DocumentTree(d).members, d);
    ObjectIsTree(fs, DocumentTree(d).members);
  }

  lemma {:induction false} DocumentPrints(fs: seq<Field>, ms: seq<Member>, d: Document)
    requires fs == DocumentFields(d.mode, d.banner, ElemsText(GroupTrees(d.groups)), d.overall, d.exitCode)
    requires ms == DocumentTree(d).members && SummaryText(d.overall) == Text(SummaryTree(d.overall))
    ensures |fs| == |ms| && forall i :: 0 <= i < |fs| ==> Prints(fs[i], ms[i])
  {
    DocumentKeysPlain();
  }

  // ----- the loops of `print_json` -------------------------------------------------------

  lemma {:induction false} ElemsSnoc(vs: seq<Value>, v: Value)
    ensures ElemsText(vs + [v]) == if |vs| == 0 then Text(v) else ElemsText(vs) + "," + Text(v)
    decreases |vs|
  {
    if |vs| == 0 {
      assert vs + [v] == [v];
    } else {
      ElemsSnoc(vs[1..], v);
      assert (vs + [v])[1..] == vs[1..] + [v];
      if |vs| > 1 {
        Assoc(Text(vs[0]) + ",", ElemsText(vs[1..]), "," + Text(v));
        Assoc(ElemsText(vs[1..]), ",", Text(v));
        Assoc(ElemsText(vs), ",", Text(v));
      }
    }
  }

  /** What a loop prints after `n` elements: a comma before every element but the first. */
  lemma ElemsNext(vs: seq<Value>, n: nat, comma: string)
    requires n < |vs| && comma == (if n > 0 then "," else "")
    ensures ElemsText(vs[..n + 1]) == ElemsText(vs[..n]) + comma + Text(vs[n])
  {
    assert vs[..n + 1] == vs[..n] + [vs[n]];
    ElemsSnoc(vs[..n], vs[n]);
    if n == 0 {
      assert "" + "" + Text(vs[n]) == Text(vs[n]);
    }
  }

  method PrintResults(results: seq<CheckResult>) returns (out: string)
    ensures out == ElemsText(ResultTrees(results))
  {
    out := "";
    ghost var trees := ResultTrees(results);
    for j := 0 to |results|
      invariant out == ElemsText(trees[..j])
    {
      var comma := if j > 0 then "," else "";
      ElemsNext(trees, j, comma);
      ResultIsTree(results[j]);
      out := out + comma + ResultText(results[j]);
    }
    assert trees[..|results|] == trees;
  }

  method PrintSubgroups(subgroups: seq<Subgroup>) returns (out: string)
    ensures out == ElemsText(SubgroupTrees(subgroups))
  {
    out := "";
    ghost var trees := SubgroupTrees(subgroups);
    for s := 0 to |subgroups|
      invariant out == ElemsText(trees[..s])
    {
      var comma := if s > 0 then "," else "";
      var g := subgroups[s];
      ElemsNext(trees, s, comma);
      SubgroupIsTree(g);
      var results := PrintResults(g.results);
      out := out + comma + SubgroupText(g.name, g.summary, results, g.truncated);
    }
    assert trees[..|subgroups|] == trees;
  }

  method PrintGroups(groups: seq<Group>) returns (out: string)
    ensures out == ElemsText(GroupTrees(groups))
  {
    out := "";
    ghost var trees := GroupTrees(groups);
    for i := 0 to |groups|
      invariant out == ElemsText(trees[..i])
    {
      var comma := if i > 0 then "," else "";
      var g := groups[i];
      ElemsNext(trees, i, comma);
      GroupIsTree(g);
      var subgroups := PrintSubgroups(g.subgroups);
      out := out + comma + GroupText(g.name, g.summary, subgroups);
    }
    assert trees[..|groups|] == trees;
  }

  /** `print_json`: the document is the text of its tree and a line end. */
  method PrintJson(d: Document) returns (out: string)
    ensures out == Text(DocumentTree(d)) + "\n"
  {
    var groups := PrintGroups(d.groups);
    DocumentIsTree(d);
    out := DocumentText(d.mode, d.banner, groups, d.overall, d.exitCode) + "\n";
  }

  // ----- recovering the report -----------------------------------------------------------

  /** The value under `key`, which stands at place `i`. */
  function Under(v: Value, i: nat, key: string): (r: Value) {
    if v.Obj? && i < |v.members| && v.members[i].key == key then v.members[i].value else Bool(false)
  }

  function StrIn(v: Value): (s: string) { if v.Str? then v.s else "" }

  function BoolIn(v: Value): (b: bool) { v.Bool? && v.b }

  function NumIn(v: Value): (n: int) { if v.Num? then v.n else 0 }

  function CountIn(v: Value): (n: nat) { if v.Num? && v.n >= 0 then v.n else 0 }

  function ElemsIn(v: Value): (vs: seq<Value>) { if v.Arr? then v.elems else [] }

  function StateOf(name: string): (s: State) {
    if name == "OK" then OK else if name == "WARN" then WARN else if name == "FAIL" then FAIL else SKIP
  }

  function ReasonOf(name: string): (r: SkipReason) {
    if name == "NONE" then NONE
    else if name == "TOOL_ABSENT" then TOOL_ABSENT
    else if name == "FEATURE_ABSENT" then FEATURE_ABSENT
    else if name == "EXEC_FAILED" then EXEC_FAILED
    else if name == "PROBE_INDETERMINATE" then PROBE_INDETERMINATE
    else if name == "REPORT_FIELD_ABSENT" then REPORT_FIELD_ABSENT
    else if name == "OUTPUT_UNPARSEABLE" then OUTPUT_UNPARSEABLE
    else if name == "NOT_CONFIGURED" then NOT_CONFIGURED
    else if name == "SUBJECT_ABSENT" then SUBJECT_ABSENT
    else if name == "HW_ABSENT" then HW_ABSENT
    else VENDOR_SCOPE
  }

  function SummaryIn(v: Value): (s: Summary) {
    var c := Under(v, 1, "counts");
    Summary(CountIn(Under(c, 0, "ok")), CountIn(Under(c, 1, "warn")), CountIn(Under(c, 2, "fail")),
            CountIn(Under(c, 3, "skip")))
  }

  function ResultIn(v: Value): (r: CheckResult) {
    CheckResult(
      StrIn(Under(v, 0, "name")), StateOf(StrIn(Under(v, 1, "state"))), ReasonOf(StrIn(Under(v, 2, "skip_reason"))),
      StrIn(Under(v, 3, "detail")), BoolIn(Under(v, 4, "requires_root")), BoolIn(Under(v, 5, "actionable")))
  }

  function SubgroupIn(v: Value): (g: Subgroup) {
    var rs := ElemsIn(Under(v, 2, "results"));
    Subgroup(StrIn(Under(v, 0, "name")), SummaryIn(Under(v, 1, "summary")),
             seq(|rs|, i requires 0 <= i < |rs| => ResultIn(rs[i])), BoolIn(Under(v, 3, "truncated")))
  }

  function GroupIn(v: Value): (g: Group) {
    var gs := ElemsIn(Under(v, 2, "subgroups"));
    Group(StrIn(Under(v, 0, "name")), SummaryIn(Under(v, 1, "summary")),
          seq(|gs|, i requires 0 <= i < |gs| => SubgroupIn(gs[i])))
  }

  /** The report in a document tree. */
  function DocumentIn(v: Value): (d: Document) {
    var gs := ElemsIn(Under(v, 2, "groups"));
    Document(StrIn(Under(v, 0, "mode")), StrIn(Under(v, 1, "banner")),
             seq(|gs|, i requires 0 <= i < |gs| => GroupIn(gs[i])),
             SummaryIn(Under(v, 3, "overall")), NumIn(Under(v, 4, "exit_code")))
  }

  function SanitisedResult(r: CheckResult): (q: CheckResult) {
    r.(name := Sanitise(r.name), detail := Sanitise(r.detail))
  }

  function SanitisedSubgroup(g: Subgroup): (h: Subgroup) {
    Subgroup(Sanitise(g.name), g.summary,
             seq(|g.results|, i requires 0 <= i < |g.results| => SanitisedResult(g.results[i])), g.truncated)
  }

  function SanitisedGroup(g: Group): (h: Group) {
    Group(Sanitise(g.name), g.summary,
          seq(|g.subgroups|, i requires 0 <= i < |g.subgroups| => SanitisedSubgroup(g.subgroups[i])))
  }

  function SanitisedDocument(d: Document): (e: Document) {
    Document(Sanitise(d.mode), Sanitise(d.banner),
             seq(|d.groups|, i requires 0 <= i < |d.groups| => SanitisedGroup(d.groups[i])), d.overall, d.exitCode)
  }

  lemma UnderKey(ms: seq<Member>, i: nat, key: string, value: Value)
    requires i < |ms| && ms[i] == Member(key, value) && Plain(key)
    ensures Under(Sanitised(Obj(ms)), i, key) == Sanitised(value)
  {
    PlainUnchanged(key);
    assert Sanitised(Obj(ms)).members[i] == SanitisedMember(ms[i]);
  }

  /** Each member of an object of plain keys is found in its place, sanitised. */
  ghost predicate HasMembers(v: Value, ms: seq<Member>) {
    forall i :: 0 <= i < |ms| ==> Under(v, i, ms[i].key) == Sanitised(ms[i].value)
  }

  ghost predicate PlainKeys(ms: seq<Member>) {
    forall i :: 0 <= i < |ms| ==> Plain(ms[i].key)
  }

  lemma CountsPlain(ms: seq<Member>, s: Summary)
    requires ms == CountsTree(s).members
    ensures PlainKeys(ms)
  {
    SummaryKeysPlain();
  }

  lemma SummaryPlain(ms: seq<Member>, s: Summary)
    requires ms == SummaryTree(s).members
    ensures PlainKeys(ms)
  {
    SummaryKeysPlain();
  }

  lemma ResultPlain(ms: seq<Member>, r: CheckResult)
    requires ms == ResultTree(r).members
    ensures PlainKeys(ms)
  {
    ResultKeysPlain();
  }

  lemma SubgroupPlain(ms: seq<Member>, g: Subgroup)
    requires ms == SubgroupTree(g).members
    ensures PlainKeys(ms)
  {
    GroupKeysPlain();
  }

  lemma GroupPlain(ms: seq<Member>, g: Group)
    requires ms == GroupTree(g).members
    ensures PlainKeys(ms)
  {
    GroupKeysPlain();
  }

  lemma DocumentPlain(ms: seq<Member>, d: Document)
    requires ms == DocumentTree(d).members
    ensures PlainKeys(ms)
  {
    DocumentKeysPlain();
  }

  lemma UnderAll(v: Value, ms: seq<Member>)
    requires v == Sanitised(Obj(ms)) && PlainKeys(ms)
    ensures HasMembers(v, ms)
  {
    forall i | 0 <= i < |ms|
      ensures Under(v, i, ms[i].key) == Sanitised(ms[i].value)
    {
      UnderKey(ms, i, ms[i].key, ms[i].value);
    }
  }

  lemma StateRecovered(s: State)
    ensures StateOf(Sanitise(StateName(s))) == s
  {
    PlainUnchanged(StateName(s));
  }

  lemma ReasonNamesDiffer(r: SkipReason)
    ensures ReasonOf(ReasonName(r)) == r
  {
  }

  lemma ReasonNamePlain(r: SkipReason)
    ensures Plain(ReasonName(r))
  {
    match r
    case NONE => assert Plain("NONE");
    case TOOL_ABSENT => assert Plain("TOOL_ABSENT");
    case FEATURE_ABSENT => assert Plain("FEATURE_ABSENT");
    case EXEC_FAILED => assert Plain("EXEC_FAILED");
    case PROBE_INDETERMINATE => assert Plain("PROBE_INDETERMINATE");
    case REPORT_FIELD_ABSENT => assert Plain("REPORT_FIELD_ABSENT");
    case _ => LastReasonsPlain(r);
  }

  lemma LastReasonsPlain(r: SkipReason)
    requires r.OUTPUT_UNPARSEABLE? || r.NOT_CONFIGURED? || r.SUBJECT_ABSENT? || r.HW_ABSENT? || r.VENDOR_SCOPE?
    ensures Plain(ReasonName(r))
  {
  }

  lemma ReasonRecovered(r: SkipReason)
    ensures ReasonOf(Sanitise(ReasonName(r))) == r
  {
    ReasonNamePlain(r);
    SameReason(ReasonName(r));
    ReasonNamesDiffer(r);
  }

  lemma SameReason(name: string)
    requires Plain(name)
    ensures ReasonOf(Sanitise(name)) == ReasonOf(name)
  {
    PlainUnchanged(name);
  }

  lemma SummaryRecovered(s: Summary)
    ensures SummaryIn(Sanitised(SummaryTree(s))) == s
  {
    CountsPlain(CountsTree(s).members, s);
    SummaryPlain(SummaryTree(s).members, s);
    UnderAll(Sanitised(CountsTree(s)), CountsTree(s).members);
    UnderAll(Sanitised(SummaryTree(s)), SummaryTree(s).members);
    SummaryFrom(Sanitised(SummaryTree(s)), Sanitised(CountsTree(s)), SummaryTree(s).members, CountsTree(s).members, s);
  }

  lemma SummaryFrom(w: Value, c: Value, ms: seq<Member>, cs: seq<Member>, s: Summary)
    requires HasMembers(w, ms) && ms == SummaryTree(s).members && c == Sanitised(CountsTree(s))
    requires HasMembers(c, cs) && cs == CountsTree(s).members
    ensures SummaryIn(w) == s
  {
    assert ms[1].key == "counts" && Under(w, 1, "counts") == c;
    assert cs[0].key == "ok" && cs[1].key == "warn" && cs[2].key == "fail" && cs[3].key == "skip";
  }

  lemma ResultRecovered(r: CheckResult)
    ensures ResultIn(Sanitised(ResultTree(r))) == SanitisedResult(r)
  {
    ResultPlain(ResultTree(r).members, r);
    UnderAll(Sanitised(ResultTree(r)), ResultTree(r).members);
    ResultFrom(Sanitised(ResultTree(r)), ResultTree(r).members, r);
  }

  lemma ResultFrom(w: Value, ms: seq<Member>, r: CheckResult)
    requires HasMembers(w, ms) && ms == ResultTree(r).members
    ensures ResultIn(w) == SanitisedResult(r)
  {
    assert ms[0].key == "name" && ms[1].key == "state" && ms[2].key == "skip_reason";
    assert ms[3].key == "detail" && ms[4].key == "requires_root" && ms[5].key == "actionable";
    StateRecovered(r.state);
    ReasonRecovered(r.reason);
  }

  lemma ResultTreesRecovered(xs: seq<CheckResult>)
    ensures var vs := SanitisedElems(ResultTrees(xs));
      |vs| == |xs| && forall i :: 0 <= i < |xs| ==> ResultIn(vs[i]) == SanitisedResult(xs[i])
  {
    var vs := SanitisedElems(ResultTrees(xs));
    forall i | 0 <= i < |xs|
      ensures ResultIn(vs[i]) == SanitisedResult(xs[i])
    {
      ResultRecovered(xs[i]);
    }
  }

  lemma SubgroupRecovered(g: Subgroup)
    ensures SubgroupIn(Sanitised(SubgroupTree(g))) == SanitisedSubgroup(g)
  {
    var w, summary := Sanitised(SubgroupTree(g)), Sanitised(SummaryTree(g.summary));
    var rs := SanitisedElems(ResultTrees(g.results));
    SubgroupPlain(SubgroupTree(g).members, g);
    UnderAll(w, SubgroupTree(g).members);
    SubgroupParts(w, SubgroupTree(g).members, summary, rs, g);
    SummaryRecovered(g.summary);
    ResultTreesRecovered(g.results);
    SubgroupFrom(w, summary, rs, g);
  }

  lemma SubgroupParts(w: Value, ms: seq<Member>, summary: Value, rs: seq<Value>, g: Subgroup)
    requires HasMembers(w, ms) && ms == SubgroupTree(g).members
    requires summary == Sanitised(SummaryTree(g.summary)) && rs == SanitisedElems(ResultTrees(g.results))
    ensures Under(w, 0, "name") == Str(Sanitise(g.name)) && Under(w, 1, "summary") == summary
    ensures Under(w, 2, "results") == Arr(rs) && Under(w, 3, "truncated") == Bool(g.truncated)
  {
    assert ms[0].key == "name" && ms[1].key == "summary" && ms[2].key == "results" && ms[3].key == "truncated";
  }

  lemma SubgroupFrom(w: Value, summary: Value, rs: seq<Value>, g: Subgroup)
    requires Under(w, 0, "name") == Str(Sanitise(g.name)) && Under(w, 1, "summary") == summary
    requires Under(w, 2, "results") == Arr(rs) && Under(w, 3, "truncated") == Bool(g.truncated)
    requires SummaryIn(summary) == g.summary && |rs| == |g.results|
    requires forall i :: 0 <= i < |rs| ==> ResultIn(rs[i]) == SanitisedResult(g.results[i])
    ensures SubgroupIn(w) == SanitisedSubgroup(g)
  {
  }

  lemma SubgroupTreesRecovered(xs: seq<Subgroup>)
    ensures var vs := SanitisedElems(SubgroupTrees(xs));
      |vs| == |xs| && forall i :: 0 <= i < |xs| ==> SubgroupIn(vs[i]) == SanitisedSubgroup(xs[i])
  {
    var vs := SanitisedElems(SubgroupTrees(xs));
    forall i | 0 <= i < |xs|
      ensures SubgroupIn(vs[i]) == SanitisedSubgroup(xs[i])
    {
      SubgroupRecovered(xs[i]);
    }
  }

  lemma GroupRecovered(g: Group)
    ensures GroupIn(Sanitised(GroupTree(g))) == SanitisedGroup(g)
  {
    var w, summary := Sanitised(GroupTree(g)), Sanitised(SummaryTree(g.summary));
    var gs := SanitisedElems(SubgroupTrees(g.subgroups));
    GroupPlain(GroupTree(g).members, g);
    UnderAll(w, GroupTree(g).members);
    GroupParts(w, GroupTree(g).members, summary, gs, g);
    SummaryRecovered(g.summary);
    SubgroupTreesRecovered(g.subgroups);
    GroupFrom(w, summary, gs, g);
  }

  lemma GroupParts(w: Value, ms: seq<Member>, summary: Value, gs: seq<Value>, g: Group)
    requires HasMembers(w, ms) && ms == GroupTree(g).members
    requires summary == Sanitised(SummaryTree(g.summary)) && gs == SanitisedElems(SubgroupTrees(g.subgroups))
    ensures Under(w, 0, "name") == Str(Sanitise(g.name)) && Under(w, 1, "summary") == summary
    ensures Under(w, 2, "subgroups") == Arr(gs)
  {
    assert ms[0].key == "name" && ms[1].key == "summary" && ms[2].key == "subgroups";
  }

  lemma GroupFrom(w: Value, summary: Value, gs: seq<Value>, g: Group)
    requires Under(w, 0, "name") == Str(Sanitise(g.name)) && Under(w, 1, "summary") == summary
    requires Under(w, 2, "subgroups") == Arr(gs)
    requires SummaryIn(summary) == g.summary && |gs| == |g.subgroups|
    requires forall i :: 0 <= i < |gs| ==> SubgroupIn(gs[i]) == SanitisedSubgroup(g.subgroups[i])
    ensures GroupIn(w) == SanitisedGroup(g)
  {
  }

  lemma GroupTreesRecovered(xs: seq<Group>)
    ensures var vs := SanitisedElems(GroupTrees(xs));
      |vs| == |xs| && forall i :: 0 <= i < |xs| ==> GroupIn(vs[i]) == SanitisedGroup(xs[i])
  {
    var vs := SanitisedElems(GroupTrees(xs));
    forall i | 0 <= i < |xs|
      ensures GroupIn(vs[i]) == SanitisedGroup(xs[i])
    {
      GroupRecovered(xs[i]);
    }
  }

  lemma TreeRecovered(d: Document)
    ensures DocumentIn(Sanitised(DocumentTree(d))) == SanitisedDocument(d)
  {
    var w, overall := Sanitised(DocumentTree(d)), Sanitised(SummaryTree(d.overall));
    var gs := SanitisedElems(GroupTrees(d.groups));
    DocumentPlain(DocumentTree(d).members, d);
    UnderAll(w, DocumentTree(d).members);
    DocumentParts(w, DocumentTree(d).members, overall, gs, d);
    SummaryRecovered(d.overall);
    GroupTreesRecovered(d.groups);
    DocumentFrom(w, overall, gs, d);
  }

  lemma DocumentParts(w: Value, ms: seq<Member>, overall: Value, gs: seq<Value>, d: Document)
    requires HasMembers(w, ms) && ms == DocumentTree(d).members
    requires overall == Sanitised(SummaryTree(d.overall)) && gs == SanitisedElems(GroupTrees(d.groups))
    ensures Under(w, 0, "mode") == Str(Sanitise(d.mode)) && Under(w, 1, "banner") == Str(Sanitise(d.banner))
    ensures Under(w, 2, "groups") == Arr(gs) && Under(w, 3, "overall") == overall
    ensures Under(w, 4, "exit_code") == Num(d.exitCode)
  {
    assert ms[0].key == "mode" && ms[1].key == "banner" && ms[2].key == "groups" && ms[3].key == "overall";
    assert ms[4].key == "exit_code";
  }

  lemma DocumentFrom(w: Value, overall: Value, gs: seq<Value>, d: Document)
    requires Under(w, 0, "mode") == Str(Sanitise(d.mode)) && Under(w, 1, "banner") == Str(Sanitise(d.banner))
    requires Under(w, 2, "groups") == Arr(gs) && Under(w, 3, "overall") == overall
    requires Under(w, 4, "exit_code") == Num(d.exitCode)
    requires SummaryIn(overall) == d.overall && |gs| == |d.groups|
    requires forall i :: 0 <= i < |gs| ==> GroupIn(gs[i]) == SanitisedGroup(d.groups[i])
    ensures DocumentIn(w) == SanitisedDocument(d)
  {
  }

  /** Whatever bytes its strings carry, the printed document is one JSON text, and reading it
      gives back the report with every string sanitised and everything else unchanged. */
  lemma DocumentRecovered(d: Document)
    ensures var r := ReadDocument(Text(DocumentTree(d)) + "\n");
      r.Good? && DocumentIn(r.value) == SanitisedDocument(d)
  {
    DocumentRoundTrip(DocumentTree(d));
    TreeRecovered(d);
  }

  // ----- states and exit meaning, as a reader finds them ---------------------------------

  /** The state that is printed for a summary with these rows. */
  ghost predicate ShowsState(summary: Value, fail: bool, warn: bool, ok: bool) {
    Under(summary, 0, "state")
    == Str(if fail then "FAIL" else if warn then "WARN" else if ok then "OK" else "SKIP")
  }

  lemma {:induction false} StateShown(s: Summary)
    ensures ShowsState(Sanitised(SummaryTree(s)), s.fail > 0, s.warn > 0, s.ok > 0)
  {
    SummaryPlain(SummaryTree(s).members, s);
    UnderAll(Sanitised(SummaryTree(s)), SummaryTree(s).members);
    StateFrom(Sanitised(SummaryTree(s)), SummaryTree(s).members, s);
  }

  lemma {:induction false} StateFrom(w: Value, ms: seq<Member>, s: Summary)
    requires HasMembers(w, ms) && ms == SummaryTree(s).members
    ensures ShowsState(w, s.fail > 0, s.warn > 0, s.ok > 0)
  {
    assert ms[0].key == "state" && ms[0].value == Str(StateName(SummaryState(s)));
    StatePlain(SummaryState(s));
  }

  lemma {:induction false} StatePlain(s: State)
    ensures Sanitise(StateName(s)) == StateName(s)
  {
    PlainUnchanged(StateName(s));
  }

  /** What the exit code of a run means. */
  lemma {:induction false} MeaningShown(d: Document)
    requires d.exitCode == 0 || d.exitCode == 1
    ensures Under(Sanitised(DocumentTree(d)), 5, "exit_meaning")
            == Str(if d.exitCode == 0 then "no_fail" else "posture_fail")
  {
    DocumentPlain(DocumentTree(d).members, d);
    UnderAll(Sanitised(DocumentTree(d)), DocumentTree(d).members);
    MeaningFrom(Sanitised(DocumentTree(d)), DocumentTree(d).members, d);
  }

  lemma {:induction false} MeaningFrom(w: Value, ms: seq<Member>, d: Document)
    requires HasMembers(w, ms) && ms == DocumentTree(d).members && (d.exitCode == 0 || d.exitCode == 1)
    ensures Under(w, 5, "exit_meaning") == Str(if d.exitCode == 0 then "no_fail" else "posture_fail")
  {
    assert ms[5].key == "exit_meaning" && ms[5].value == Str(ExitMeaning(d.exitCode));
    MeaningPlain(ExitMeaning(d.exitCode));
  }

  lemma {:induction false} MeaningPlain(meaning: string)
    requires meaning == "no_fail" || meaning == "posture_fail"
    ensures Sanitise(meaning) == meaning
  {
    PlainUnchanged(meaning);
  }

  /** The summaries in a document's tree: of a subgroup, of its group and of the whole. */
  lemma {:induction false} OverallIn(d: Document)
    ensures Under(Sanitised(DocumentTree(d)), 3, "overall") == Sanitised(SummaryTree(d.overall))
    ensures Under(Sanitised(DocumentTree(d)), 2, "groups") == Arr(SanitisedElems(GroupTrees(d.groups)))
  {
    DocumentPlain(DocumentTree(d).members, d);
    UnderAll(Sanitised(DocumentTree(d)), DocumentTree(d).members);
    DocumentParts(Sanitised(DocumentTree(d)), DocumentTree(d).members, Sanitised(SummaryTree(d.overall)),
                  SanitisedElems(GroupTrees(d.groups)), d);
  }

  lemma {:induction false} GroupSummaryIn(g: Group)
    ensures Under(Sanitised(GroupTree(g)), 1, "summary") == Sanitised(SummaryTree(g.summary))
    ensures Under(Sanitised(GroupTree(g)), 2, "subgroups") == Arr(SanitisedElems(SubgroupTrees(g.subgroups)))
  {
    GroupPlain(GroupTree(g).members, g);
    UnderAll(Sanitised(GroupTree(g)), GroupTree(g).members);
    GroupParts(Sanitised(GroupTree(g)), GroupTree(g).members, Sanitised(SummaryTree(g.summary)),
               SanitisedElems(SubgroupTrees(g.subgroups)), g);
  }

  lemma {:induction false} SubgroupSummaryIn(g: Subgroup)
    ensures Under(Sanitised(SubgroupTree(g)), 1, "summary") == Sanitised(SummaryTree(g.summary))
  {
    SubgroupPlain(SubgroupTree(g).members, g);
    UnderAll(Sanitised(SubgroupTree(g)), SubgroupTree(g).members);
    SubgroupParts(Sanitised(SubgroupTree(g)), SubgroupTree(g).members, Sanitised(SummaryTree(g.summary)),
                  SanitisedElems(ResultTrees(g.results)), g);
  }
}
