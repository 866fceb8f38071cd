/** Running the checks of a subgroup into its fixed array of rows (src/check_groups.c), and the
    counts and the exit code of the whole run (src/main.c). */
module Subgroups {
  import opened CText
  import opened Checks
  import opened Json
  import opened JsonReport

  const MAX_RESULTS: nat := 32

  /** The complete rows of the check functions, one after the other. */
  function AllRows(fns: seq<seq<CheckResult>>): (rows: seq<CheckResult>) {
    if |fns| == 0 then [] else AllRows(fns[..|fns| - 1]) + fns[|fns| - 1]
  }

  function CountState(rows: seq<CheckResult>, s: State): (n: nat) {
    if |rows| == 0 then 0 else CountState(rows[..|rows| - 1], s) + if rows[|rows| - 1].state == s then 1 else 0
  }

  function SummaryOf(rows: seq<CheckResult>): (s: Summary) {
    Summary(CountState(rows, OK), CountState(rows, WARN), CountState(rows, FAIL), CountState(rows, SKIP))
  }

  /** `bythos_summary_add`: the counts of some rows become those of one row more. */
  method SummaryAdd(summary: Summary, result: CheckResult, ghost rows: seq<CheckResult>) returns (s: Summary)
    requires summary == SummaryOf(rows)
    ensures s == SummaryOf(rows + [result])
  {
    assert (rows + [result])[..|rows|] == rows;
    match result.state {
      case OK => return summary.(ok := summary.ok + 1);
      case WARN => return summary.(warn := summary.warn + 1);
      case FAIL => return summary.(fail := summary.fail + 1);
      case SKIP => return summary.(skip := summary.skip + 1);
    }
  }

  /** `check_subgroup_t`: one slot more than the rows that are kept. */
  class Buffer {
    const results: array<CheckResult>
    var resultCount: nat
    var truncated: bool
    var summary: Summary

    ghost predicate Valid()
      reads this
    {
      results.Length == MAX_RESULTS + 1 && resultCount <= MAX_RESULTS
    }

    /** The rows kept so far. */
    ghost function Rows(): (rows: seq<CheckResult>)
      requires Valid()
      reads this, results
    {
      results[..resultCount]
    }

    constructor ()
      ensures Valid() && fresh(results) && Rows() == [] && !truncated && summary == Summary(0, 0, 0, 0)
    {
      results := new CheckResult[MAX_RESULTS + 1];
      resultCount, truncated, summary := 0, false, Summary(0, 0, 0, 0);
    }

    /** A check function that would emit `rows`: it writes those for which it is given room, and says
        how many. */
    method Produce(rows: seq<CheckResult>, max: nat) returns (used: nat)
      requires Valid() && resultCount + max <= results.Length
      modifies results
      ensures used == Least(|rows|, max)
      ensures results[..resultCount + used] == old(results[..resultCount]) + rows[..used]
    {
      used := 0;
      while used < |rows| && used < max
        invariant used <= |rows| && used <= max
        invariant results[..resultCount + used] == old(results[..resultCount]) + rows[..used]
      {
        results[resultCount + used] := rows[used];
        used := used + 1;
      }
    }

    /** One turn of the loop over the functions. */
    method RunFunction(rows: seq<CheckResult>)
      requires Valid() && resultCount < MAX_RESULTS
      modifies this`resultCount, this`truncated, results
      ensures Valid()
      ensures Rows() == Kept(old(Rows()) + rows)
      ensures truncated == (old(truncated) || |old(Rows()) + rows| > MAX_RESULTS)
    {
      var remaining := MAX_RESULTS - resultCount;
      var produced := Produce(rows, remaining + 1);
      if produced > remaining {
        truncated := true;
        produced := remaining;
      }
      ghost var before := old(Rows());
      assert results[..resultCount + produced] == before + rows[..produced];
      assert before + rows[..produced] == Kept(before + rows);
      resultCount := resultCount + produced;
    }
  }

  /** `subgroup_finalize`. */
  method Finalize(sg: Buffer)
    requires sg.Valid() && sg.summary == Summary(0, 0, 0, 0)
    modifies sg`summary
    ensures sg.summary == SummaryOf(sg.Rows())
  {
    for i := 0 to sg.resultCount
      invariant sg.summary == SummaryOf(sg.Rows()[..i])
    {
      assert sg.Rows()[..i + 1] == sg.Rows()[..i] + [sg.results[i]];
      sg.summary := SummaryAdd(sg.summary, sg.results[i], sg.Rows()[..i]);
    }
    assert sg.Rows()[..sg.resultCount] == sg.Rows();
  }

  /** The first rows, as many as a subgroup keeps. */
  function Kept(rows: seq<CheckResult>): (kept: seq<CheckResult>)
    ensures kept <= rows
  {
    rows[..Least(|rows|, MAX_RESULTS)]
  }

  /** A row was dropped, or a function was left when the array was full. */
  predicate Truncated(fns: seq<seq<CheckResult>>) {
    |fns| > 0
    && (Truncated(fns[..|fns| - 1]) || |AllRows(fns[..|fns| - 1])| >= MAX_RESULTS || |AllRows(fns)| > MAX_RESULTS)
  }

  /** The loop over the functions of one subgroup. */
  method RunFunctions(sg: Buffer, fns: seq<seq<CheckResult>>)
    requires sg.Valid() && sg.resultCount == 0 && !sg.truncated
    modifies sg`resultCount, sg`truncated, sg.results
    ensures sg.Valid() && sg.Rows() == Kept(AllRows(fns)) && sg.truncated == Truncated(fns)
  {
    var j := 0;
    assert fns[..0] == [];
    while j < |fns|
      invariant j <= |fns| && sg.Valid()
      invariant sg.Rows() == Kept(AllRows(fns[..j])) && sg.truncated == Truncated(fns[..j])
    {
      assert fns[..j + 1][..j] == fns[..j];
      if sg.resultCount >= MAX_RESULTS {
        sg.truncated := true;
        Full(fns, j);
        return;
      }
      sg.RunFunction(fns[j]);
      j := j + 1;
    }
    assert fns[..|fns|] == fns;
  }

  /** Once the array is full, later functions change nothing but the flag. */
  lemma {:induction false} Full(fns: seq<seq<CheckResult>>, j: nat)
    requires j < |fns| && |AllRows(fns[..j])| >= MAX_RESULTS
    ensures Truncated(fns) && Kept(AllRows(fns)) == Kept(AllRows(fns[..j])) && |AllRows(fns)| >= MAX_RESULTS
    decreases |fns| - j
  {
    assert fns[..j + 1][..j] == fns[..j];
    if j + 1 < |fns| {
      Full(fns, j + 1);
    } else {
      assert fns[..j + 1] == fns;
    }
  }

  // All subgroups.

  /** `subgroup_def_t`: a name and what its check functions would emit. */
  datatype Def = Def(name: string, fns: seq<seq<CheckResult>>)

  function SubgroupOf(def: Def): (sg: Subgroup) {
    var rows := Kept(AllRows(def.fns));
    Subgroup(def.name, SummaryOf(rows), rows, Truncated(def.fns))
  }

  method RunSubgroup(def: Def) returns (sg: Subgroup)
    ensures sg == SubgroupOf(def)
  {
    var buffer := new Buffer();
    RunFunctions(buffer, def.fns);
    Finalize(buffer);
    sg := Subgroup(def.name, buffer.summary, buffer.results[..buffer.resultCount], buffer.truncated);
  }

  function SubgroupsOf(defs: seq<Def>): (sgs: seq<Subgroup>)
    ensures |sgs| == |defs|
  {
    if |defs| == 0 then [] else SubgroupsOf(defs[..|defs| - 1]) + [SubgroupOf(defs[|defs| - 1])]
  }

  /** `run_subgroups`. */
  method RunSubgroups(defs: seq<Def>, maxSubgroups: nat) returns (sgs: seq<Subgroup>)
    ensures sgs == SubgroupsOf(defs[..Least(|defs|, maxSubgroups)])
  {
    sgs := [];
    var i := 0;
    while i < |defs| && i < maxSubgroups
      invariant i <= |defs| && i <= maxSubgroups
      invariant sgs == SubgroupsOf(defs[..i])
    {
      assert defs[..i + 1][..i] == defs[..i];
      var sg := RunSubgroup(defs[i]);
      sgs := sgs + [sg];
      i := i + 1;
    }
  }

  function Merge(a: Summary, b: Summary): (s: Summary) {
    Summary(a.ok + b.ok, a.warn + b.warn, a.fail + b.fail, a.skip + b.skip)
  }

  function Overall(sgs: seq<Subgroup>): (s: Summary) {
    if |sgs| == 0 then Summary(0, 0, 0, 0) else Merge(Overall(sgs[..|sgs| - 1]), sgs[|sgs| - 1].summary)
  }

  /** The loop of `main` that merges the summaries, and the exit code. */
  method MergeSummaries(sgs: seq<Subgroup>) returns (overall: Summary, exitCode: int)
    ensures overall == Overall(sgs) && exitCode == if overall.fail > 0 then 1 else 0
  {
    overall := Summary(0, 0, 0, 0);
    for i := 0 to |sgs|
      invariant overall == Overall(sgs[..i])
    {
      assert sgs[..i + 1][..i] == sgs[..i];
      overall := Merge(overall, sgs[i].summary);
    }
    assert sgs[..|sgs|] == sgs;
    exitCode := if overall.fail > 0 then 1 else 0;
  }

  const MAX_GROUP_SUBGROUPS: nat := 16

  /** The document of a run over these definitions. */
  function DocumentOf(defs: seq<Def>): (d: Document) {
    var sgs := SubgroupsOf(defs[..Least(|defs|, MAX_GROUP_SUBGROUPS)]);
    var overall := Overall(sgs);
    Document("firmware", "firmware trust posture", [Group("firmware", overall, sgs)], overall,
             if overall.fail > 0 then 1 else 0)
  }

  /** `main` in JSON mode: the document printed is that of the run. */
  method RunJson(defs: seq<Def>) returns (out: string, exitCode: int)
    ensures out == Text(DocumentTree(DocumentOf(defs))) + "\n" && exitCode == DocumentOf(defs).exitCode
  {
    var sgs := RunSubgroups(defs, MAX_GROUP_SUBGROUPS);
    var overall;
    overall, exitCode := MergeSummaries(sgs);
    var group := Group("firmware", overall, sgs);
    out := PrintJson(Document("firmware", "firmware trust posture", [group], overall, exitCode));
  }

  // What a run keeps and says.

  /** The flag is set exactly when a row was dropped or a function was not run. */
  lemma {:induction false} TruncatedExactly(fns: seq<seq<CheckResult>>)
    ensures Truncated(fns)
            <==> |AllRows(fns)| > MAX_RESULTS
                 || exists j :: 0 <= j < |fns| && |AllRows(fns[..j])| >= MAX_RESULTS
  {
    if |fns| > 0 {
      var before := fns[..|fns| - 1];
      TruncatedExactly(before);
      assert forall j :: 0 <= j < |before| ==> before[..j] == fns[..j];
      if |AllRows(before)| > MAX_RESULTS {
        assert |AllRows(fns[..|fns| - 1])| >= MAX_RESULTS;
      }
    }
  }

  /** The four counts sum to the rows kept. */
  lemma {:induction false} CountsSum(rows: seq<CheckResult>)
    ensures var s := SummaryOf(rows); s.ok + s.warn + s.fail + s.skip == |rows|
  {
    if |rows| > 0 {
      CountsSum(rows[..|rows| - 1]);
    }
  }

  ghost predicate AnyState(rows: seq<CheckResult>, s: State) {
    exists r <- rows :: r.state == s
  }

  lemma {:induction false} StateCounted(rows: seq<CheckResult>, s: State)
    ensures CountState(rows, s) > 0 <==> AnyState(rows, s)
  {
    if |rows| > 0 {
      var before, last := rows[..|rows| - 1], rows[|rows| - 1];
      StateCounted(before, s);
      assert forall r :: r in rows <==> r in before || r == last;
    }
  }

  lemma {:induction false} OverallFail(defs: seq<Def>)
    ensures Overall(SubgroupsOf(defs)).fail > 0 <==> AnyDef(defs)
  {
    if |defs| > 0 {
      var before, last := defs[..|defs| - 1], defs[|defs| - 1];
      OverallFail(before);
      StateCounted(Kept(AllRows(last.fns)), FAIL);
      OverallLast(SubgroupsOf(before), SubgroupOf(last));
      AnyDefFails(defs);
    }
  }

  ghost predicate AnyDef(defs: seq<Def>) {
    exists def <- defs :: AnyState(Kept(AllRows(def.fns)), FAIL)
  }

  lemma {:induction false} AnyDefFails(defs: seq<Def>)
    requires |defs| > 0
    ensures AnyDef(defs) <==> AnyDef(defs[..|defs| - 1]) || AnyState(Kept(AllRows(defs[|defs| - 1].fns)), FAIL)
  {
    assert forall d :: d in defs <==> d in defs[..|defs| - 1] || d == defs[|defs| - 1];
  }

  lemma {:induction false} OverallLast(before: seq<Subgroup>, last: Subgroup)
    ensures Overall(before + [last]) == Merge(Overall(before), last.summary)
  {
    assert (before + [last])[..|before|] == before;
  }

  /** The exit code is 1 exactly when some row that was kept is FAIL. */
  lemma ExitCodeExact(defs: seq<Def>)
    requires |defs| <= MAX_GROUP_SUBGROUPS
    ensures DocumentOf(defs).exitCode == 1 <==> exists def <- defs :: AnyState(Kept(AllRows(def.fns)), FAIL)
  {
    assert defs[..|defs|] == defs;
    OverallFail(defs);
  }

  /** A reader of the printed document finds the kept rows of every subgroup, their counts and
      flags, and the exit code, with each string sanitised. */
  lemma RunRecovered(defs: seq<Def>)
    ensures var r := ReadDocument(Text(DocumentTree(DocumentOf(defs))) + "\n");
            r.Good? && DocumentIn(r.value) == SanitisedDocument(DocumentOf(defs))
  {
    DocumentRecovered(DocumentOf(defs));
  }

  // What the document says of a run, in terms of the rows kept.

  /** The rows kept in all subgroups. */
  function AllKept(defs: seq<Def>): (rows: seq<CheckResult>) {
    if |defs| == 0 then [] else AllKept(defs[..|defs| - 1]) + Kept(AllRows(defs[|defs| - 1].fns))
  }

  /** The overall counts are those of all rows kept. */
  lemma {:induction false} OverallCounts(defs: seq<Def>)
    ensures Overall(SubgroupsOf(defs)) == SummaryOf(AllKept(defs))
  {
    if |defs| > 0 {
      var before, last := defs[..|defs| - 1], defs[|defs| - 1];
      OverallCounts(before);
      OverallMerged(SubgroupsOf(before), SubgroupOf(last), AllKept(before), Kept(AllRows(last.fns)));
    }
  }

  lemma {:induction false} OverallMerged(before: seq<Subgroup>, last: Subgroup, rows: seq<CheckResult>,
                                         more: seq<CheckResult>)
    requires Overall(before) == SummaryOf(rows) && last.summary == SummaryOf(more)
    ensures Overall(before + [last]) == SummaryOf(rows + more)
  {
    SummaryConcat(rows, more, rows + more);
    OverallLast(before, last);
  }

  lemma {:induction false} SummaryConcat(a: seq<CheckResult>, b: seq<CheckResult>, both: seq<CheckResult>)
    requires both == a + b
    ensures SummaryOf(both) == Merge(SummaryOf(a), SummaryOf(b))
  {
    forall s: State
      ensures CountState(both, s) == CountState(a, s) + CountState(b, s)
    {
      CountConcat(a, b, s);
    }
  }

  lemma {:induction false} CountConcat(a: seq<CheckResult>, b: seq<CheckResult>, s: State)
    ensures CountState(a + b, s) == CountState(a, s) + CountState(b, s)
  {
    if |b| == 0 {
      assert a + b == a;
    } else {
      CountConcat(a, b[..|b| - 1], s);
      assert (a + b)[..|a + b| - 1] == a + b[..|b| - 1];
    }
  }

  /** A printed summary shows the worst state among some rows, with SKIP when there is nothing else. */
  ghost predicate ShowsWorst(summary: Value, rows: seq<CheckResult>) {
    ShowsState(summary, AnyState(rows, FAIL), AnyState(rows, WARN), AnyState(rows, OK))
  }

  lemma {:induction false} WorstShown(s: Summary, rows: seq<CheckResult>)
    requires s == SummaryOf(rows)
    ensures ShowsWorst(Sanitised(SummaryTree(s)), rows)
  {
    StateShown(s);
    StateCounted(rows, FAIL);
    StateCounted(rows, WARN);
    StateCounted(rows, OK);
  }

  /** The states and the meaning of the exit code that a reader finds in a document. */
  ghost predicate RunShows(v: Value, defs: seq<Def>) {
    var groups := ElemsIn(Under(v, 2, "groups"));
    && ShowsWorst(Under(v, 3, "overall"), AllKept(defs))
    && Under(v, 5, "exit_meaning") == Str(if AnyState(AllKept(defs), FAIL) then "posture_fail" else "no_fail")
    && |groups| == 1 && GroupShows(groups[0], defs)
  }

  ghost predicate GroupShows(group: Value, defs: seq<Def>) {
    var subgroups := ElemsIn(Under(group, 2, "subgroups"));
    && ShowsWorst(Under(group, 1, "summary"), AllKept(defs))
    && |subgroups| == |defs|
    && forall i :: 0 <= i < |defs| ==> ShowsWorst(Under(subgroups[i], 1, "summary"), Kept(AllRows(defs[i].fns)))
  }

  lemma {:induction false} SubgroupAt(defs: seq<Def>, i: nat)
    requires i < |defs|
    ensures SubgroupsOf(defs)[i] == SubgroupOf(defs[i])
  {
    if i < |defs| - 1 {
      SubgroupAt(defs[..|defs| - 1], i);
    }
  }

  lemma {:induction false} SubgroupShown(sg: Subgroup, def: Def)
    requires sg == SubgroupOf(def)
    ensures ShowsWorst(Under(Sanitised(SubgroupTree(sg)), 1, "summary"), Kept(AllRows(def.fns)))
  {
    SubgroupSummaryIn(sg);
    WorstShown(sg.summary, Kept(AllRows(def.fns)));
  }

  lemma {:induction false} GroupShown(g: Group, defs: seq<Def>)
    requires g.subgroups == SubgroupsOf(defs) && g.summary == SummaryOf(AllKept(defs))
    ensures GroupShows(Sanitised(GroupTree(g)), defs)
  {
    GroupSummaryIn(g);
    WorstShown(g.summary, AllKept(defs));
    var subgroups := SanitisedElems(SubgroupTrees(g.subgroups));
    forall i | 0 <= i < |defs|
      ensures ShowsWorst(Under(subgroups[i], 1, "summary"), Kept(AllRows(defs[i].fns)))
    {
      SubgroupAt(defs, i);
      SubgroupShown(g.subgroups[i], defs[i]);
    }
  }

  lemma {:induction false} DocumentShown(d: Document, g: Group, defs: seq<Def>)
    requires d.groups == [g] && g.subgroups == SubgroupsOf(defs) && g.summary == d.overall == SummaryOf(AllKept(defs))
    requires d.exitCode == if d.overall.fail > 0 then 1 else 0
    ensures RunShows(Sanitised(DocumentTree(d)), defs)
  {
    OverallIn(d);
    WorstShown(d.overall, AllKept(defs));
    MeaningShown(d);
    StateCounted(AllKept(defs), FAIL);
    GroupShown(g, defs);
  }

  /** In the printed document every subgroup shows FAIL exactly when a row that it kept is FAIL, else
      WARN exactly when one is WARN, else OK, else SKIP; the group and the whole show the same of all
      rows kept, and the meaning of the exit code follows the failures. */
  lemma {:induction false} RunStatesRecovered(defs: seq<Def>)
    ensures var r := ReadDocument(Text(DocumentTree(DocumentOf(defs))) + "\n");
            r.Good? && RunShows(r.value, defs[..Least(|defs|, MAX_GROUP_SUBGROUPS)])
  {
    var d, run := DocumentOf(defs), defs[..Least(|defs|, MAX_GROUP_SUBGROUPS)];
    DocumentRoundTrip(DocumentTree(d));
    OverallCounts(run);
    DocumentShown(d, d.groups[0], run);
  }
}
