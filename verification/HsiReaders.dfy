/** The two substring-driven readers of `fwupdmgr security --json` (src/firmware_parsers.c). */
module HsiReaders {
  import opened CText

  const ID_KEY := Quoted("AppstreamId")
  const FLAGS_KEY := Quoted("Flags")
  const SUCCESS_TOKEN := Quoted("success")
  const RESULT_KEY := Quoted("HsiResult")
  const RESULT_SUCCESS_KEY := Quoted("HsiResultSuccess")
  const NOT_SUPPORTED := "not-supported"

  const ID_MAX: nat := 96
  const MAX_IDS: nat := 32
  const VALUE_BYTES: nat := 64

  /** `bythos_hsi_not_passing_t`; `named` is the number of ids. */
  datatype NotPassing = NotPassing(total: nat, notSupported: nat, ids: seq<string>)

  const NOTHING := NotPassing(0, 0, [])

  /** `bythos_hsi_attribute_t` without the suggested action. */
  datatype Found = Found(result: string, success: string, passing: bool, action: Action)

  /** Who could change the result, as the flags say. */
  datatype Action = NO_ACTION | OEM_ACTION | FIRMWARE_ACTION | OS_ACTION

  // ----- one value -----------------------------------------------------------------------

  function SkipWs(json: string, p: nat, bound: nat): (q: nat)
    requires bound <= |json|
    ensures p <= q && (p <= bound ==> q <= bound)
    decreases |json| - p
  {
    if p < bound && IsWs(json[p]) then SkipWs(json, p + 1, bound) else p
  }

  /** The quoted value right after a key that ends at `p`: only white space and one colon
      may stand between them, and the closing quote must come before `bound`. */
  ghost function ValueSpan(json: string, p: nat, bound: nat): (v: Option<string>)
    requires bound <= |json|
  {
    var a := SkipWs(json, p, bound);
    if a >= bound || json[a] != ':' then None
    else
      var b := SkipWs(json, a + 1, bound);
      if b >= bound || json[b] != '"' then None
      else
        var end := IndexOf(json, "\"", b + 1);
        if end >= bound then None else Some(json[b + 1..end])
  }

  method ScanValueSpan(json: string, keyEnd: nat, bound: nat) returns (v: Option<string>)
    requires bound <= |json|
    ensures v == ValueSpan(json, keyEnd, bound)
  {
    var p := keyEnd;
    while p < bound && IsWs(json[p])
      invariant SkipWs(json, p, bound) == SkipWs(json, keyEnd, bound)
    {
      p := p + 1;
    }
    if p >= bound || json[p] != ':' {
      return None;
    }
    p := p + 1;
    ghost var afterColon := p;
    while p < bound && IsWs(json[p])
      invariant SkipWs(json, p, bound) == SkipWs(json, afterColon, bound)
    {
      p := p + 1;
    }
    if p >= bound || json[p] != '"' {
      return None;
    }
    p := p + 1;
    var end := Search(json, "\"", p);
    if end >= bound {
      return None;
    }
    return Some(json[p..end]);
  }

  /** Printable ASCII without the backslash, non-empty and short enough to keep whole. */
  predicate Reproducible(id: string) {
    0 < |id| < ID_MAX && forall i :: 0 <= i < |id| ==> ' ' <= id[i] <= '~' && id[i] != '\\'
  }

  method IsReproducible(value: string) returns (ok: bool)
    ensures ok == Reproducible(value)
    ensures ok <==>
              && 1 <= |value| <= 95
              && forall i :: 0 <= i < |value| ==> 0x20 <= value[i] as int <= 0x7E && value[i] != '\\'
  {
    if |value| == 0 || |value| >= ID_MAX {
      return false;
    }
    for i := 0 to |value|
      invariant forall j :: 0 <= j < i ==> ' ' <= value[j] <= '~' && value[j] != '\\'
    {
      if value[i] < ' ' || value[i] > '~' || value[i] == '\\' {
        return false;
      }
    }
    return true;
  }

  // ----- the counting reader -------------------------------------------------------------

  /** What the counting reader takes from one record, and the id it would print. */
  datatype Record = Record(passing: bool, notSupported: bool, id: Option<string>)
  {
    predicate Weak() { !passing && !notSupported }
  }

  ghost predicate Passing(json: string, idKey: nat, bound: nat)
    requires idKey <= |json|
  {
    var flags := IndexOf(json, FLAGS_KEY, idKey);
    flags < bound && IndexOf(json, SUCCESS_TOKEN, flags) < bound
  }

  ghost predicate NotSupported(json: string, idKey: nat, bound: nat)
    requires idKey <= |json| && bound <= |json|
  {
    var key := IndexOf(json, RESULT_KEY, idKey);
    key < bound && ValueSpan(json, key + |RESULT_KEY|, bound) == Some(NOT_SUPPORTED)
  }

  /** The id a record prints under, when it can be printed unaltered. */
  ghost function PrintableId(json: string, idKey: nat, bound: nat): (id: Option<string>)
    requires bound <= |json|
    ensures id.Some? ==> Reproducible(id.value)
  {
    var v := ValueSpan(json, idKey + |ID_KEY|, bound);
    if v.Some? && Reproducible(v.value) then v else None
  }

  ghost function RecordAt(json: string, idKey: nat, bound: nat): (r: Record)
    requires idKey <= |json| && bound <= |json|
    ensures r.id.Some? ==> Reproducible(r.id.value)
  {
    Record(Passing(json, idKey, bound), NotSupported(json, idKey, bound), PrintableId(json, idKey, bound))
  }

  /** Every record of the text in order: each runs from its id key up to the next id key,
      or to the end of the text. */
  ghost function Records(json: string, from: nat): (records: seq<Record>)
    requires from <= |json|
    ensures 13 * |records| <= |json| - from
    ensures forall i :: 0 <= i < |records| && records[i].id.Some? ==> Reproducible(records[i].id.value)
    decreases |json| - from
  {
    var idKey := IndexOf(json, ID_KEY, from);
    if idKey == |json| then []
    else
      var bound := IndexOf(json, ID_KEY, idKey + |ID_KEY|);
      [RecordAt(json, idKey, bound)] + Records(json, bound)
  }

  /** The records that do not pass. */
  function Failing(records: seq<Record>): (failing: seq<Record>)
    ensures |failing| <= |records|
  {
    if |records| == 0 then []
    else if records[0].passing then Failing(records[1..])
    else [records[0]] + Failing(records[1..])
  }

  /** The records that do not pass although they apply to the machine. */
  function WeakOnes(records: seq<Record>): (weak: seq<Record>) {
    if |records| == 0 then []
    else if records[0].Weak() then [records[0]] + WeakOnes(records[1..])
    else WeakOnes(records[1..])
  }

  /** The printable ids of some records, in order. */
  function PrintableIds(records: seq<Record>): (ids: seq<string>)
    ensures |ids| <= |records|
  {
    if |records| == 0 then []
    else if records[0].id.Some? then [records[0].id.value] + PrintableIds(records[1..])
    else PrintableIds(records[1..])
  }

  /** The records that do not pass because they do not apply to the machine. */
  function UnsupportedOnes(records: seq<Record>): (unsupported: seq<Record>) {
    if |records| == 0 then []
    else if !records[0].passing && records[0].notSupported then [records[0]] + UnsupportedOnes(records[1..])
    else UnsupportedOnes(records[1..])
  }

  /** The weak and the unsupported records partition the failing ones. */
  lemma {:induction false} WeakWithinFailing(records: seq<Record>)
    ensures multiset(Failing(records)) == multiset(WeakOnes(records)) + multiset(UnsupportedOnes(records))
    ensures |Failing(records)| == |WeakOnes(records)| + |UnsupportedOnes(records)|
  {
    if |records| > 0 {
      WeakWithinFailing(records[1..]);
    }
  }

  /** The weak records are those of the list that neither pass nor are unsupported. */
  lemma {:induction false} WeakMembers(records: seq<Record>, r: Record)
    ensures r in WeakOnes(records) <==> r in records && r.Weak()
  {
    if |records| > 0 {
      WeakMembers(records[1..], r);
    }
  }

  /** A printable id belongs to a record of the list. */
  lemma {:induction false} PrintableFrom(records: seq<Record>, id: string)
    ensures id in PrintableIds(records) <==> exists r <- records :: r.id == Some(id)
  {
    if |records| > 0 {
      PrintableFrom(records[1..], id);
      assert forall r :: r in records <==> r == records[0] || r in records[1..];
    }
  }

  function FirstIds(ids: seq<string>): (kept: seq<string>)
    ensures |kept| <= MAX_IDS && kept <= ids
  {
    if |ids| <= MAX_IDS then ids else ids[..MAX_IDS]
  }

  /** The counting reader's answer on some records. */
  function Tally(records: seq<Record>): (r: NotPassing)
    ensures r.notSupported <= r.total <= |records| && r.notSupported == |UnsupportedOnes(records)|
    ensures |r.ids| <= MAX_IDS && |r.ids| <= r.total - r.notSupported
  {
    WeakWithinFailing(records);
    var failing := Failing(records);
    var weak := WeakOnes(records);
    NotPassing(|failing|, |failing| - |weak|, FirstIds(PrintableIds(weak)))
  }

  /** What one more record does to the answer. */
  function Step(acc: NotPassing, r: Record): (out: NotPassing) {
    if r.passing then acc
    else if r.notSupported then acc.(total := acc.total + 1, notSupported := acc.notSupported + 1)
    else if |acc.ids| < MAX_IDS && r.id.Some? then
      acc.(total := acc.total + 1, ids := acc.ids + [r.id.value])
    else acc.(total := acc.total + 1)
  }

  function Steps(acc: NotPassing, records: seq<Record>): (out: NotPassing)
    decreases |records|
  {
    if |records| == 0 then acc else Steps(Step(acc, records[0]), records[1..])
  }

  /** `bythos_hsi_collect_not_passing`. */
  method CollectNotPassing(json: string) returns (out: NotPassing)
    ensures out == Tally(Records(json, 0))
  {
    out := NOTHING;
    var cursor := 0;
    ghost var answer := Tally(Records(json, 0));
    StepsAreTally([], Records(json, 0));
    assert [] + Records(json, 0) == Records(json, 0);
    while cursor < |json|
      invariant cursor <= |json|
      invariant Steps(out, Records(json, cursor)) == answer
      decreases |json| - cursor
    {
      var idKey := Search(json, ID_KEY, cursor);
      if idKey == |json| {
        break;
      }
      var bound := Search(json, ID_KEY, idKey + |ID_KEY|);
      var r := ReadRecord(json, idKey, bound);
      StepsHead(json, cursor, idKey, bound, out);
      out := CountRecord(out, r);
      cursor := bound;
    }
    StepsEnd(json, cursor, out);
  }

  /** What one record adds. */
  method CountRecord(was: NotPassing, r: Record) returns (out: NotPassing)
    ensures out == Step(was, r)
  {
    out := was;
    if !r.passing {
      if r.notSupported {
        out := out.(total := out.total + 1, notSupported := out.notSupported + 1);
      } else if |out.ids| < MAX_IDS && r.id.Some? {
        out := out.(total := out.total + 1, ids := out.ids + [r.id.value]);
      } else {
        out := out.(total := out.total + 1);
      }
    }
  }

  lemma StepsEnd(json: string, cursor: nat, acc: NotPassing)
    requires cursor <= |json| && IndexOf(json, ID_KEY, cursor) == |json|
    ensures Steps(acc, Records(json, cursor)) == acc
  {
  }

  lemma StepsHead(json: string, cursor: nat, idKey: nat, bound: nat, acc: NotPassing)
    requires cursor <= |json| && idKey == IndexOf(json, ID_KEY, cursor) < |json|
    requires bound == IndexOf(json, ID_KEY, idKey + |ID_KEY|)
    ensures Steps(acc, Records(json, cursor)) == Steps(Step(acc, RecordAt(json, idKey, bound)), Records(json, bound))
  {
    assert Records(json, cursor)[1..] == Records(json, bound);
  }

  lemma {:induction false} StepsAreTally(done: seq<Record>, rest: seq<Record>)
    ensures Steps(Tally(done), rest) == Tally(done + rest)
    decreases |rest|
  {
    if |rest| == 0 {
      assert done + rest == done;
    } else {
      TallySnoc(done, rest[0]);
      StepsAreTally(done + [rest[0]], rest[1..]);
      assert (done + [rest[0]]) + rest[1..] == done + rest;
    }
  }

  /** The evidence the loop body of `bythos_hsi_collect_not_passing` gathers. */
  method ReadRecord(json: string, idKey: nat, bound: nat) returns (r: Record)
    requires idKey <= |json| && bound <= |json|
    ensures r == RecordAt(json, idKey, bound)
  {
    var passing := ReadPassing(json, idKey, bound);
    var notSupported := ReadNotSupported(json, idKey, bound);
    var id := ReadPrintableId(json, idKey, bound);
    return Record(passing, notSupported, id);
  }

  method ReadNotSupported(json: string, from: nat, bound: nat) returns (notSupported: bool)
    requires from <= |json| && bound <= |json|
    ensures notSupported == NotSupported(json, from, bound)
  {
    var key := Search(json, RESULT_KEY, from);
    if key >= bound {
      return false;
    }
    var result := ScanValueSpan(json, key + |RESULT_KEY|, bound);
    return result == Some(NOT_SUPPORTED);
  }

  method ReadPrintableId(json: string, idKey: nat, bound: nat) returns (id: Option<string>)
    requires bound <= |json|
    ensures id == PrintableId(json, idKey, bound)
  {
    id := ScanValueSpan(json, idKey + |ID_KEY|, bound);
    if id.Some? {
      var ok := IsReproducible(id.value);
      if !ok {
        id := None;
      }
    }
  }

  method ReadPassing(json: string, from: nat, bound: nat) returns (passing: bool)
    requires from <= |json|
    ensures passing == Passing(json, from, bound)
  {
    var flags := Search(json, FLAGS_KEY, from);
    if flags >= bound {
      return false;
    }
    var token := Search(json, SUCCESS_TOKEN, flags);
    return token < bound;
  }

  lemma {:induction false} FailingConcat(a: seq<Record>, b: seq<Record>)
    ensures Failing(a + b) == Failing(a) + Failing(b)
  {
    if |a| == 0 {
      assert a + b == b;
    } else {
      var first, later := a[0], a[1..];
      FailingConcat(later, b);
      assert (a + b)[0] == first && (a + b)[1..] == later + b;
      if !first.passing {
        Assoc([first], Failing(later), Failing(b));
      }
    }
  }

  lemma {:induction false} WeakConcat(a: seq<Record>, b: seq<Record>)
    ensures WeakOnes(a + b) == WeakOnes(a) + WeakOnes(b)
  {
    if |a| == 0 {
      assert a + b == b;
    } else {
      var first, later := a[0], a[1..];
      WeakConcat(later, b);
      assert (a + b)[0] == first && (a + b)[1..] == later + b;
      if first.Weak() {
        Assoc([first], WeakOnes(later), WeakOnes(b));
      }
    }
  }

  lemma {:induction false} PrintableIdsConcat(a: seq<Record>, b: seq<Record>)
    ensures PrintableIds(a + b) == PrintableIds(a) + PrintableIds(b)
  {
    if |a| == 0 {
      assert a + b == b;
    } else {
      var first, later := a[0], a[1..];
      PrintableIdsConcat(later, b);
      assert (a + b)[0] == first && (a + b)[1..] == later + b;
      if first.id.Some? {
        Assoc([first.id.value], PrintableIds(later), PrintableIds(b));
      }
    }
  }

  lemma TallySnoc(records: seq<Record>, r: Record)
    ensures Tally(records + [r]) == Step(Tally(records), r)
  {
    FailingConcat(records, [r]);
    WeakConcat(records, [r]);
    PrintableIdsConcat(WeakOnes(records), WeakOnes([r]));
    assert [r][1..] == [];
    assert Failing([r]) == if r.passing then [] else [r];
    assert WeakOnes([r]) == if r.Weak() then [r] else [];
    if r.Weak() {
      assert PrintableIds([r]) == if r.id.Some? then [r.id.value] else [];
    }
  }

  // ----- the attribute reader ------------------------------------------------------------

  /** `extract_quoted_value`, searching from the end of the key. */
  ghost function QuotedValue(json: string, keyEnd: nat, bound: nat): (v: Option<string>)
    requires keyEnd <= |json| && bound <= |json|
    ensures v.Some? ==> |v.value| < VALUE_BYTES
  {
    var colon := IndexOf(json, ":", keyEnd);
    if colon >= bound then None
    else
      var open := IndexOf(json, "\"", colon + 1);
      if open >= bound then None
      else
        var close := IndexOf(json, "\"", open + 1);
        if close >= bound then None else Some(Stored(json[open + 1..close], VALUE_BYTES))
  }

  /** The value of the success key, empty when there is none. */
  ghost function SuccessValue(json: string, from: nat, bound: nat): (v: string)
    requires from <= bound <= |json|
  {
    var key := IndexOf(json, RESULT_SUCCESS_KEY, from);
    if key >= bound then ""
    else
      var v := QuotedValue(json, key + |RESULT_SUCCESS_KEY|, bound);
      if v.Some? then v.value else ""
  }

  const FLAGS_BUFFER: nat := 256

  /** The first action named in the list of flags, as far as the buffer for it reaches. */
  ghost function ActionNamed(flags: string): (a: Action) {
    if Contains(flags, "action-contact-oem") then OEM_ACTION
    else if Contains(flags, "action-config-fw") then FIRMWARE_ACTION
    else if Contains(flags, "action-config-os") then OS_ACTION
    else NO_ACTION
  }

  /** The action that the flags of a record name. */
  ghost function ActionIn(json: string, from: nat, bound: nat): (a: Action)
    requires from <= bound <= |json|
  {
    var key := IndexOf(json, FLAGS_KEY, from);
    if key >= bound then NO_ACTION
    else
      var open := IndexOf(json, "[", key + |FLAGS_KEY|);
      var close := IndexOf(json, "]", open);
      if close >= bound then NO_ACTION else ActionNamed(Stored(json[open..close], FLAGS_BUFFER))
  }

  /** What a matching record reports, read from the end of its id up to `bound`. */
  ghost function Evidence(json: string, from: nat, bound: nat): (e: Option<Found>)
    requires from <= bound <= |json|
    ensures e.Some? ==> |e.value.result| < VALUE_BYTES
  {
    var key := IndexOf(json, RESULT_KEY, from);
    if key >= bound then None
    else
      var result := QuotedValue(json, key + |RESULT_KEY|, bound);
      if result.None? then None
      else
        Some(Found(result.value, SuccessValue(json, from, bound), Passing(json, from, bound),
                   ActionIn(json, from, bound)))
  }

  /** An id value and the index after its closing quote. */
  datatype IdValue = IdValue(id: string, after: nat)

  /** The next id key at or after `from`, with the quoted text that follows it. */
  ghost function NextId(json: string, from: nat): (r: Option<IdValue>)
    requires from <= |json|
    ensures r.Some? ==> from < r.value.after <= |json|
  {
    var idKey := IndexOf(json, ID_KEY, from);
    if idKey == |json| then None
    else
      var colon := IndexOf(json, ":", idKey + |ID_KEY|);
      if colon == |json| then None
      else
        var open := IndexOf(json, "\"", colon + 1);
        if open == |json| then None
        else
          var close := IndexOf(json, "\"", open + 1);
          if close == |json| then None else Some(IdValue(json[open + 1..close], close + 1))
  }

  /** The attribute reader from `from` on: the first record whose id is `id` answers. */
  ghost function Lookup(json: string, id: string, from: nat): (r: Option<Found>)
    requires from <= |json|
    ensures r.Some? ==> |r.value.result| < VALUE_BYTES
    decreases |json| - from
  {
    var next := NextId(json, from);
    if next.None? then None
    else if next.value.id == id then
      Evidence(json, next.value.after, IndexOf(json, ID_KEY, next.value.after))
    else Lookup(json, id, next.value.after)
  }

  /** `extract_quoted_value`. */
  method ExtractQuotedValue(json: string, keyEnd: nat, bound: nat) returns (v: Option<string>)
    requires keyEnd <= |json| && bound <= |json|
    ensures v == QuotedValue(json, keyEnd, bound)
  {
    var colon := Search(json, ":", keyEnd);
    if colon >= bound {
      return None;
    }
    var open := Search(json, "\"", colon + 1);
    if open >= bound {
      return None;
    }
    var close := Search(json, "\"", open + 1);
    if close >= bound {
      return None;
    }
    return Some(Stored(json[open + 1..close], VALUE_BYTES));
  }

  /** `bythos_hsi_find_attribute`. */
  method FindAttribute(json: string, id: string) returns (found: bool, out: Found)
    ensures (if found then Some(out) else None) == Lookup(json, id, 0)
  {
    ghost var answer := Lookup(json, id, 0);
    var cursor := 0;
    while cursor < |json|
      invariant cursor <= |json|
      invariant Lookup(json, id, cursor) == answer
      decreases |json| - cursor
    {
      var next := ReadId(json, cursor);
      if next.None? {
        break;
      }
      if next.value.id == id {
        var bound := Search(json, ID_KEY, next.value.after);
        found, out := ReadEvidence(json, next.value.after, bound);
        return;
      }
      cursor := next.value.after;
    }
    return false, Found("", "", false, NO_ACTION);
  }

  /** The part of `bythos_hsi_find_attribute` that locates the next record and its id. */
  method ReadId(json: string, from: nat) returns (next: Option<IdValue>)
    requires from <= |json|
    ensures next == NextId(json, from)
  {
    var idKey := Search(json, ID_KEY, from);
    if idKey == |json| {
      return None;
    }
    var colon := Search(json, ":", idKey + |ID_KEY|);
    if colon == |json| {
      return None;
    }
    var open := Search(json, "\"", colon + 1);
    if open == |json| {
      return None;
    }
    var close := Search(json, "\"", open + 1);
    if close == |json| {
      return None;
    }
    return Some(IdValue(json[open + 1..close], close + 1));
  }

  /** The part of `bythos_hsi_find_attribute` that fills the result of a matching record. */
  method ReadEvidence(json: string, from: nat, bound: nat) returns (found: bool, out: Found)
    requires from <= bound <= |json|
    ensures (if found then Some(out) else None) == Evidence(json, from, bound)
  {
    out := Found("", "", false, NO_ACTION);
    var key := Search(json, RESULT_KEY, from);
    if key >= bound {
      return false, out;
    }
    var result := ExtractQuotedValue(json, key + |RESULT_KEY|, bound);
    if result.None? {
      return false, out;
    }
    var success := ReadSuccess(json, from, bound);
    var passing := ReadPassing(json, from, bound);
    var action := ReadAction(json, from, bound);
    return true, Found(result.value, success, passing, action);
  }

  method ReadAction(json: string, from: nat, bound: nat) returns (a: Action)
    requires from <= bound <= |json|
    ensures a == ActionIn(json, from, bound)
  {
    var key := Search(json, FLAGS_KEY, from);
    if key >= bound {
      return NO_ACTION;
    }
    var open := Search(json, "[", key + |FLAGS_KEY|);
    var close := Search(json, "]", open);
    if close >= bound {
      return NO_ACTION;
    }
    var flags := Stored(json[open..close], FLAGS_BUFFER);
    var oem := Search(flags, "action-contact-oem", 0);
    if oem < |flags| {
      return OEM_ACTION;
    }
    var firmware := Search(flags, "action-config-fw", 0);
    if firmware < |flags| {
      return FIRMWARE_ACTION;
    }
    var os := Search(flags, "action-config-os", 0);
    return if os < |flags| then OS_ACTION else NO_ACTION;
  }

  method ReadSuccess(json: string, from: nat, bound: nat) returns (success: string)
    requires from <= bound <= |json|
    ensures success == SuccessValue(json, from, bound)
  {
    success := "";
    var key := Search(json, RESULT_SUCCESS_KEY, from);
    if key < bound {
      var v := ExtractQuotedValue(json, key + |RESULT_SUCCESS_KEY|, bound);
      if v.Some? {
        success := v.value;
      }
    }
  }
}
