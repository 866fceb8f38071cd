/** On a well-formed report the "HSI: unmapped attributes" row is exact: the difference of the
    two readers' tallies is the number of weak attributes that no emitted row shows. */
module HsiExact {
  import opened CText
  import opened Checks
  import opened Decimal
  import opened QuotedTokens
  import opened HsiReaders
  import opened FwupdReport
  import FwupdFlags
  import opened HsiRow

  ghost predicate AttrInapplicable(a: Attribute) {
    !AttrPassing(a) && AttrResult(a, NOT_SUPPORTED)
  }

  ghost function WeakIds(attrs: seq<Attribute>): (ids: set<string>) {
    set i | 0 <= i < |attrs| && AttrWeak(attrs[i]) :: attrs[i].id
  }

  ghost function InapplicableIds(attrs: seq<Attribute>): (ids: set<string>) {
    set i | 0 <= i < |attrs| && AttrInapplicable(attrs[i]) :: attrs[i].id
  }

  ghost function Elements(ids: seq<string>): (s: set<string>) {
    set id | id in ids
  }

  ghost predicate Distinct(ids: seq<string>) {
    forall i, j :: 0 <= i < j < |ids| ==> ids[i] != ids[j]
  }

  ghost predicate DistinctAttrs(attrs: seq<Attribute>) {
    forall i, j :: 0 <= i < j < |attrs| ==> attrs[i].id != attrs[j].id
  }

  lemma ElementsSnoc(ids: seq<string>)
    requires ids != []
    ensures Elements(ids) == Elements(ids[..|ids| - 1]) + {ids[|ids| - 1]}
    ensures Distinct(ids) ==> ids[|ids| - 1] !in Elements(ids[..|ids| - 1])
  {
    assert ids == ids[..|ids| - 1] + [ids[|ids| - 1]];
  }

  // ----- the counting reader's tally -----------------------------------------------------

  lemma WeakIdsCons(attrs: seq<Attribute>)
    requires attrs != [] && DistinctAttrs(attrs)
    ensures WeakIds(attrs) == WeakIds(attrs[1..]) + (if AttrWeak(attrs[0]) then {attrs[0].id} else {})
    ensures attrs[0].id !in WeakIds(attrs[1..])
  {
    var rest := attrs[1..];
    forall id
      ensures id in WeakIds(attrs) <==> id in WeakIds(rest) || (AttrWeak(attrs[0]) && id == attrs[0].id)
    {
      if id in WeakIds(attrs) {
        var i :| 0 <= i < |attrs| && AttrWeak(attrs[i]) && attrs[i].id == id;
        assert i > 0 ==> rest[i - 1] == attrs[i];
      }
      if id in WeakIds(rest) {
        var i :| 0 <= i < |rest| && AttrWeak(rest[i]) && rest[i].id == id;
        assert attrs[i + 1] == rest[i];
      }
    }
  }

  lemma InapplicableIdsCons(attrs: seq<Attribute>)
    requires attrs != [] && DistinctAttrs(attrs)
    ensures InapplicableIds(attrs)
            == InapplicableIds(attrs[1..]) + (if AttrInapplicable(attrs[0]) then {attrs[0].id} else {})
    ensures attrs[0].id !in InapplicableIds(attrs[1..])
  {
    var rest := attrs[1..];
    forall id
      ensures id in InapplicableIds(attrs)
        <==> id in InapplicableIds(rest) || (AttrInapplicable(attrs[0]) && id == attrs[0].id)
    {
      if id in InapplicableIds(attrs) {
        var i :| 0 <= i < |attrs| && AttrInapplicable(attrs[i]) && attrs[i].id == id;
        assert i > 0 ==> rest[i - 1] == attrs[i];
      }
      if id in InapplicableIds(rest) {
        var i :| 0 <= i < |rest| && AttrInapplicable(rest[i]) && rest[i].id == id;
        assert attrs[i + 1] == rest[i];
      }
    }
  }

  /** The counting reader counts every weak and every inapplicable attribute once. */
  lemma {:induction false} TallyCounts(rs: seq<Record>, attrs: seq<Attribute>)
    requires RecordsOf(rs, attrs) && DistinctAttrs(attrs)
    ensures |WeakOnes(rs)| == |WeakIds(attrs)|
    ensures |Failing(rs)| == |WeakIds(attrs)| + |InapplicableIds(attrs)|
  {
    if |rs| > 0 {
      assert RecordOf(rs[0], attrs[0]);
      TallyCounts(rs[1..], attrs[1..]);
      TallyStep(rs, attrs[0]);
      WeakIdsCons(attrs);
      InapplicableIdsCons(attrs);
    }
  }

  lemma {:induction false} TallyStep(rs: seq<Record>, a: Attribute)
    requires |rs| > 0 && RecordOf(rs[0], a)
    ensures |WeakOnes(rs)| == |WeakOnes(rs[1..])| + if AttrWeak(a) then 1 else 0
    ensures |Failing(rs)| == |Failing(rs[1..])| + if AttrWeak(a) || AttrInapplicable(a) then 1 else 0
  {
  }

  /** The ids the counting reader kept are those of weak attributes. */
  lemma {:induction false} KeptIdsAreWeak(rs: seq<Record>, attrs: seq<Attribute>, id: string)
    requires RecordsOf(rs, attrs)
    ensures id in PrintableIds(WeakOnes(rs)) ==> id in WeakIds(attrs)
  {
    if |rs| > 0 {
      KeptIdsAreWeak(rs[1..], attrs[1..], id);
      assert RecordOf(rs[0], attrs[0]);
      if id in WeakIds(attrs[1..]) {
        var i :| 0 <= i < |attrs[1..]| && AttrWeak(attrs[1..][i]) && attrs[1..][i].id == id;
        assert attrs[i + 1] == attrs[1..][i];
      }
    }
  }

  // ----- the attribute reader's tally ----------------------------------------------------

  /** The attribute reader answers for exactly the ids of the report, as the report says. */
  ghost predicate Faithful(look: Reader, attrs: seq<Attribute>) {
    forall id :: Answers(look(id), attrs, id)
  }

  /** What looking up one id leaves behind. */
  lemma MarkOfReport(look: Reader, attrs: seq<Attribute>, id: string)
    requires Faithful(look, attrs) && DistinctAttrs(attrs)
    ensures var ms := MarkOf(look, id);
      && (ms != [] <==> id in WeakIds(attrs) + InapplicableIds(attrs))
      && (ms != [] ==> ms[0].id == id && (ms[0].result == NOT_SUPPORTED <==> id in InapplicableIds(attrs)))
      && !(id in WeakIds(attrs) && id in InapplicableIds(attrs))
  {
    if i :| 0 <= i < |attrs| && attrs[i].id == id {
      assert id in WeakIds(attrs) <==> AttrWeak(attrs[i]);
      assert id in InapplicableIds(attrs) <==> AttrInapplicable(attrs[i]);
    }
  }

  lemma IntersectionGrows(w: set<string>, s: set<string>, id: string)
    requires id !in s
    ensures |w * (s + {id})| == |w * s| + if id in w then 1 else 0
  {
    if id in w {
      assert w * (s + {id}) == (w * s) + {id};
    } else {
      assert w * (s + {id}) == w * s;
    }
  }

  /** Looking up distinct ids marks each weak and each inapplicable one of them once. */
  lemma {:induction false} MarksCount(look: Reader, attrs: seq<Attribute>, ids: seq<string>)
    requires Faithful(look, attrs) && DistinctAttrs(attrs) && Distinct(ids)
    ensures var ms := MarksOf(look, ids);
      && NotSupportedMarks(ms) == |InapplicableIds(attrs) * Elements(ids)|
      && |ms| - NotSupportedMarks(ms) == |WeakIds(attrs) * Elements(ids)|
    decreases |ids|
  {
    if |ids| == 0 {
      assert Elements(ids) == {};
    } else {
      var front, id := ids[..|ids| - 1], ids[|ids| - 1];
      MarksCount(look, attrs, front);
      MarkOfReport(look, attrs, id);
      ElementsSnoc(ids);
      IntersectionGrows(WeakIds(attrs), Elements(front), id);
      IntersectionGrows(InapplicableIds(attrs), Elements(front), id);
      MarksAppend(MarksOf(look, front), MarkOf(look, id));
    }
  }

  lemma MarksAppend(ms: seq<Mark>, m: seq<Mark>)
    requires |m| <= 1
    ensures NotSupportedMarks(ms + m)
            == NotSupportedMarks(ms) + if m != [] && m[0].result == NOT_SUPPORTED then 1 else 0
  {
    if |m| == 0 {
      assert ms + m == ms;
    } else {
      assert (ms + m)[..|ms + m| - 1] == ms;
    }
  }

  /** The marked ids are exactly the failing ones among those looked up. */
  lemma {:induction false} MarkedIds(look: Reader, attrs: seq<Attribute>, ids: seq<string>, id: string)
    requires Faithful(look, attrs) && DistinctAttrs(attrs)
    ensures id in MarkIds(MarksOf(look, ids))
      <==> id in Elements(ids) && id in WeakIds(attrs) + InapplicableIds(attrs)
    decreases |ids|
  {
    if |ids| > 0 {
      var front, last := ids[..|ids| - 1], ids[|ids| - 1];
      MarkedIds(look, attrs, front, id);
      MarkOfReport(look, attrs, last);
      ElementsSnoc(ids);
      MarkedBehind(MarksOf(look, front), MarkOf(look, last), id);
    }
  }

  lemma {:induction false} MarkedBehind(ms: seq<Mark>, m: seq<Mark>, id: string)
    requires |m| <= 1
    ensures id in MarkIds(ms + m) <==> id in MarkIds(ms) || (m != [] && m[0].id == id)
  {
    assert MarkIds(ms + m) == MarkIds(ms) + MarkIds(m);
  }

  // ----- the row -------------------------------------------------------------------------

  lemma DifferenceSize(w: set<string>, s: set<string>)
    ensures |w - s| == |w| - |w * s|
  {
    assert w == (w - s) + (w * s);
  }

  /** With `mapped` looked up, the hidden count is the number of weak attributes that are not
      mapped, and the inapplicable count likewise; neither subtraction is cut at zero. */
  lemma HiddenIsExact(rs: seq<Record>, look: Reader, attrs: seq<Attribute>, mapped: seq<string>)
    requires RecordsOf(rs, attrs) && Faithful(look, attrs) && DistinctAttrs(attrs) && Distinct(mapped)
    ensures var np, marks := Tally(rs), MarksOf(look, mapped);
      && Hidden(np, marks) == |WeakIds(attrs) - Elements(mapped)|
      && Inapplicable(np, marks) == |InapplicableIds(attrs) - Elements(mapped)|
      && |marks| - NotSupportedMarks(marks) <= np.total - np.notSupported
      && NotSupportedMarks(marks) <= np.notSupported
  {
    TallyCounts(rs, attrs);
    MarksCount(look, attrs, mapped);
    DifferenceSize(WeakIds(attrs), Elements(mapped));
    DifferenceSize(InapplicableIds(attrs), Elements(mapped));
  }

  /** Every id the row may list is a weak attribute that is not mapped. */
  lemma ListedAreUnmapped(rs: seq<Record>, look: Reader, attrs: seq<Attribute>, mapped: seq<string>, id: string)
    requires RecordsOf(rs, attrs) && Faithful(look, attrs) && DistinctAttrs(attrs)
    requires |MarksOf(look, mapped)| < REPORTED_MAX
    requires id in Fresh(Tally(rs).ids, ShownIds(MarksOf(look, mapped)))
    ensures id in WeakIds(attrs) - Elements(mapped)
  {
    var ids, shown := Tally(rs).ids, ShownIds(MarksOf(look, mapped));
    FreshElements(ids, shown, id);
    assert id in PrintableIds(WeakOnes(rs));
    KeptIdsAreWeak(rs, attrs, id);
    MarkedIds(look, attrs, mapped, id);
  }

  lemma {:induction false} MarksWithin(look: Reader, ids: seq<string>)
    ensures |MarksOf(look, ids)| <= |ids|
    decreases |ids|
  {
    if |ids| > 0 {
      MarksWithin(look, ids[..|ids| - 1]);
    }
  }

  // ----- the mapped ids are distinct -----------------------------------------------------

  /** Three features of an id that tell the mapped ones apart. */
  function Code(id: string): (c: int) {
    if |id| < 19 then 0 else 0x1_0000 * |id| + 0x100 * (id[18] as int) + id[|id| - 1] as int
  }

  const UNIVERSAL_CODES: seq<int> :=
    [0x1b6664, 0x216664, 0x1d2e74, 0x152e6b, 0x152e62, 0x222e73, 0x212e73, 0x1b5630,
     0x1a4572, 0x245230, 0x137575, 0x186f61, 0x1a796d]
  const AMD_CODES: seq<int> := [0x245074, 0x1b5364, 0x25536e, 0x24526e, 0x24536e]
  const INTEL_CODES: seq<int> := [0x184265, 0x154265, 0x185370, 0x234d65, 0x206c6d, 0x236c79]
  const GUARD_CODES: seq<int> := [0x246c64, 0x256c64]

  function SiteCodes(vendor: Vendor): (cs: seq<int>) {
    match vendor
    case AMD => UNIVERSAL_CODES + AMD_CODES
    case INTEL => UNIVERSAL_CODES + INTEL_CODES
    case OTHER => UNIVERSAL_CODES
  }

  lemma UniversalCodes(i: nat)
    requires i < |UNIVERSAL|
    ensures Code(UNIVERSAL[i].id) == UNIVERSAL_CODES[i]
  {
  }

  lemma AmdCodes(i: nat)
    requires i < |AMD_ONLY|
    ensures Code(AMD_ONLY[i].id) == AMD_CODES[i]
  {
  }

  lemma IntelCodes(i: nat)
    requires i < |INTEL_ONLY|
    ensures Code(INTEL_ONLY[i].id) == INTEL_CODES[i]
  {
  }

  lemma SiteCode(vendor: Vendor, i: nat)
    requires i < |CallSites(vendor)|
    ensures |SiteCodes(vendor)| == |CallSites(vendor)| && Code(CallSites(vendor)[i].id) == SiteCodes(vendor)[i]
  {
    if i < |UNIVERSAL| {
      UniversalCodes(i);
    } else if vendor == AMD {
      AmdCodes(i - |UNIVERSAL|);
    } else {
      IntelCodes(i - |UNIVERSAL|);
    }
  }

  lemma SiteCodesDistinct(vendor: Vendor, i: nat, j: nat)
    requires i < j < |SiteCodes(vendor)|
    ensures SiteCodes(vendor)[i] != SiteCodes(vendor)[j]
  {
  }

  lemma GuardCodesApart(i: nat)
    requires i < |SiteCodes(INTEL)|
    ensures SiteCodes(INTEL)[i] != Code(BOOT_GUARD_ENABLED) && SiteCodes(INTEL)[i] != Code(BOOT_GUARD_VERIFIED)
    ensures Code(BOOT_GUARD_ENABLED) != Code(BOOT_GUARD_VERIFIED)
  {
    assert Code(BOOT_GUARD_ENABLED) == GUARD_CODES[0];
    assert Code(BOOT_GUARD_VERIFIED) == GUARD_CODES[1];
  }

  /** Whatever the vendor and the room, no attribute is looked up twice. */
  lemma {:induction false} MappedIdsDistinct(vendor: Vendor, room: nat)
    ensures Distinct(MappedIds(vendor, room)) && |MappedIds(vendor, room)| < REPORTED_MAX
  {
    var ids, sites := MappedIds(vendor, room), CallSites(vendor);
    var k := if room < |sites| then room else |sites|;
    forall i, j | 0 <= i < j < |ids|
      ensures ids[i] != ids[j]
    {
      if j < k {
        SitesApart(vendor, i, j);
      } else if i < k {
        GuardApart(vendor, i);
      } else {
        GuardCodesApart(0);
      }
    }
  }

  lemma {:induction false} SitesApart(vendor: Vendor, i: nat, j: nat)
    requires i < j < |CallSites(vendor)|
    ensures CallSites(vendor)[i].id != CallSites(vendor)[j].id
  {
    SiteCode(vendor, i);
    SiteCode(vendor, j);
    SiteCodesDistinct(vendor, i, j);
  }

  lemma {:induction false} GuardApart(vendor: Vendor, i: nat)
    requires vendor == INTEL && i < |CallSites(vendor)|
    ensures CallSites(vendor)[i].id != BOOT_GUARD_ENABLED && CallSites(vendor)[i].id != BOOT_GUARD_VERIFIED
  {
    SiteCode(vendor, i);
    GuardCodesApart(i);
  }

  /** The row is OK exactly when every weak attribute is mapped; otherwise it counts exactly
      the weak attributes that are not, and names only such attributes. */
  ghost predicate ExactRow(attrs: seq<Attribute>, mapped: seq<string>, np: NotPassing, marks: seq<Mark>)
    requires np.notSupported <= np.total
  {
    var row, rest := UnmappedRowFor(np, marks), WeakIds(attrs) - Elements(mapped);
    var inapplicable := InapplicableIds(attrs) - Elements(mapped);
    var unseen, named := Fresh(np.ids, ShownIds(marks)), Named(np, marks).named;
    && named <= |unseen| && named <= |rest|
    && (row.state == OK <==> rest == {})
    && (row.state == WARN <==> rest != {})
    && (row.state == WARN ==>
          Says(row.detail, |rest|, Join(unseen[..named], ", "), named, |inapplicable|))
    && (row.state == OK && inapplicable != {} ==>
          SaysInapplicable(row.detail, |inapplicable|))
    && (row.state == OK && inapplicable == {} ==> row.detail == "every fwupd attribute not passing is reported above")
    && (forall id :: id in unseen ==> id in rest)
  }

  lemma {:induction false} RowExactFor(rs: seq<Record>, look: Reader, attrs: seq<Attribute>, mapped: seq<string>)
    requires RecordsOf(rs, attrs) && |rs| < SIZE_LIMIT && Faithful(look, attrs) && DistinctAttrs(attrs)
    requires Distinct(mapped) && |mapped| < REPORTED_MAX
    ensures ExactRow(attrs, mapped, Tally(rs), MarksOf(look, mapped))
  {
    HiddenIsExact(rs, look, attrs, mapped);
    MarksWithin(look, mapped);
    UnmappedRowSound(Tally(rs), MarksOf(look, mapped));
    forall id | id in Fresh(Tally(rs).ids, ShownIds(MarksOf(look, mapped)))
      ensures id in WeakIds(attrs) - Elements(mapped)
    {
      ListedAreUnmapped(rs, look, attrs, mapped, id);
    }
  }

  lemma ReportIsFaithful(lead: string, head: seq<Tok>, attrs: seq<Attribute>)
    requires WellFormedReport(lead, head, attrs)
    ensures Faithful(ReaderOf(ReportText(lead, head, attrs)), attrs)
  {
    ReadersAgree(lead, head, attrs);
  }

  /** The whole block on every well-formed report, for every vendor and however many rows are
      left for the HSI attributes. */
  lemma UnmappedRowExact(lead: string, head: seq<Tok>, attrs: seq<Attribute>, vendor: Vendor, room: nat)
    requires WellFormedReport(lead, head, attrs) && |ReportText(lead, head, attrs)| < SIZE_LIMIT
    ensures var json, mapped := ReportText(lead, head, attrs), MappedIds(vendor, room);
      ExactRow(attrs, mapped, Tally(Records(json, 0)), MarksOf(ReaderOf(json), mapped))
  {
    var json := ReportText(lead, head, attrs);
    MappedIdsDistinct(vendor, room);
    ReadersAgree(lead, head, attrs);
    ReportIsFaithful(lead, head, attrs);
    RecordsFit(json, 0);
    RowExactFor(Records(json, 0), ReaderOf(json), attrs, MappedIds(vendor, room));
  }

  // ----- the rows of mapped attributes ---------------------------------------------------

  /** The result that a row counts as good: the attribute's own success value, or the row's. */
  ghost predicate Wanted(a: Attribute, m: Mapping, wanted: string) {
    if exists s :: s != "" && AttrSuccess(a, s)
    then exists s :: s != "" && AttrSuccess(a, s) && wanted == Stored(s, VALUE_BYTES)
    else wanted == m.positive
  }

  /** The row of a reported attribute: skipped when it does not apply, OK exactly when its result is
      the wanted one, else a warning with the result and the action that its flags name. */
  ghost predicate MappedRow(m: Mapping, a: Attribute, value: string, row: CheckResult) {
    if value == NOT_SUPPORTED then row == MakeSkip(m.name, FEATURE_ABSENT, "not supported")
    else
      exists wanted, action ::
        && Wanted(a, m, wanted) && ActionFound(action, a)
        && row == (if Stored(value, VALUE_BYTES) == wanted then MakeResult(m.name, OK, m.okText)
                   else MakeResult(m.name, WARN, Stored(value, VALUE_BYTES) + ActionText(action)))
  }

  lemma SuccessWanted(a: Attribute, m: Mapping, success: string, wanted: string)
    requires WellFormedAttr(a) && SuccessFound(success, a) && wanted == if success != "" then success else m.positive
    ensures Wanted(a, m, wanted)
  {
    if s :| s != "" && AttrSuccess(a, s) {
      assert success == Stored(s, VALUE_BYTES) && |success| > 0;
    } else if success != "" {
      var i :| 0 <= i < |a.fields| && a.fields[i].key == "HsiResultSuccess";
      assert WellFormedField(a.fields[i]);
      assert AttrSuccess(a, a.fields[i].value);
    }
  }

  lemma MappedRowOf(m: Mapping, a: Attribute, value: string, f: Found)
    requires WellFormedAttr(a) && FoundOf(f, a) && AttrResult(a, value)
    ensures MappedRow(m, a, value, RowFor(m, Some(f)))
  {
    SuccessWanted(a, m, f.success, if f.success != "" then f.success else m.positive);
    StoredKeepsNotSupported(value);
  }

  /** On a well-formed report every call site shows what the report says about its attribute. */
  lemma MappedRowExact(lead: string, head: seq<Tok>, attrs: seq<Attribute>, m: Mapping)
    requires WellFormedReport(lead, head, attrs)
    ensures var row := RowFor(m, ReaderOf(ReportText(lead, head, attrs))(m.id));
      && ((forall i :: 0 <= i < |attrs| ==> attrs[i].id != m.id) ==>
            row == MakeSkip(m.name, FEATURE_ABSENT, "not reported"))
      && (forall i, value :: 0 <= i < |attrs| && attrs[i].id == m.id && AttrResult(attrs[i], value) ==>
            MappedRow(m, attrs[i], value, row))
  {
    ReadersAgree(lead, head, attrs);
    var found := ReaderOf(ReportText(lead, head, attrs))(m.id);
    forall i, value | 0 <= i < |attrs| && attrs[i].id == m.id && AttrResult(attrs[i], value)
      ensures MappedRow(m, attrs[i], value, RowFor(m, found))
    {
      MappedRowOf(m, attrs[i], value, found.value);
    }
  }

  /** The list of flags of field `k` is laid out plainly and fits the buffer for it. */
  ghost predicate FlagsFit(a: Attribute, k: nat, pre: string, inner: string, post: string) {
    && k < |a.fields| && a.fields[k].key == "Flags" && FwupdFlags.PlainList(a.fields[k], pre, inner, post)
    && |inner| + 1 < FLAGS_BUFFER
  }

  lemma ActionOfFlags(a: Attribute, k: nat, pre: string, inner: string, post: string, action: Action)
    requires FlagsFit(a, k, pre, inner, post) && ActionFound(action, a)
    ensures action == FwupdFlags.ActionAmong(a.fields[k].items)
  {
    FwupdFlags.ActionOfItems(a.fields[k], pre, inner, post);
    assert Stored("[" + inner, FLAGS_BUFFER) == "[" + inner;
  }

  /** A warning: the result, and who could change it as the flags say. */
  ghost predicate WarnsOf(detail: string, result: string, flags: seq<Tok>) {
    if FwupdFlags.AnyHolds(flags, "action-contact-oem") then detail == result + "; OEM-controlled"
    else if FwupdFlags.AnyHolds(flags, "action-config-fw") then detail == result + "; configurable in BIOS"
    else if FwupdFlags.AnyHolds(flags, "action-config-os") then detail == result + "; configurable in OS"
    else detail == result
  }

  lemma {:induction false} WarnText(m: Mapping, result: string, flags: seq<Tok>)
    requires |result| < VALUE_BYTES
    ensures WarnsOf(MakeResult(m.name, WARN, result + ActionText(FwupdFlags.ActionAmong(flags))).detail, result, flags)
  {
  }

  /** The warning of a mapped attribute names the action among its flags. */
  lemma MappedWarning(lead: string, head: seq<Tok>, attrs: seq<Attribute>, m: Mapping, i: nat, value: string,
                      k: nat, pre: string, inner: string, post: string)
    requires WellFormedReport(lead, head, attrs) && i < |attrs| && attrs[i].id == m.id && AttrResult(attrs[i], value)
    requires FlagsFit(attrs[i], k, pre, inner, post)
    requires RowFor(m, ReaderOf(ReportText(lead, head, attrs))(m.id)).state == WARN
    ensures RowFor(m, ReaderOf(ReportText(lead, head, attrs))(m.id)).name == m.name
    ensures WarnsOf(RowFor(m, ReaderOf(ReportText(lead, head, attrs))(m.id)).detail, Stored(value, VALUE_BYTES),
                    attrs[i].fields[k].items)
  {
    MappedRowExact(lead, head, attrs, m);
    WarningOf(m, attrs[i], value, k, pre, inner, post, RowFor(m, ReaderOf(ReportText(lead, head, attrs))(m.id)));
  }

  lemma WarningOf(m: Mapping, a: Attribute, value: string, k: nat, pre: string, inner: string, post: string,
                  row: CheckResult)
    requires MappedRow(m, a, value, row) && FlagsFit(a, k, pre, inner, post) && row.state == WARN
    ensures row.name == m.name && WarnsOf(row.detail, Stored(value, VALUE_BYTES), a.fields[k].items)
  {
    var wanted, action :| Wanted(a, m, wanted) && ActionFound(action, a)
      && row == (if Stored(value, VALUE_BYTES) == wanted then MakeResult(m.name, OK, m.okText)
                 else MakeResult(m.name, WARN, Stored(value, VALUE_BYTES) + ActionText(action)));
    ActionOfFlags(a, k, pre, inner, post, action);
    WarnText(m, Stored(value, VALUE_BYTES), a.fields[k].items);
  }

  /** The result of every attribute of that id, if there is one, is `result`. */
  ghost predicate AllResults(attrs: seq<Attribute>, id: string, result: string) {
    forall i :: 0 <= i < |attrs| && attrs[i].id == id ==> AttrResult(attrs[i], result)
  }

  lemma ResultIsShort(a: Attribute, f: Found, result: string)
    requires WellFormedAttr(a) && FoundOf(f, a) && |result| < VALUE_BYTES - 1
    ensures f.result == result <==> AttrResult(a, result)
  {
    var i :| 0 <= i < |a.fields| && a.fields[i].key == "HsiResult";
    assert WellFormedField(a.fields[i]);
    assert AttrResult(a, a.fields[i].value);
    ResultIs(a, i);
  }

  /** The Boot Guard row on a well-formed report: skipped when the enabling attribute is absent or
      inapplicable, and OK exactly when it is enabled and the verifying one is, if reported. */
  lemma GuardRowExact(lead: string, head: seq<Tok>, attrs: seq<Attribute>)
    requires WellFormedReport(lead, head, attrs)
    ensures var look := ReaderOf(ReportText(lead, head, attrs));
      var row := GuardRow(look(BOOT_GUARD_ENABLED), look(BOOT_GUARD_VERIFIED));
      && (row.state == SKIP <==> AllResults(attrs, BOOT_GUARD_ENABLED, NOT_SUPPORTED))
      && (row.state == OK <==>
            && (exists i :: 0 <= i < |attrs| && attrs[i].id == BOOT_GUARD_ENABLED)
            && AllResults(attrs, BOOT_GUARD_ENABLED, "enabled") && AllResults(attrs, BOOT_GUARD_VERIFIED, "enabled"))
      && (row.state == SKIP || row.state == OK || row.state == WARN)
  {
    GuardResult(lead, head, attrs, BOOT_GUARD_ENABLED, NOT_SUPPORTED);
    GuardResult(lead, head, attrs, BOOT_GUARD_ENABLED, "enabled");
    GuardResult(lead, head, attrs, BOOT_GUARD_VERIFIED, "enabled");
  }

  /** The fixed texts of the row. */
  lemma {:induction false} GuardWords(en: Option<Found>, ver: Option<Found>, row: CheckResult)
    requires row == GuardRow(en, ver)
    ensures row.name == "HSI: Boot Guard"
    ensures row.state == OK ==> row.detail == "enabled and verified"
    ensures row.state == SKIP ==> row.detail == if en.None? then "not reported" else "not supported"
    ensures row.state == WARN && en.value.result == "enabled" ==> row.detail == "measurement-only"
  {
  }

  /** The row warns of an enabling attribute with its result and the action among its flags. */
  lemma GuardWarning(lead: string, head: seq<Tok>, attrs: seq<Attribute>, i: nat, value: string,
                     k: nat, pre: string, inner: string, post: string, ver: Option<Found>)
    requires WellFormedReport(lead, head, attrs) && i < |attrs| && attrs[i].id == BOOT_GUARD_ENABLED
    requires AttrResult(attrs[i], value) && value != "enabled" && value != NOT_SUPPORTED
    requires FlagsFit(attrs[i], k, pre, inner, post)
    ensures var row := GuardRow(ReaderOf(ReportText(lead, head, attrs))(BOOT_GUARD_ENABLED), ver);
            row.state == WARN && WarnsOf(row.detail, Stored(value, VALUE_BYTES), attrs[i].fields[k].items)
  {
    ReadersAgree(lead, head, attrs);
    var f := ReaderOf(ReportText(lead, head, attrs))(BOOT_GUARD_ENABLED).value;
    ActionOfFlags(attrs[i], k, pre, inner, post, f.action);
    StoredKeepsNotSupported(value);
    assert f.result == Stored(value, VALUE_BYTES) != "enabled";
    GuardText(f, attrs[i].fields[k].items);
  }

  lemma {:induction false} GuardText(f: Found, flags: seq<Tok>)
    requires |f.result| < VALUE_BYTES && f.action == FwupdFlags.ActionAmong(flags)
    ensures WarnsOf(MakeResult("HSI: Boot Guard", WARN, WarnDetail(f)).detail, f.result, flags)
  {
  }

  /** What the report says of one id, as the attribute reader sees it. */
  lemma GuardResult(lead: string, head: seq<Tok>, attrs: seq<Attribute>, id: string, result: string)
    requires WellFormedReport(lead, head, attrs) && |result| < VALUE_BYTES - 1
    ensures var found := ReaderOf(ReportText(lead, head, attrs))(id);
      && (found.Some? <==> exists i :: 0 <= i < |attrs| && attrs[i].id == id)
      && (found.Some? ==> (found.value.result == result <==> AllResults(attrs, id, result)))
      && (found.None? ==> AllResults(attrs, id, result))
  {
    ReadersAgree(lead, head, attrs);
    if i :| 0 <= i < |attrs| && attrs[i].id == id {
      ResultIsShort(attrs[i], ReaderOf(ReportText(lead, head, attrs))(id).value, result);
    }
  }
}
