/** The HSI rows of `bythos_check_fwupd` and the "HSI: unmapped attributes" row that accounts
    for what they do not show (src/check_fwupd.c). */
module HsiRow {
  import opened CText
  import opened Decimal
  import opened Checks
  import opened HsiReaders

  const REPORTED_MAX: nat := 48
  const ASIDE_BYTES: nat := 64

  datatype Vendor = AMD | INTEL | OTHER

  // ----- what the emitted rows account for -----------------------------------------------

  /** A failing attribute that a row shows, with the result it was found to have. */
  datatype Mark = Mark(id: string, result: string)

  function NotSupportedMarks(marks: seq<Mark>): (n: nat)
    ensures n <= |marks|
  {
    if |marks| == 0 then 0
    else NotSupportedMarks(marks[..|marks| - 1]) + if marks[|marks| - 1].result == NOT_SUPPORTED then 1 else 0
  }

  function MarkIds(marks: seq<Mark>): (ids: seq<string>)
    ensures |ids| == |marks| && forall i :: 0 <= i < |ids| ==> ids[i] == marks[i].id
  {
    seq(|marks|, i requires 0 <= i < |marks| => marks[i].id)
  }

  /** The ids that `hsi_already_reported` compares with. */
  function ShownIds(marks: seq<Mark>): (ids: seq<string>) {
    MarkIds(if |marks| < REPORTED_MAX then marks else marks[..REPORTED_MAX])
  }

  /** `hsi_reported_t`. */
  class Reported {
    var ids: seq<string>
    var count: nat
    var notSupported: nat
    ghost var marks: seq<Mark>

    /** The counters cover every mark; the ids cover as many as there is room for. */
    ghost predicate Valid()
      reads this
    {
      && count == |marks|
      && notSupported == NotSupportedMarks(marks)
      && ids == ShownIds(marks)
    }

    constructor ()
      ensures Valid() && marks == []
    {
      ids, count, notSupported := [], 0, 0;
      marks := [];
    }

    /** `hsi_mark_reported`. */
    method Add(id: string, result: string)
      requires Valid()
      modifies this
      ensures Valid() && marks == old(marks) + [Mark(id, result)]
    {
      if count < REPORTED_MAX {
        ids := ids + [id];
      }
      count := count + 1;
      if result == NOT_SUPPORTED {
        notSupported := notSupported + 1;
      }
      marks := marks + [Mark(id, result)];
      assert marks[..|marks| - 1] == old(marks);
      if count <= REPORTED_MAX {
        assert ids == ShownIds(marks);
      } else {
        assert marks[..REPORTED_MAX] == old(marks)[..REPORTED_MAX];
      }
    }

    /** `hsi_already_reported`. */
    method Has(id: string) returns (found: bool)
      requires Valid()
      ensures found <==> id in ids
    {
      for i := 0 to |ids|
        invariant id !in ids[..i]
      {
        if ids[i] == id {
          return true;
        }
      }
      return false;
    }
  }

  /** One `EMIT_HSI` call site. */
  datatype Mapping = Mapping(name: string, id: string, positive: string, okText: string)

  const UNIVERSAL: seq<Mapping> := [
    Mapping("HSI: platform fused", "org.fwupd.hsi.PlatformFused", "locked", "security fuses set"),
    Mapping("HSI: debug locked", "org.fwupd.hsi.PlatformDebugLocked", "locked", "locked"),
    Mapping("HSI: Secure Boot", "org.fwupd.hsi.Uefi.SecureBoot", "enabled", "enabled"),
    Mapping("HSI: UEFI PK", "org.fwupd.hsi.Uefi.Pk", "valid", "enrolled"),
    Mapping("HSI: UEFI db", "org.fwupd.hsi.Uefi.Db", "valid", "valid"),
    Mapping("HSI: UEFI boot variables", "org.fwupd.hsi.Uefi.BootserviceVars", "locked", "locked"),
    Mapping("HSI: capsule updates", "org.fwupd.hsi.Bios.CapsuleUpdates", "enabled", "authentication enabled"),
    Mapping("HSI: TPM 2.0", "org.fwupd.hsi.Tpm.Version20", "found", "present"),
    Mapping("HSI: TPM empty PCR", "org.fwupd.hsi.Tpm.EmptyPcr", "valid", "no unexpected empty PCRs"),
    Mapping("HSI: TPM PCR0 reconstruction", "org.fwupd.hsi.Tpm.ReconstructionPcr0", "valid", "valid"),
    Mapping("HSI: IOMMU", "org.fwupd.hsi.Iommu", "enabled", "enabled"),
    Mapping("HSI: pre-boot DMA protection", "org.fwupd.hsi.PrebootDma", "enabled", "active"),
    Mapping("HSI: encrypted RAM", "org.fwupd.hsi.EncryptedRam", "enabled", "memory encryption active")
  ]

  const AMD_ONLY: seq<Mapping> := [
    Mapping("HSI: platform secure boot", "org.fwupd.hsi.Amd.PlatformSecureBoot", "enabled", "fused at factory"),
    Mapping("HSI: SMM locked", "org.fwupd.hsi.Amd.SmmLocked", "locked", "locked"),
    Mapping("HSI: SPI replay protection", "org.fwupd.hsi.Amd.SpiReplayProtection", "enabled", "enabled"),
    Mapping("HSI: firmware rollback protection", "org.fwupd.hsi.Amd.RollbackProtection", "enabled", "enabled"),
    Mapping("HSI: SPI write protection", "org.fwupd.hsi.Amd.SpiWriteProtection", "enabled", "enabled")
  ]

  const INTEL_ONLY: seq<Mapping> := [
    Mapping("HSI: SPI BIOSWE", "org.fwupd.hsi.Spi.Bioswe", "valid", "BIOS write-enable clear"),
    Mapping("HSI: SPI BLE", "org.fwupd.hsi.Spi.Ble", "valid", "BIOS lock enabled"),
    Mapping("HSI: SPI SMM_BWP", "org.fwupd.hsi.Spi.SmmBwp", "valid", "SMM write protection enabled"),
    Mapping("HSI: ME manufacturing mode", "org.fwupd.hsi.Mei.ManufacturingMode", "locked", "not in manufacturing mode"),
    Mapping("HSI: Boot Guard ACM", "org.fwupd.hsi.IntelBootguard.Acm", "valid", "valid"),
    Mapping("HSI: Boot Guard policy", "org.fwupd.hsi.IntelBootguard.Policy", "valid", "valid")
  ]

  const BOOT_GUARD_ENABLED := "org.fwupd.hsi.IntelBootguard.Enabled"
  const BOOT_GUARD_VERIFIED := "org.fwupd.hsi.IntelBootguard.Verified"

  function CallSites(vendor: Vendor): (ms: seq<Mapping>) {
    match vendor
    case AMD => UNIVERSAL + AMD_ONLY
    case INTEL => UNIVERSAL + INTEL_ONLY
    case OTHER => UNIVERSAL
  }

  function MappingIds(ms: seq<Mapping>): (ids: seq<string>)
    ensures |ids| == |ms| && forall i :: 0 <= i < |ids| ==> ids[i] == ms[i].id
  {
    seq(|ms|, i requires 0 <= i < |ms| => ms[i].id)
  }

  /** The attributes looked up when `room` rows are left: call sites stop when the table is
      full, the Boot Guard pair is looked up regardless. */
  function LookedUp(sites: seq<Mapping>, guard: bool, room: nat): (ids: seq<string>) {
    MappingIds(if room < |sites| then sites[..room] else sites)
    + if guard then [BOOT_GUARD_ENABLED, BOOT_GUARD_VERIFIED] else []
  }

  function MappedIds(vendor: Vendor, room: nat): (ids: seq<string>) {
    LookedUp(CallSites(vendor), vendor == INTEL, room)
  }

  /** What the attribute reader answers for each id. */
  type Reader = string -> Option<Found>

  ghost function ReaderOf(json: string): (look: Reader) {
    id => Lookup(json, id, 0)
  }

  /** The mark an attribute leaves when it is found failing. */
  ghost function MarkOf(look: Reader, id: string): (ms: seq<Mark>)
    ensures |ms| <= 1
  {
    var f := look(id);
    if f.Some? && !f.value.passing then [Mark(id, f.value.result)] else []
  }

  /** The marks left by looking up some attributes in order. */
  ghost function MarksOf(look: Reader, ids: seq<string>): (ms: seq<Mark>) {
    if |ids| == 0 then [] else MarksOf(look, ids[..|ids| - 1]) + MarkOf(look, ids[|ids| - 1])
  }

  function ActionText(a: Action): (s: string)
    ensures |s| <= 22
  {
    match a
    case OEM_ACTION => "; OEM-controlled"
    case FIRMWARE_ACTION => "; configurable in BIOS"
    case OS_ACTION => "; configurable in OS"
    case NO_ACTION => ""
  }

  /** `hsi_format_warn`: a result and an action always fit together. */
  function WarnDetail(f: Found): (s: string)
    ensures |f.result| < VALUE_BYTES ==> |s| < DETAIL_MAX
  {
    f.result + ActionText(f.action)
  }

  /** The row of one call site. */
  function RowFor(m: Mapping, f: Option<Found>): (row: CheckResult) {
    match f
    case None => MakeSkip(m.name, FEATURE_ABSENT, "not reported")
    case Some(a) =>
      if a.result == NOT_SUPPORTED then MakeSkip(m.name, FEATURE_ABSENT, "not supported")
      else if a.result == (if a.success != "" then a.success else m.positive) then MakeResult(m.name, OK, m.okText)
      else MakeResult(m.name, WARN, WarnDetail(a))
  }

  /** The `EMIT_HSI` calls for `sites` with `room` rows left. */
  method EmitHsi(json: string, ghost look: Reader, sites: seq<Mapping>, room: nat, reported: Reported)
    returns (rows: seq<CheckResult>)
    requires look == ReaderOf(json) && reported.Valid()
    modifies reported
    ensures reported.Valid()
    ensures |rows| == if room < |sites| then room else |sites|
    ensures RowsStart(look, sites, rows, |rows|)
    ensures reported.marks == old(reported.marks) + SiteMarks(look, sites, |rows|)
  {
    rows := [];
    ghost var start := reported.marks;
    while |rows| < |sites| && |rows| < room
      invariant reported.Valid()
      invariant RowsStart(look, sites, rows, |rows|) && |rows| <= room
      invariant reported.marks == start + SiteMarks(look, sites, |rows|)
    {
      rows := EmitNext(json, look, sites, rows, reported, start);
    }
  }

  /** The call behind the rows already there. */
  method EmitNext(json: string, ghost look: Reader, sites: seq<Mapping>, rows: seq<CheckResult>, reported: Reported,
                  ghost start: seq<Mark>)
    returns (longer: seq<CheckResult>)
    requires look == ReaderOf(json) && reported.Valid() && |rows| < |sites|
    requires RowsStart(look, sites, rows, |rows|) && reported.marks == start + SiteMarks(look, sites, |rows|)
    modifies reported
    ensures reported.Valid() && |longer| == |rows| + 1
    ensures RowsStart(look, sites, longer, |longer|) && reported.marks == start + SiteMarks(look, sites, |longer|)
  {
    ghost var n := |rows|;
    var site := sites[|rows|];
    var row := EmitOne(json, look, site, reported);
    longer := rows + [row];
    RowsNext(look, sites, rows, row, longer, n);
    SiteMarksNext(look, sites, n, start);
  }

  lemma RowsNext(look: Reader, sites: seq<Mapping>, rows: seq<CheckResult>, row: CheckResult,
                 longer: seq<CheckResult>, n: nat)
    requires RowsStart(look, sites, rows, n) && n == |rows| < |sites| && longer == rows + [row]
    requires row == RowFor(sites[n], look(sites[n].id))
    ensures RowsStart(look, sites, longer, n + 1)
  {
  }

  /** The first `n` rows are those of the first `n` call sites. */
  ghost predicate RowsStart(look: Reader, sites: seq<Mapping>, rows: seq<CheckResult>, n: nat) {
    && n <= |sites| && n <= |rows|
    && forall i :: 0 <= i < n ==> rows[i] == RowFor(sites[i], look(sites[i].id))
  }

  /** The rows of all call sites. */
  ghost function SiteRows(look: Reader, sites: seq<Mapping>): (rows: seq<CheckResult>)
    ensures |rows| == |sites|
  {
    seq(|sites|, i requires 0 <= i < |sites| => RowFor(sites[i], look(sites[i].id)))
  }

  /** The Boot Guard row, on Intel only. */
  ghost function GuardRows(look: Reader, guard: bool): (rows: seq<CheckResult>) {
    if guard then [GuardRow(look(BOOT_GUARD_ENABLED), look(BOOT_GUARD_VERIFIED))] else []
  }

  /** Every HSI row of a report when there is room for all, with `room` rows left for look-ups. */
  ghost function HsiRows(json: string, vendor: Vendor, room: nat): (rows: seq<CheckResult>)
    ensures |rows| > 0
  {
    var look := ReaderOf(json);
    SiteRows(look, CallSites(vendor)) + GuardRows(look, vendor == INTEL)
    + [UnmappedRowFor(Tally(Records(json, 0)), MarksOf(look, MappedIds(vendor, room)))]
  }

  /** The marks of the first `n` call sites. */
  ghost function SiteMarks(look: Reader, sites: seq<Mapping>, n: nat): (ms: seq<Mark>)
    requires n <= |sites|
    ensures n == 0 ==> ms == []
  {
    MarksOf(look, MappingIds(sites[..n]))
  }

  lemma SiteMarksNext(look: Reader, sites: seq<Mapping>, n: nat, start: seq<Mark>)
    requires n < |sites|
    ensures start + SiteMarks(look, sites, n + 1) == start + SiteMarks(look, sites, n) + MarkOf(look, sites[n].id)
  {
    var was := MappingIds(sites[..n]);
    assert MappingIds(sites[..n + 1]) == was + [sites[n].id];
    MarksSnoc(look, was, sites[n].id);
    Assoc(start, SiteMarks(look, sites, n), MarkOf(look, sites[n].id));
  }

  lemma MarksSnoc(look: Reader, ids: seq<string>, id: string)
    ensures MarksOf(look, ids + [id]) == MarksOf(look, ids) + MarkOf(look, id)
  {
    assert (ids + [id])[..|ids|] == ids;
  }

  method EmitOne(json: string, ghost look: Reader, m: Mapping, reported: Reported) returns (row: CheckResult)
    requires look == ReaderOf(json) && reported.Valid()
    modifies reported
    ensures reported.Valid()
    ensures row == RowFor(m, look(m.id))
    ensures reported.marks == old(reported.marks) + MarkOf(look, m.id)
  {
    var found, a := FindAttribute(json, m.id);
    if !found {
      row := MakeSkip(m.name, FEATURE_ABSENT, "not reported");
    } else {
      if !a.passing {
        reported.Add(m.id, a.result);
      }
      if a.result == NOT_SUPPORTED {
        row := MakeSkip(m.name, FEATURE_ABSENT, "not supported");
      } else if (a.success != "" && a.result == a.success) || (a.success == "" && a.result == m.positive) {
        row := MakeResult(m.name, OK, m.okText);
      } else {
        row := MakeResult(m.name, WARN, WarnDetail(a));
      }
    }
  }

  function GuardRow(en: Option<Found>, ver: Option<Found>): (row: CheckResult) {
    if en.None? then MakeSkip("HSI: Boot Guard", FEATURE_ABSENT, "not reported")
    else if en.value.result == NOT_SUPPORTED then MakeSkip("HSI: Boot Guard", FEATURE_ABSENT, "not supported")
    else if en.value.result != "enabled" then MakeResult("HSI: Boot Guard", WARN, WarnDetail(en.value))
    else if ver.Some? && ver.value.result != "enabled" then MakeResult("HSI: Boot Guard", WARN, "measurement-only")
    else MakeResult("HSI: Boot Guard", OK, "enabled and verified")
  }

  /** The Boot Guard row, which looks up its two attributes whether or not a row is left. */
  method EmitBootGuard(json: string, ghost look: Reader, reported: Reported) returns (row: CheckResult)
    requires look == ReaderOf(json) && reported.Valid()
    modifies reported
    ensures reported.Valid()
    ensures reported.marks == old(reported.marks) + MarkOf(look, BOOT_GUARD_ENABLED) + MarkOf(look, BOOT_GUARD_VERIFIED)
    ensures row == GuardRow(look(BOOT_GUARD_ENABLED), look(BOOT_GUARD_VERIFIED))
  {
    var hasEn, en := FindAttribute(json, BOOT_GUARD_ENABLED);
    var hasVer, ver := FindAttribute(json, BOOT_GUARD_VERIFIED);
    MarkFailing(BOOT_GUARD_ENABLED, hasEn, en, look, reported);
    MarkFailing(BOOT_GUARD_VERIFIED, hasVer, ver, look, reported);
    row := GuardRow(if hasEn then Some(en) else None, if hasVer then Some(ver) else None);
  }

  /** The mark of an attribute that was looked up. */
  method MarkFailing(id: string, found: bool, a: Found, ghost look: Reader, reported: Reported)
    requires reported.Valid() && look(id) == if found then Some(a) else None
    modifies reported
    ensures reported.Valid() && reported.marks == old(reported.marks) + MarkOf(look, id)
  {
    if found && !a.passing {
      reported.Add(id, a.result);
    }
  }

  // ----- the sentence --------------------------------------------------------------------

  function Aside(inapplicable: nat): (s: string) {
    if inapplicable == 0 then "" else "; " + Dec(inapplicable) + " more not-supported (inapplicable)"
  }

  function Subject(hidden: nat): (s: string) {
    Dec(hidden) + " further fwupd " + Plural(hidden, "attribute is", "attributes are") + " not passing"
  }

  function NamesPart(hidden: nat, names: string, named: nat): (s: string)
    requires named <= hidden
  {
    if named == 0 then ", unidentified"
    else if named == hidden then ": " + names
    else ": " + names + " (+" + Dec(hidden - named) + " unidentified)"
  }

  /** The whole sentence, whatever its length. */
  function Sentence(hidden: nat, names: string, named: nat, inapplicable: nat): (s: string)
    requires named <= hidden
  {
    Subject(hidden) + NamesPart(hidden, names, named) + Aside(inapplicable) + "; run: fwupdmgr security"
  }

  // What the parts of the sentence say, read from their text.

  ghost predicate SubjectSays(text: string, hidden: nat) {
    exists d :: Number(d, hidden)
      && text == d + " further fwupd " + (if hidden == 1 then "attribute is" else "attributes are") + " not passing"
  }

  /** The names, and the number of those that are not named. */
  ghost predicate ListSays(text: string, names: string, named: nat, unnamed: nat) {
    if named == 0 then text == ", unidentified"
    else if unnamed == 0 then text == ": " + names
    else exists d :: Number(d, unnamed) && text == ": " + names + " (+" + d + " unidentified)"
  }

  ghost predicate AsideSays(text: string, inapplicable: nat) {
    if inapplicable == 0 then text == ""
    else exists d :: Number(d, inapplicable) && text == "; " + d + " more not-supported (inapplicable)"
  }

  ghost predicate SaysIn(detail: string, subject: string, list: string, aside: string, hidden: nat, names: string,
                         named: nat, inapplicable: nat)
    requires named <= hidden
  {
    && detail == subject + list + aside + "; run: fwupdmgr security"
    && SubjectSays(subject, hidden) && ListSays(list, names, named, hidden - named) && AsideSays(aside, inapplicable)
  }

  /** The detail counts the hidden attributes, lists the named ones, counts the others of them, and
      counts the inapplicable ones. */
  ghost predicate Says(detail: string, hidden: nat, names: string, named: nat, inapplicable: nat)
    requires named <= hidden
  {
    && Leading(detail) == hidden
    && exists subject, list, aside :: SaysIn(detail, subject, list, aside, hidden, names, named, inapplicable)
  }

  lemma {:induction false} SentenceSays(hidden: nat, names: string, named: nat, inapplicable: nat)
    requires named <= hidden
    ensures Says(Sentence(hidden, names, named, inapplicable), hidden, names, named, inapplicable)
  {
    NumberOfDec(hidden);
    NumberOfDec(hidden - named);
    NumberOfDec(inapplicable);
    var list := NamesPart(hidden, names, named);
    FirstNumber(Dec(hidden), " further fwupd ", Plural(hidden, "attribute is", "attributes are"), " not passing",
                list, Aside(inapplicable), "; run: fwupdmgr security", hidden);
    SaysParts(Sentence(hidden, names, named, inapplicable), Subject(hidden), list, Aside(inapplicable),
              hidden, names, named, inapplicable);
  }

  lemma {:induction false} SaysParts(detail: string, subject: string, list: string, aside: string, hidden: nat,
                                     names: string, named: nat, inapplicable: nat)
    requires named <= hidden && SaysIn(detail, subject, list, aside, hidden, names, named, inapplicable)
    requires Leading(detail) == hidden
    ensures Says(detail, hidden, names, named, inapplicable)
  {
  }

  lemma {:induction false} FirstNumber(
      digits: string, a: string, b: string, c: string, list: string, aside: string, end: string, n: nat)
    requires Number(digits, n) && |a| > 0 && !IsDigit(a[0])
    ensures Leading((digits + a + b + c) + list + aside + end) == n
  {
    var rest := a + (b + (c + (list + (aside + end))));
    LeadingOf(digits, rest, n);
    assert (digits + a + b + c) + list + aside + end == digits + rest;
  }

  ghost predicate Fits(hidden: nat, listed: seq<string>, inapplicable: nat)
    requires |listed| <= hidden
  {
    && |Join(listed, ", ")| < DETAIL_MAX
    && |Sentence(hidden, Join(listed, ", "), |listed|, inapplicable)| < DETAIL_MAX
  }

  /** With no name in it the sentence always fits. */
  lemma UnnamedFits(hidden: nat, inapplicable: nat)
    requires hidden < SIZE_LIMIT && inapplicable < SIZE_LIMIT
    ensures |Aside(inapplicable)| < ASIDE_BYTES
    ensures Fits(hidden, [], inapplicable)
  {
    SizeDecLength(hidden);
    SizeDecLength(inapplicable);
  }

  /** `hsi_unmapped_detail` with a detail buffer: the text stored, and whether it is whole. */
  method UnmappedDetail(hidden: nat, names: string, named: nat, inapplicable: nat)
    returns (whole: bool, out: string)
    requires named <= hidden < SIZE_LIMIT && inapplicable < SIZE_LIMIT
    ensures out == Stored(Sentence(hidden, names, named, inapplicable), DETAIL_MAX)
    ensures whole <==> |Sentence(hidden, names, named, inapplicable)| < DETAIL_MAX
  {
    UnnamedFits(hidden, inapplicable);
    var aside := "";
    if inapplicable > 0 {
      var full := "; " + Dec(inapplicable) + " more not-supported (inapplicable)";
      assert |full| < ASIDE_BYTES;
      aside := Stored(full, ASIDE_BYTES);
    }
    var list;
    if named == 0 {
      list := ", unidentified";
    } else if named == hidden {
      list := ": " + names;
    } else {
      list := ": " + names + " (+" + Dec(hidden - named) + " unidentified)";
    }
    var text := Subject(hidden) + list + aside + "; run: fwupdmgr security";
    assert text == Sentence(hidden, names, named, inapplicable);
    return |text| < DETAIL_MAX, Stored(text, DETAIL_MAX);
  }

  /** The ids that no row has shown yet, in order. */
  function Fresh(ids: seq<string>, shown: seq<string>): (unseen: seq<string>)
  {
    if |ids| == 0 then []
    else
      var last := ids[|ids| - 1];
      Fresh(ids[..|ids| - 1], shown) + if last in shown then [] else [last]
  }

  lemma {:induction false} FreshElements(ids: seq<string>, shown: seq<string>, id: string)
    ensures id in Fresh(ids, shown) <==> id in ids && id !in shown
  {
    if |ids| > 0 {
      var front, last := ids[..|ids| - 1], ids[|ids| - 1];
      FreshElements(front, shown, id);
      assert ids == front + [last];
    }
  }

  lemma FreshSnoc(ids: seq<string>, shown: seq<string>, id: string)
    ensures Fresh(ids + [id], shown) == Fresh(ids, shown) + if id in shown then [] else [id]
  {
    assert (ids + [id])[..|ids|] == ids;
  }

  lemma {:induction false} FreshPrefix(ids: seq<string>, shown: seq<string>, i: nat)
    requires i <= |ids|
    ensures Fresh(ids[..i], shown) <= Fresh(ids, shown)
    decreases |ids|
  {
    if i < |ids| {
      var front := ids[..|ids| - 1];
      FreshPrefix(front, shown, i);
      assert front[..i] == ids[..i];
    } else {
      assert ids[..i] == ids;
    }
  }

  /** The first `n` ids fit, and so does every shorter list. */
  ghost predicate AllFit(ids: seq<string>, n: nat, hidden: nat, inapplicable: nat)
    requires n <= |ids| && n <= hidden
  {
    Fits(hidden, ids[..n], inapplicable) && (n > 0 ==> AllFit(ids, n - 1, hidden, inapplicable))
  }

  /** The row names the first `n` unseen ids: as many, in order, as it counts and as fit. */
  ghost predicate NamesFirst(unseen: seq<string>, n: nat, hidden: nat, inapplicable: nat) {
    && n <= |unseen| && n <= hidden
    && AllFit(unseen, n, hidden, inapplicable)
    && (n < |unseen| && n < hidden ==> !Fits(hidden, unseen[..n + 1], inapplicable))
  }

  /** One more id of the list: either it has been shown, or it is the next unseen one. */
  lemma NextUnseen(ids: seq<string>, shown: seq<string>, i: nat, n: nat)
    requires i < |ids| && n <= |Fresh(ids, shown)| && Fresh(ids[..i], shown) == Fresh(ids, shown)[..n]
    ensures ids[i] in shown ==> Fresh(ids[..i + 1], shown) == Fresh(ids, shown)[..n]
    ensures ids[i] !in shown ==>
      n < |Fresh(ids, shown)| && Fresh(ids, shown)[n] == ids[i]
      && Fresh(ids[..i + 1], shown) == Fresh(ids, shown)[..n + 1]
  {
    assert ids[..i + 1] == ids[..i] + [ids[i]];
    FreshSnoc(ids[..i], shown, ids[i]);
    if ids[i] !in shown {
      FreshPrefix(ids, shown, i + 1);
      PrefixNext(Fresh(ids, shown), n, ids[i]);
    }
  }

  lemma PrefixNext<T>(s: seq<T>, n: nat, x: T)
    requires n <= |s| && s[..n] + [x] <= s
    ensures n < |s| && s[n] == x && s[..n + 1] == s[..n] + [x]
  {
    assert (s[..n] + [x])[n] == s[n];
  }

  function Extended(names: string, named: nat, id: string): (s: string) {
    names + (if named == 0 then "" else ", ") + id
  }

  lemma JoinNext(parts: seq<string>, n: nat)
    requires n < |parts|
    ensures Join(parts[..n + 1], ", ") == Extended(Join(parts[..n], ", "), n, parts[n])
  {
    assert parts[..n + 1] == parts[..n] + [parts[n]];
    JoinSnoc(parts[..n], ", ", parts[n]);
  }

  /** The variables of the naming loop. */
  datatype Naming = Naming(names: string, named: nat, detail: string)

  function Started(hidden: nat, inapplicable: nat): (n: Naming) {
    Naming("", 0, Stored(Sentence(hidden, "", 0, inapplicable), DETAIL_MAX))
  }

  /** The loop's variables after naming `id`, if the longer name list and its sentence are whole. */
  function NameOne(id: string, hidden: nat, inapplicable: nat, n: Naming): (r: Option<Naming>)
    requires n.named < hidden
    ensures r.Some? ==> r.value.named == n.named + 1
  {
    var names := Extended(n.names, n.named, id);
    if |names| >= DETAIL_MAX then None
    else
      var detail := Sentence(hidden, names, n.named + 1, inapplicable);
      if |detail| >= DETAIL_MAX then None else Some(Naming(names, n.named + 1, detail))
  }

  /** The naming loop from id `i` on. */
  function NameLoop(ids: seq<string>, shown: seq<string>, i: nat, hidden: nat, inapplicable: nat, n: Naming)
    : (r: Naming)
    requires i <= |ids| && n.named <= hidden
    decreases |ids| - i
  {
    if i == |ids| || n.named == hidden then n
    else if ids[i] in shown then NameLoop(ids, shown, i + 1, hidden, inapplicable, n)
    else
      var next := NameOne(ids[i], hidden, inapplicable, n);
      if next.None? then n else NameLoop(ids, shown, i + 1, hidden, inapplicable, next.value)
  }

  method NameOneMore(id: string, hidden: nat, inapplicable: nat, n: Naming) returns (r: Option<Naming>)
    requires n.named < hidden < SIZE_LIMIT && inapplicable < SIZE_LIMIT
    ensures r == NameOne(id, hidden, inapplicable, n)
  {
    var names := n.names + (if n.named == 0 then "" else ", ") + id;
    assert names == Extended(n.names, n.named, id);
    if |names| >= DETAIL_MAX {
      return None;
    }
    var whole, detail := UnmappedDetail(hidden, names, n.named + 1, inapplicable);
    if !whole {
      return None;
    }
    return Some(Naming(names, n.named + 1, detail));
  }

  /** The naming loop of the "HSI: unmapped attributes" block. */
  method ComposeDetail(ids: seq<string>, hidden: nat, inapplicable: nat, reported: Reported)
    returns (detail: string)
    requires reported.Valid()
    requires 0 < hidden < SIZE_LIMIT && inapplicable < SIZE_LIMIT
    ensures detail == NameLoop(ids, reported.ids, 0, hidden, inapplicable, Started(hidden, inapplicable)).detail
  {
    ghost var shown := reported.ids;
    var whole, unnamed := UnmappedDetail(hidden, "", 0, inapplicable);
    var n := Naming("", 0, unnamed);
    ghost var answer := NameLoop(ids, shown, 0, hidden, inapplicable, n);
    var i := 0;
    while i < |ids| && n.named < hidden
      invariant i <= |ids| && n.named <= hidden
      invariant NameLoop(ids, shown, i, hidden, inapplicable, n) == answer
    {
      var goOn, next := NameStep(ids, i, hidden, inapplicable, reported, shown, n);
      if !goOn {
        break;
      }
      i, n := i + 1, next;
    }
    return n.detail;
  }

  /** The body of the naming loop: whether it goes on, and with what. */
  method NameStep(ids: seq<string>, i: nat, hidden: nat, inapplicable: nat, reported: Reported,
                  ghost shown: seq<string>, n: Naming)
    returns (goOn: bool, next: Naming)
    requires reported.Valid() && shown == reported.ids
    requires i < |ids| && n.named < hidden < SIZE_LIMIT && inapplicable < SIZE_LIMIT
    ensures goOn ==> next.named <= hidden
    ensures goOn ==>
      NameLoop(ids, shown, i, hidden, inapplicable, n) == NameLoop(ids, shown, i + 1, hidden, inapplicable, next)
    ensures !goOn ==> NameLoop(ids, shown, i, hidden, inapplicable, n) == n
  {
    var alreadyShown := reported.Has(ids[i]);
    if alreadyShown {
      return true, n;
    }
    var one := NameOneMore(ids[i], hidden, inapplicable, n);
    if one.None? {
      return false, n;
    }
    return true, one.value;
  }

  /** The loop's variables say what the first `named` unseen ids say, and all of it is whole. */
  ghost predicate NamedSoFar(unseen: seq<string>, n: Naming, hidden: nat, inapplicable: nat) {
    && n.named <= |unseen| && n.named <= hidden
    && AllFit(unseen, n.named, hidden, inapplicable)
    && n.names == Join(unseen[..n.named], ", ")
    && n.detail == Sentence(hidden, n.names, n.named, inapplicable)
  }

  lemma NamingStarts(unseen: seq<string>, hidden: nat, inapplicable: nat)
    requires hidden < SIZE_LIMIT && inapplicable < SIZE_LIMIT
    ensures NamedSoFar(unseen, Started(hidden, inapplicable), hidden, inapplicable)
  {
    UnnamedFits(hidden, inapplicable);
    assert unseen[..0] == [];
  }

  lemma NameOneExtends(unseen: seq<string>, n: Naming, hidden: nat, inapplicable: nat)
    requires NamedSoFar(unseen, n, hidden, inapplicable) && n.named < |unseen| && n.named < hidden
    ensures var next := NameOne(unseen[n.named], hidden, inapplicable, n);
      if next.Some? then NamedSoFar(unseen, next.value, hidden, inapplicable)
      else !Fits(hidden, unseen[..n.named + 1], inapplicable)
  {
    JoinNext(unseen, n.named);
    var names := Join(unseen[..n.named + 1], ", ");
    assert Extended(n.names, n.named, unseen[n.named]) == names;
    var next := NameOne(unseen[n.named], hidden, inapplicable, n);
    if next.Some? {
      assert next.value == Naming(names, n.named + 1, Sentence(hidden, names, n.named + 1, inapplicable));
      assert Fits(hidden, unseen[..n.named + 1], inapplicable);
    }
  }

  /** The next unseen id is named, or it is the first that does not fit. */
  lemma {:induction false} NextNamed(ids: seq<string>, shown: seq<string>, unseen: seq<string>, i: nat, hidden: nat,
                                     inapplicable: nat, n: Naming)
    requires i < |ids| && ids[i] !in shown && unseen == Fresh(ids, shown) && n.named < hidden
    requires NamedSoFar(unseen, n, hidden, inapplicable) && Fresh(ids[..i], shown) == unseen[..n.named]
    ensures var next := NameOne(ids[i], hidden, inapplicable, n);
      if next.None? then NamesFirst(unseen, n.named, hidden, inapplicable)
      else NamedSoFar(unseen, next.value, hidden, inapplicable)
           && Fresh(ids[..i + 1], shown) == unseen[..next.value.named]
  {
    NextUnseen(ids, shown, i, n.named);
    NameOneExtends(unseen, n, hidden, inapplicable);
  }

  /** Whatever the ids, the loop ends with as many unseen ids named as count and fit. */
  lemma {:induction false} NameLoopNames(ids: seq<string>, shown: seq<string>, unseen: seq<string>, i: nat, hidden: nat,
                                         inapplicable: nat, n: Naming, r: Naming)
    requires i <= |ids| && unseen == Fresh(ids, shown) && NamedSoFar(unseen, n, hidden, inapplicable)
    requires Fresh(ids[..i], shown) == unseen[..n.named]
    requires r == NameLoop(ids, shown, i, hidden, inapplicable, n)
    ensures NamedSoFar(unseen, r, hidden, inapplicable) && NamesFirst(unseen, r.named, hidden, inapplicable)
    decreases |ids| - i
  {
    if i == |ids| {
      assert ids[..i] == ids;
      assert |unseen[..n.named]| == n.named;
    } else if n.named < hidden {
      if ids[i] in shown {
        NextUnseen(ids, shown, i, n.named);
        NameLoopNames(ids, shown, unseen, i + 1, hidden, inapplicable, n, r);
      } else {
        NextNamed(ids, shown, unseen, i, hidden, inapplicable, n);
        var next := NameOne(ids[i], hidden, inapplicable, n);
        if next.Some? {
          NameLoopNames(ids, shown, unseen, i + 1, hidden, inapplicable, next.value, r);
        }
      }
    }
  }

  // ----- the row -------------------------------------------------------------------------

  /** How many not-supported attributes no row shows; never below zero. */
  function Inapplicable(np: NotPassing, marks: seq<Mark>): (n: nat)
    ensures n <= np.notSupported
  {
    if np.notSupported > NotSupportedMarks(marks) then np.notSupported - NotSupportedMarks(marks) else 0
  }

  /** How many weak attributes no row shows; zero when the rows show as many or more. */
  function Hidden(np: NotPassing, marks: seq<Mark>): (n: nat)
    requires np.notSupported <= np.total
    ensures n <= np.total - np.notSupported
  {
    var weak := np.total - np.notSupported;
    var shownWeak := |marks| - NotSupportedMarks(marks);
    if weak > shownWeak then weak - shownWeak else 0
  }

  function InapplicableText(n: nat): (s: string) {
    Dec(n) + " further fwupd " + Plural(n, "attribute is", "attributes are")
    + " not-supported, so inapplicable; nothing else not passing is unreported"
  }

  /** The detail counts the inapplicable attributes. */
  ghost predicate SaysInapplicable(detail: string, n: nat) {
    && Leading(detail) == n
    && exists d ::
         && Number(d, n)
         && detail == d + " further fwupd " + (if n == 1 then "attribute is" else "attributes are")
                      + " not-supported, so inapplicable; nothing else not passing is unreported"
  }

  lemma {:induction false} InapplicableTextFits(n: nat)
    requires n < SIZE_LIMIT
    ensures |InapplicableText(n)| < DETAIL_MAX
    ensures SaysInapplicable(InapplicableText(n), n)
  {
    var detail := InapplicableText(n);
    SizeDecLength(n);
    NumberOfDec(n);
    FirstNumber(Dec(n), " further fwupd ", Plural(n, "attribute is", "attributes are"),
                " not-supported, so inapplicable; nothing else not passing is unreported", "", "", "", n);
    assert detail == detail + "" + "" + "";
  }

  const ALL_REPORTED := "every fwupd attribute not passing is reported above"

  /** What the naming loop makes of a report and the marks of the rows. */
  function Named(np: NotPassing, marks: seq<Mark>): (n: Naming)
    requires np.notSupported <= np.total
  {
    var hidden, inapplicable := Hidden(np, marks), Inapplicable(np, marks);
    NameLoop(np.ids, ShownIds(marks), 0, hidden, inapplicable, Started(hidden, inapplicable))
  }

  function UnmappedRowFor(np: NotPassing, marks: seq<Mark>): (row: CheckResult)
    requires np.notSupported <= np.total
  {
    if Hidden(np, marks) > 0 then MakeResult("HSI: unmapped attributes", WARN, Named(np, marks).detail)
    else if Inapplicable(np, marks) > 0 then
      MakeResult("HSI: unmapped attributes", OK, InapplicableText(Inapplicable(np, marks)))
    else MakeResult("HSI: unmapped attributes", OK, ALL_REPORTED)
  }

  /** The "HSI: unmapped attributes" block. */
  method UnmappedRow(json: string, reported: Reported) returns (row: CheckResult)
    requires reported.Valid() && |json| < SIZE_LIMIT
    ensures row == UnmappedRowFor(Tally(Records(json, 0)), reported.marks)
  {
    var np := CollectNotPassing(json);
    RecordsFit(json, 0);
    row := UnmappedRowOf(np, reported);
  }

  method UnmappedRowOf(np: NotPassing, reported: Reported) returns (row: CheckResult)
    requires reported.Valid() && np.notSupported <= np.total < SIZE_LIMIT
    ensures row == UnmappedRowFor(np, reported.marks)
  {
    var weak := np.total - np.notSupported;
    var shownWeak := if reported.count > reported.notSupported then reported.count - reported.notSupported else 0;
    var inapplicable :=
      if np.notSupported > reported.notSupported then np.notSupported - reported.notSupported else 0;
    assert inapplicable == Inapplicable(np, reported.marks);
    if weak > shownWeak {
      assert weak - shownWeak == Hidden(np, reported.marks);
      var detail := ComposeDetail(np.ids, weak - shownWeak, inapplicable, reported);
      assert detail == Named(np, reported.marks).detail;
      row := MakeResult("HSI: unmapped attributes", WARN, detail);
    } else if inapplicable > 0 {
      row := MakeResult("HSI: unmapped attributes", OK, InapplicableText(inapplicable));
    } else {
      row := MakeResult("HSI: unmapped attributes", OK, ALL_REPORTED);
    }
  }

  /** The rows of a run of call sites, as many as there is room for, and what they leave marked. */
  method EmitSites(json: string, ghost look: Reader, sites: seq<Mapping>, room: nat, reported: Reported)
    returns (rows: seq<CheckResult>)
    requires look == ReaderOf(json) && reported.Valid() && reported.marks == []
    modifies reported
    ensures reported.Valid() && |rows| <= |sites| && reported.marks == SiteMarks(look, sites, |rows|)
    ensures rows == Prefix(SiteRows(look, sites), room)
  {
    rows := EmitHsi(json, look, sites, room, reported);
    assert [] + SiteMarks(look, sites, |rows|) == SiteMarks(look, sites, |rows|);
    RowsArePrefix(look, sites, rows, room);
  }

  lemma {:induction false} RowsArePrefix(look: Reader, sites: seq<Mapping>, rows: seq<CheckResult>, room: nat)
    requires RowsStart(look, sites, rows, |rows|) && |rows| == if room < |sites| then room else |sites|
    ensures rows == Prefix(SiteRows(look, sites), room)
  {
  }

  /** The Boot Guard pair behind the rows already there. */
  method AddGuard(json: string, ghost look: Reader, rows: seq<CheckResult>, ghost all: seq<CheckResult>, room: nat,
                  reported: Reported)
    returns (longer: seq<CheckResult>)
    requires look == ReaderOf(json) && reported.Valid() && rows == Prefix(all, room)
    modifies reported
    ensures reported.Valid()
    ensures reported.marks == old(reported.marks) + MarkOf(look, BOOT_GUARD_ENABLED) + MarkOf(look, BOOT_GUARD_VERIFIED)
    ensures longer == Prefix(all + GuardRows(look, true), room)
  {
    var row := EmitBootGuard(json, look, reported);
    PrefixSnoc(all, row, room);
    longer := if |rows| < room then rows + [row] else rows;
  }

  /** The rows before the last one, and what they leave marked. */
  method CheckSites(json: string, ghost look: Reader, sites: seq<Mapping>, guard: bool, room: nat, reported: Reported)
    returns (rows: seq<CheckResult>)
    requires look == ReaderOf(json) && reported.Valid() && reported.marks == []
    modifies reported
    ensures reported.Valid() && reported.marks == MarksOf(look, LookedUp(sites, guard, room))
    ensures rows == Prefix(SiteRows(look, sites) + GuardRows(look, guard), room)
  {
    rows := EmitSites(json, look, sites, room, reported);
    LookedUpMarks(look, sites, guard, room, |rows|);
    if guard {
      rows := AddGuard(json, look, rows, SiteRows(look, sites), room, reported);
    } else {
      assert SiteRows(look, sites) + [] == SiteRows(look, sites);
    }
  }

  /** One element more, if there is room for it. */
  lemma PrefixSnoc<T>(s: seq<T>, x: T, room: nat)
    ensures Prefix(s + [x], room) == if |s| < room then s + [x] else Prefix(s, room)
  {
  }

  lemma LookedUpMarks(look: Reader, sites: seq<Mapping>, guard: bool, room: nat, n: nat)
    requires n == if room < |sites| then room else |sites|
    ensures var marks := SiteMarks(look, sites, n);
      MarksOf(look, LookedUp(sites, guard, room))
      == if guard then marks + MarkOf(look, BOOT_GUARD_ENABLED) + MarkOf(look, BOOT_GUARD_VERIFIED) else marks
  {
    var ids := MappingIds(sites[..n]);
    assert sites[..|sites|] == sites;
    GuardMarks(look, ids);
    assert ids + [] == ids;
  }

  /** The HSI rows, as many as there is room for when the first one is due. */
  method CheckHsi(json: string, vendor: Vendor, room: nat) returns (rows: seq<CheckResult>)
    requires |json| < SIZE_LIMIT
    ensures rows == Prefix(HsiRows(json, vendor, room), room)
  {
    var sites := CallSites(vendor);
    var reported := new Reported();
    rows := CheckSites(json, ReaderOf(json), sites, vendor == INTEL, room, reported);
    var row := UnmappedRow(json, reported);
    PrefixSnoc(SiteRows(ReaderOf(json), sites) + GuardRows(ReaderOf(json), vendor == INTEL), row, room);
    if |rows| < room {
      rows := rows + [row];
    }
  }

  /** With less room the check emits the start of what it would emit with more. */
  lemma RoomPrefix(json: string, vendor: Vendor, room: nat, more: nat)
    requires room <= more
    ensures Prefix(HsiRows(json, vendor, room), room) == Prefix(Prefix(HsiRows(json, vendor, more), more), room)
  {
    var look := ReaderOf(json);
    var rows := SiteRows(look, CallSites(vendor)) + GuardRows(look, vendor == INTEL);
    if room > |rows| {
      assert MappedIds(vendor, room) == MappedIds(vendor, more);
    }
    LastDiffers(rows, HsiRows(json, vendor, room), HsiRows(json, vendor, more), room, more);
  }

  lemma LastDiffers<T>(rows: seq<T>, a: seq<T>, b: seq<T>, room: nat, more: nat)
    requires room <= more && |a| == |b| == |rows| + 1 && a[..|rows|] == b[..|rows|] == rows
    requires room > |rows| ==> a == b
    ensures Prefix(a, room) == Prefix(Prefix(b, more), room)
  {
    if room <= |rows| {
      assert Prefix(a, room) == rows[..room] == Prefix(b, room);
    }
  }

  lemma GuardMarks(look: Reader, ids: seq<string>)
    ensures MarksOf(look, ids + [BOOT_GUARD_ENABLED, BOOT_GUARD_VERIFIED])
            == MarksOf(look, ids) + MarkOf(look, BOOT_GUARD_ENABLED) + MarkOf(look, BOOT_GUARD_VERIFIED)
  {
    MarksSnoc(look, ids, BOOT_GUARD_ENABLED);
    MarksSnoc(look, ids + [BOOT_GUARD_ENABLED], BOOT_GUARD_VERIFIED);
    assert ids + [BOOT_GUARD_ENABLED] + [BOOT_GUARD_VERIFIED] == ids + [BOOT_GUARD_ENABLED, BOOT_GUARD_VERIFIED];
  }

  lemma RecordsFit(json: string, from: nat)
    requires from <= |json|
    ensures |Records(json, from)| <= |json|
  {
  }

  /** On any report text and any marks the row never lies by arithmetic: it warns exactly when
      it hides something, its sentence is whole, it lists at most as many ids as it counts and as
      were kept, each of them whole and shown by no row, and it stops listing only when nothing is
      left, the count is reached, or one more name would not fit. */
  lemma UnmappedRowSound(np: NotPassing, marks: seq<Mark>)
    requires np.notSupported <= np.total < SIZE_LIMIT
    ensures var row, hidden := UnmappedRowFor(np, marks), Hidden(np, marks);
      var inapplicable, named := Inapplicable(np, marks), Named(np, marks).named;
      var unseen := Fresh(np.ids, ShownIds(marks));
      && (row.state == WARN <==> hidden > 0) && (row.state == OK <==> hidden == 0)
      && NamesFirst(unseen, named, hidden, inapplicable)
      && (hidden > 0 ==>
            row.detail == Sentence(hidden, Join(unseen[..named], ", "), named, inapplicable))
      && (hidden > 0 ==> Says(row.detail, hidden, Join(unseen[..named], ", "), named, inapplicable))
      && (hidden == 0 && inapplicable > 0 ==>
            SaysInapplicable(row.detail, inapplicable))
      && (hidden == 0 && inapplicable == 0 ==> row.detail == "every fwupd attribute not passing is reported above")
      && named <= |np.ids| && named <= hidden <= np.total - np.notSupported
      && (forall id :: id in unseen <==> id in np.ids && id !in ShownIds(marks))
  {
    var hidden, inapplicable := Hidden(np, marks), Inapplicable(np, marks);
    var shown := ShownIds(marks);
    var unseen := Fresh(np.ids, shown);
    NamingStarts(unseen, hidden, inapplicable);
    assert np.ids[..0] == [] && unseen[..0] == [];
    NameLoopNames(np.ids, shown, unseen, 0, hidden, inapplicable, Started(hidden, inapplicable), Named(np, marks));
    InapplicableTextFits(inapplicable);
    FreshLength(np.ids, shown);
    forall id
      ensures id in unseen <==> id in np.ids && id !in shown
    {
      FreshElements(np.ids, shown, id);
    }
    var n := Named(np, marks);
    assert Fits(hidden, unseen[..n.named], inapplicable);
    SentenceSays(hidden, Join(unseen[..n.named], ", "), n.named, inapplicable);
  }

  /** On any report text and any marks, every id that the row may list is the printable id of a weak
      record and shown by no row. */
  lemma ListedAreWeak(json: string, marks: seq<Mark>, id: string)
    requires id in Fresh(Tally(Records(json, 0)).ids, ShownIds(marks))
    ensures Reproducible(id) && id !in ShownIds(marks)
    ensures exists r <- Records(json, 0) :: r.Weak() && r.id == Some(id)
  {
    var records := Records(json, 0);
    FreshElements(Tally(records).ids, ShownIds(marks), id);
    assert id in PrintableIds(WeakOnes(records));
    PrintableFrom(WeakOnes(records), id);
    var r :| r in WeakOnes(records) && r.id == Some(id);
    WeakMembers(records, r);
  }

  lemma FreshLength(ids: seq<string>, shown: seq<string>)
    ensures |Fresh(ids, shown)| <= |ids|
  {
  }
}
