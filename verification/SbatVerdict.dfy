/** The bootloader SBAT row (src/check_boot_chain.c): the entries that shim and grub carry in
    their `.sbat` sections, and the verdict against the revocation list. */
module SbatVerdict {
  import opened CText
  import opened Decimal
  import opened Checks
  import opened Bytes
  import opened SbatCsv
  import PeSection

  const MAX_COMPONENTS: nat := 32
  const SECTION_MAX: nat := 8192
  const SBAT_SECTION: seq<Byte> := ['.' as int, 's' as int, 'b' as int, 'a' as int, 't' as int]
  const ROW: string := "bootloader SBAT"

  /** What reading a bootloader gives. */
  datatype Binary = Unreadable | Oversized | Bytes(data: seq<Byte>)

  function TextOf(bytes: seq<Byte>): (s: string)
    ensures |s| == |bytes| && forall i :: 0 <= i < |s| ==> s[i] == Low(bytes[i]) as char
  {
    if |bytes| == 0 then "" else [Low(bytes[0]) as char] + TextOf(bytes[1..])
  }

  predicate HasSbat(binary: Binary) {
    binary.Bytes? && PeSection.Extractable(binary.data, SBAT_SECTION, SECTION_MAX)
  }

  /** All entries of the `.sbat` section of a bootloader. */
  function EntriesOf(binary: Binary): (entries: seq<Entry>) {
    if HasSbat(binary)
    then Entries(TextOf(PeSection.Payload(binary.data, PeSection.MatchingHeader(binary.data, SBAT_SECTION))))
    else []
  }

  method ToText(bytes: seq<Byte>) returns (s: string)
    ensures s == TextOf(bytes)
  {
    s := "";
    for i := 0 to |bytes|
      invariant |s| == i && forall j :: 0 <= j < i ==> s[j] == Low(bytes[j]) as char
    {
      s := s + [Low(bytes[i]) as char];
    }
  }

  /** The arrays and flags that the calls of `collect_sbat_entries` share. */
  class Inventory {
    var installed: seq<Entry>
    var anySection: bool
    var binaryTruncated: bool

    constructor ()
      ensures installed == [] && !anySection && !binaryTruncated
    {
      installed, anySection, binaryTruncated := [], false, false;
    }

    /** `collect_sbat_entries`: what the section adds, as far as the array has room. */
    method Collect(binary: Binary)
      requires |installed| <= MAX_COMPONENTS
      modifies this
      ensures |installed| <= MAX_COMPONENTS
      ensures installed == Prefix(old(installed) + EntriesOf(binary), MAX_COMPONENTS)
      ensures anySection == (old(anySection) || (old(|installed|) < MAX_COMPONENTS && HasSbat(binary)))
      ensures binaryTruncated == (old(binaryTruncated) || (old(|installed|) < MAX_COMPONENTS && binary.Oversized?))
    {
      if |installed| >= MAX_COMPONENTS || binary.Unreadable? {
        assert Prefix(installed + EntriesOf(binary), MAX_COMPONENTS) == installed;
        return;
      }
      if binary.Oversized? {
        binaryTruncated := true;
        return;
      }
      var found, parsed := CollectFrom(binary, MAX_COMPONENTS - |installed|);
      if !found {
        return;
      }
      anySection := true;
      installed := installed + parsed;
    }
  }

  /** Extracting and parsing the section of one bootloader. */
  method CollectFrom(binary: Binary, room: nat) returns (found: bool, parsed: seq<Entry>)
    requires binary.Bytes?
    ensures found == HasSbat(binary) && (found ==> parsed == Prefix(EntriesOf(binary), room))
  {
    var section := new Byte[SECTION_MAX];
    var ok, size := PeSection.ExtractSection(binary.data, SBAT_SECTION, section);
    if !ok {
      return false, [];
    }
    assert section[..size] == PeSection.Payload(binary.data, PeSection.MatchingHeader(binary.data, SBAT_SECTION));
    var text := ToText(section[..size]);
    parsed := ParseCsv(text, room);
    return true, parsed;
  }

  // The verdict.

  /** An installed entry that some revocation of its component exceeds. */
  ghost predicate Offends(e: Entry, revoked: seq<Entry>) {
    exists j :: 0 <= j < |revoked| && revoked[j].component == e.component && e.generation < revoked[j].generation
  }

  /** `worst` is the strictest minimum for the component. */
  ghost predicate IsWorst(component: string, revoked: seq<Entry>, worst: nat) {
    && (exists j :: 0 <= j < |revoked| && revoked[j].component == component && revoked[j].generation == worst)
    && (forall j :: 0 <= j < |revoked| && revoked[j].component == component ==> revoked[j].generation <= worst)
  }

  /** Several revocations of one component collapse to the strictest minimum. */
  method WorstRevoked(component: string, revoked: seq<Entry>) returns (anyMatch: bool, worst: nat)
    ensures anyMatch ==> IsWorst(component, revoked, worst)
    ensures !anyMatch ==> forall j :: 0 <= j < |revoked| ==> revoked[j].component != component
  {
    anyMatch, worst := false, 0;
    for j := 0 to |revoked|
      invariant anyMatch ==> IsWorst(component, revoked[..j], worst)
      invariant !anyMatch ==> worst == 0 && forall k :: 0 <= k < j ==> revoked[k].component != component
    {
      ghost var k: nat :| anyMatch ==> k < j && revoked[k].component == component && revoked[k].generation == worst;
      assert revoked[..j + 1] == revoked[..j] + [revoked[j]];
      if revoked[j].component == component {
        assert revoked[..j + 1][j] == revoked[j];
        anyMatch := true;
        if revoked[j].generation > worst {
          worst := revoked[j].generation;
        } else if k < j {
          assert revoked[..j + 1][k] == revoked[k];
        }
      } else if anyMatch {
        assert revoked[..j + 1][k] == revoked[k];
      }
    }
    assert revoked[..|revoked|] == revoked;
  }

  function Sentence(e: Entry, worst: nat): (s: string) {
    e.component + " generation " + Dec(e.generation) + " below revoked minimum " + Dec(worst)
  }

  const SATISFIED: string := "installed generations satisfy SBAT revocations"

  /** The row for these entries: nobody offends, or the first offender is named with the
      strictest minimum of its component. */
  ghost predicate IsVerdict(row: CheckResult, installed: seq<Entry>, revoked: seq<Entry>) {
    || (row == MakeResult(ROW, OK, SATISFIED) && forall i :: 0 <= i < |installed| ==> !Offends(installed[i], revoked))
    || (exists i: nat, worst: nat :: NamesOffender(row, installed, revoked, i, worst))
  }

  ghost predicate NamesOffender(row: CheckResult, installed: seq<Entry>, revoked: seq<Entry>, i: nat, worst: nat) {
    && i < |installed|
    && Offends(installed[i], revoked)
    && (forall k :: 0 <= k < i ==> !Offends(installed[k], revoked))
    && IsWorst(installed[i].component, revoked, worst)
    && row == MakeResult(ROW, WARN, Sentence(installed[i], worst))
  }

  /** The comparison loop of `check_bootloader_sbat`. */
  method Judge(installed: seq<Entry>, revoked: seq<Entry>) returns (row: CheckResult)
    ensures IsVerdict(row, installed, revoked)
  {
    for i := 0 to |installed|
      invariant forall k :: 0 <= k < i ==> !Offends(installed[k], revoked)
    {
      var anyMatch, worst := WorstRevoked(installed[i].component, revoked);
      if anyMatch && installed[i].generation < worst {
        row := MakeResult(ROW, WARN, Sentence(installed[i], worst));
        assert NamesOffender(row, installed, revoked, i, worst);
        return;
      }
    }
    row := MakeResult(ROW, OK, SATISFIED);
  }

  /** `bythos_sbat_entries_present`. */
  ghost predicate PolicyPresent(text: string) {
    (exists i :: 0 <= i < |text| && !IsWs(text[i])) && !Contains(text, "No SBAT")
  }

  method FindPolicy(text: string) returns (present: bool)
    ensures present == PolicyPresent(text)
  {
    var i := 0;
    while i < |text| && IsWs(text[i])
      invariant i <= |text| && forall k :: 0 <= k < i ==> IsWs(text[k])
    {
      i := i + 1;
    }
    if i == |text| {
      return false;
    }
    var at := Search(text, "No SBAT", 0);
    return at == |text|;
  }

  /** What asking for the revocations gives: a row of its own, or the text that was listed. */
  datatype Policy = NotListed(row: CheckResult) | Listing(text: string, truncated: bool)

  function Carried(binary: Option<Binary>): (entries: seq<Entry>) {
    if binary.None? then [] else EntriesOf(binary.value)
  }

  /** The retained entries, shim before grub. */
  function Installed(shim: Option<Binary>, grub: Option<Binary>): (entries: seq<Entry>) {
    Prefix(Carried(shim) + Carried(grub), MAX_COMPONENTS)
  }

  function Revoked(text: string): (entries: seq<Entry>) {
    Prefix(Entries(text), MAX_COMPONENTS)
  }

  /** The revocations were listed whole, and there are some. */
  ghost predicate Decidable(policy: Policy) {
    policy.Listing? && !policy.truncated && PolicyPresent(policy.text) && |Revoked(policy.text)| > 0
  }

  /** Both bootloaders were read as far as there was room, something is installed and something
      is revoked. */
  ghost predicate Comparable(shim: Option<Binary>, grub: Option<Binary>, policy: Policy) {
    && shim != Some(Oversized)
    && (grub == Some(Oversized) ==> |Carried(shim)| >= MAX_COMPONENTS)
    && |Installed(shim, grub)| > 0
    && Decidable(policy)
  }

  /** What the check may answer: a verdict when there is something to compare, else a SKIP or the row
      of the query. */
  ghost predicate IsRow(row: CheckResult, shim: Option<Binary>, grub: Option<Binary>, policy: Policy) {
    if Comparable(shim, grub, policy) then IsVerdict(row, Installed(shim, grub), Revoked(policy.text))
    else row.state == SKIP || (policy.NotListed? && row == policy.row)
  }

  /** Both calls of `collect_sbat_entries`. */
  method CollectBoth(shim: Option<Binary>, grub: Option<Binary>) returns (inventory: Inventory)
    ensures fresh(inventory)
    ensures inventory.installed == Installed(shim, grub)
    ensures !inventory.anySection ==> inventory.installed == []
    ensures inventory.binaryTruncated
            <==> shim == Some(Oversized) || (grub == Some(Oversized) && |Carried(shim)| < MAX_COMPONENTS)
  {
    inventory := new Inventory();
    if shim.Some? {
      inventory.Collect(shim.value);
    }
    if grub.Some? {
      inventory.Collect(grub.value);
    }
    TwicePrefix(Carried(shim), Carried(grub), MAX_COMPONENTS);
  }

  /** `check_bootloader_sbat`, over the bytes read and the revocations listed. */
  method CheckBootloaderSbat(shim: Option<Binary>, grub: Option<Binary>, policy: Policy) returns (row: CheckResult)
    ensures IsRow(row, shim, grub, policy)
  {
    if shim.None? && grub.None? {
      return MakeSkip(ROW, SUBJECT_ABSENT, "shim/grub binary not present on this host");
    }
    var inventory := CollectBoth(shim, grub);
    row := JudgeInventory(inventory, policy);
  }

  /** The rows once the bootloaders were read. */
  method JudgeInventory(inventory: Inventory, policy: Policy) returns (row: CheckResult)
    requires !inventory.anySection ==> inventory.installed == []
    ensures
      if !inventory.binaryTruncated && |inventory.installed| > 0 && Decidable(policy)
      then IsVerdict(row, inventory.installed, Revoked(policy.text))
      else row.state == SKIP || (policy.NotListed? && row == policy.row)
  {
    if inventory.binaryTruncated {
      return MakeSkip(ROW, OUTPUT_UNPARSEABLE, "bootloader larger than this tool reads; SBAT not inspected");
    }
    if !inventory.anySection {
      return MakeSkip(ROW, FEATURE_ABSENT, "EFI bootloader SBAT section not found");
    }
    if |inventory.installed| == 0 {
      return MakeSkip(ROW, OUTPUT_UNPARSEABLE, "SBAT section not parseable");
    }
    row := CompareWith(inventory.installed, policy);
  }

  lemma TwicePrefix(a: seq<Entry>, b: seq<Entry>, n: nat)
    ensures Prefix(Prefix(a, n) + b, n) == Prefix(a + b, n)
    ensures Prefix([] + a, n) == Prefix(a, n) == Prefix(a + [], n)
    ensures |Prefix(a, n)| < n ==> Prefix(a, n) == a
  {
    assert [] + a == a == a + [];
  }

  /** The rows once something is installed. */
  method CompareWith(installed: seq<Entry>, policy: Policy) returns (row: CheckResult)
    ensures
      if Decidable(policy)
      then IsVerdict(row, installed, Revoked(policy.text))
      else row.state == SKIP || (policy.NotListed? && row == policy.row)
  {
    if policy.NotListed? {
      return policy.row;
    }
    if policy.truncated {
      return MakeSkip(ROW, OUTPUT_UNPARSEABLE, "revocation list truncated; verdict unreliable");
    }
    var present := FindPolicy(policy.text);
    if !present {
      return MakeSkip(ROW, PROBE_INDETERMINATE, "no SBAT revocation policy applied");
    }
    var revoked := ParseCsv(policy.text, MAX_COMPONENTS);
    if |revoked| == 0 {
      return MakeSkip(ROW, PROBE_INDETERMINATE, "no SBAT revocation policy applied");
    }
    row := Judge(installed, revoked);
  }

  // What the verdict means.

  /** Every installed generation is at least every revoked generation of its component. */
  ghost predicate Satisfied(installed: seq<Entry>, revoked: seq<Entry>) {
    forall e <- installed, r <- revoked :: e.component == r.component ==> e.generation >= r.generation
  }

  lemma OffendsMeans(installed: seq<Entry>, revoked: seq<Entry>)
    ensures Satisfied(installed, revoked) <==> forall i :: 0 <= i < |installed| ==> !Offends(installed[i], revoked)
  {
    if Satisfied(installed, revoked) {
      forall i | 0 <= i < |installed|
        ensures !Offends(installed[i], revoked)
      {
        assert installed[i] in installed;
        assert forall j :: 0 <= j < |revoked| ==> revoked[j] in revoked;
      }
    }
    if forall i :: 0 <= i < |installed| ==> !Offends(installed[i], revoked) {
      forall e, r | e in installed && r in revoked && e.component == r.component
        ensures e.generation >= r.generation
      {
        var i :| 0 <= i < |installed| && installed[i] == e;
        var j :| 0 <= j < |revoked| && revoked[j] == r;
        assert !Offends(installed[i], revoked);
      }
    }
  }

  /** OK exactly when the installed generations satisfy the revocations, and WARN otherwise. */
  lemma VerdictExact(row: CheckResult, installed: seq<Entry>, revoked: seq<Entry>)
    requires IsVerdict(row, installed, revoked)
    ensures row.state == OK <==> Satisfied(installed, revoked)
    ensures row.state == WARN <==> !Satisfied(installed, revoked)
    ensures row.name == "bootloader SBAT"
    ensures row.state == OK ==> row.detail == "installed generations satisfy SBAT revocations"
  {
    OffendsMeans(installed, revoked);
  }

  /** A further revocation, or a further entry, never turns WARN into OK. */
  lemma VerdictMonotone(
      row: CheckResult, installed: seq<Entry>, revoked: seq<Entry>,
      row': CheckResult, installed': seq<Entry>, revoked': seq<Entry>)
    requires IsVerdict(row, installed, revoked) && IsVerdict(row', installed', revoked')
    requires (forall e <- installed :: e in installed') && (forall r <- revoked :: r in revoked')
    ensures row.state == WARN ==> row'.state == WARN
  {
    VerdictExact(row, installed, revoked);
    VerdictExact(row', installed', revoked');
  }

  // The texts and the whole pipeline.

  lemma {:induction false} EntriesBounded(text: string)
    ensures forall e <- Entries(text) :: 0 < |e.component| < COMPONENT_MAX && e.generation <= UINT_MAX
    decreases |text|
  {
    if |text| > 0 && text[0] != NUL {
      EntriesBounded(text[NextLine(text)..]);
    }
  }

  lemma UintDec(n: nat)
    requires n <= UINT_MAX
    ensures |Dec(n)| <= 10
  {
    assert Pow10(4) == 10000 by { assert Pow10(2) == 100; }
    assert Pow10(8) == 1_0000_0000 by { assert Pow10(6) == 100_0000; }
    assert Pow10(10) == 100_0000_0000;
    DecLength(n, 10);
  }

  /** A warning read from its text: the component, its installed generation, and the minimum. */
  ghost predicate WarnsOf(detail: string, e: Entry, minimum: nat) {
    exists d, m ::
      && Number(d, e.generation) && Number(m, minimum)
      && detail == e.component + " generation " + d + " below revoked minimum " + m
  }

  /** The warning is never cut, and says which generation is installed and which is revoked. */
  lemma WarnWhole(row: CheckResult, installed: seq<Entry>, revoked: seq<Entry>, i: nat, worst: nat)
    requires NamesOffender(row, installed, revoked, i, worst)
    requires forall e <- installed + revoked :: |e.component| < COMPONENT_MAX && e.generation <= UINT_MAX
    ensures row.detail == Sentence(installed[i], worst) && WarnsOf(row.detail, installed[i], worst)
  {
    NumberOfDec(installed[i].generation);
    NumberOfDec(worst);
    var j :| 0 <= j < |revoked| && revoked[j].component == installed[i].component && revoked[j].generation == worst;
    assert (installed + revoked)[i] == installed[i] && (installed + revoked)[|installed| + j] == revoked[j];
    UintDec(installed[i].generation);
    UintDec(worst);
  }

  /** A bootloader image whose first `.sbat` section holds printed lines. */
  datatype Image = Image(p: PeSection.Prologue, sections: seq<PeSection.Section>, at: nat, lines: seq<Line>) {
    ghost predicate Valid() {
      && PeSection.Buildable(p, sections) && at < |sections| && sections[at].name == SBAT_SECTION
      && (forall j :: 0 <= j < at ==> sections[j].name != SBAT_SECTION)
      && AllValid(lines) && TextOf(sections[at].data) == Print(lines) && 0 < |sections[at].data| <= SECTION_MAX
    }

    ghost function Binary(): (b: Binary)
      requires Valid()
    {
      Bytes(PeSection.Build(p, sections))
    }
  }

  /** Building an image around printed lines and collecting from it returns their entries. */
  lemma {:induction false} CollectsBuilt(image: Image)
    requires image.Valid()
    ensures EntriesOf(image.Binary()) == Contents(image.lines)
  {
    PeSection.BuildThenExtract(image.p, image.sections, image.at, SECTION_MAX);
    CsvRoundTrip(image.lines);
  }

  /** A printed list is not blank. */
  lemma PrintedInk(lines: seq<Line>)
    requires |lines| > 0
    ensures exists i :: 0 <= i < |Print(lines)| && !IsWs(Print(lines)[i])
  {
    var line := lines[0];
    var at := |line.entry.component| + 1;
    assert Print(lines)[at] == line.Text()[at] == Dec(line.entry.generation)[0];
  }

  lemma {:induction false} ContentsLength(lines: seq<Line>)
    ensures |Contents(lines)| == |lines|
  {
    if |lines| > 0 {
      ContentsLength(lines[1..]);
    }
  }

  /** From images and a listing to the row: when both images and the revocation list are within the
      caps, OK exactly when every installed generation is at least every revoked one of its
      component, and WARN otherwise. */
  lemma {:induction false} PipelineExact(shim: Image, grub: Image, revoked: seq<Line>, row: CheckResult)
    requires shim.Valid() && grub.Valid() && 0 < |shim.lines| + |grub.lines| <= MAX_COMPONENTS
    requires AllValid(revoked) && 0 < |revoked| <= MAX_COMPONENTS && !Contains(Print(revoked), "No SBAT")
    requires IsRow(row, Some(shim.Binary()), Some(grub.Binary()), Listing(Print(revoked), false))
    ensures row.state == OK <==> Satisfied(Contents(shim.lines) + Contents(grub.lines), Contents(revoked))
    ensures row.state == OK || row.state == WARN
  {
    BuiltInstalled(shim, grub);
    PrintedRevoked(revoked);
    ComparedRow(row, Some(shim.Binary()), Some(grub.Binary()), Print(revoked),
                Contents(shim.lines) + Contents(grub.lines), Contents(revoked));
  }

  /** The row when there is something to compare. */
  lemma {:induction false} ComparedRow(row: CheckResult, shim: Option<Binary>, grub: Option<Binary>, text: string,
                                       installed: seq<Entry>, revoked: seq<Entry>)
    requires IsRow(row, shim, grub, Listing(text, false)) && shim != Some(Oversized) && grub != Some(Oversized)
    requires installed == Installed(shim, grub) && |installed| > 0
    requires revoked == Revoked(text) && |revoked| > 0 && PolicyPresent(text)
    ensures row.state == OK <==> Satisfied(installed, revoked)
    ensures row.state == OK || row.state == WARN
  {
    VerdictExact(row, installed, revoked);
  }

  lemma {:induction false} BuiltInstalled(shim: Image, grub: Image)
    requires shim.Valid() && grub.Valid() && |shim.lines| + |grub.lines| <= MAX_COMPONENTS
    ensures Installed(Some(shim.Binary()), Some(grub.Binary())) == Contents(shim.lines) + Contents(grub.lines)
    ensures |Contents(shim.lines) + Contents(grub.lines)| == |shim.lines| + |grub.lines|
  {
    CollectsBuilt(shim);
    CollectsBuilt(grub);
    ContentsLength(shim.lines);
    ContentsLength(grub.lines);
    AllInstalled(shim.Binary(), grub.Binary(), Contents(shim.lines), Contents(grub.lines));
  }

  lemma {:induction false} PrintedRevoked(revoked: seq<Line>)
    requires AllValid(revoked) && 0 < |revoked| <= MAX_COMPONENTS && !Contains(Print(revoked), "No SBAT")
    ensures Revoked(Print(revoked)) == Contents(revoked) && |Contents(revoked)| > 0 && PolicyPresent(Print(revoked))
  {
    CsvRoundTrip(revoked);
    ContentsLength(revoked);
    PrintedInk(revoked);
  }

  /** Within the cap, every entry of both bootloaders is kept. */
  lemma {:induction false} AllInstalled(shim: Binary, grub: Binary, first: seq<Entry>, second: seq<Entry>)
    requires first == EntriesOf(shim) && second == EntriesOf(grub) && |first| + |second| <= MAX_COMPONENTS
    ensures Installed(Some(shim), Some(grub)) == first + second
  {
  }
}
