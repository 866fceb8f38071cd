/** The rows for LUKS volumes (src/check_luks.c), from the counters of the fold. */
module LuksRows {
  import opened CText
  import opened Decimal
  import opened Checks
  import opened PcrMask
  import opened LuksFold
  import opened UnlockText

  const VERSION_ROW: string := "LUKS version"
  const INTEGRITY_ROW: string := "LUKS dm-integrity"
  const TPM_ROW: string := "LUKS TPM binding"
  const SECURE_BOOT_ROW: string := "LUKS Secure Boot binding"
  const CHAIN_ROW: string := "LUKS boot chain binding"

  function UnreadableText(t: Tally, one: string, many: string): (s: string) {
    Dec(t.dumpFailed) + " of " + Dec(t.found) + " " + Plural(t.found, one, many) + " unreadable by cryptsetup"
  }

  /** The rows when there is nothing to judge. */
  function Absent(row: string): (r: CheckResult) {
    MakeSkip(row, SUBJECT_ABSENT, "LUKS volumes not present on this host")
  }

  function Denied(row: string): (r: CheckResult) {
    MakeSkip(row, EXEC_FAILED, "cryptsetup query failed").(requiresRoot := true)
  }

  function VersionRow(t: Tally): (r: CheckResult) {
    if t.found == 0 then Absent(VERSION_ROW)
    else if t.dumpOk == 0 then Denied(VERSION_ROW)
    else if t.dumpFailed > 0 then MakeSkip(VERSION_ROW, EXEC_FAILED, UnreadableText(t, "volume", "volumes"))
    else if t.versions.unknown > 0 then
      MakeSkip(VERSION_ROW, OUTPUT_UNPARSEABLE,
               Dec(t.versions.unknown) + " " + Plural(t.versions.unknown, "volume", "volumes")
               + " with unparseable version")
    else if t.versions.luks1 > 0 then
      MakeResult(VERSION_ROW, WARN,
                 Dec(t.versions.luks1) + " LUKS1 " + Plural(t.versions.luks1, "volume", "volumes")
                 + "; legacy format, no token support")
    else MakeResult(VERSION_ROW, OK,
                    "all " + Dec(t.versions.luks2) + " " + Plural(t.versions.luks2, "volume", "volumes") + " LUKS2")
  }

  function IntegrityRow(t: Tally): (r: CheckResult) {
    var n := t.versions.integrity;
    if t.found == 0 then Absent(INTEGRITY_ROW)
    else if t.dumpOk == 0 then Denied(INTEGRITY_ROW)
    else if t.dumpFailed > 0 then MakeSkip(INTEGRITY_ROW, EXEC_FAILED, UnreadableText(t, "volume", "volumes"))
    else if n == 0 then MakeSkip(INTEGRITY_ROW, NOT_CONFIGURED, "dm-integrity not configured").(actionable := true)
    else if n == t.dumpOk then
      MakeResult(INTEGRITY_ROW, OK, "enabled on all " + Dec(n) + " " + Plural(n, "volume", "volumes"))
    else MakeResult(INTEGRITY_ROW, WARN,
                    "enabled on " + Dec(n) + " of " + Dec(t.dumpOk) + " " + Plural(t.dumpOk, "volume", "volumes"))
  }

  function TpmRow(t: Tally, tpmPresent: bool): (r: CheckResult) {
    var b := t.bindings;
    if t.found == 0 then Absent(TPM_ROW)
    else if t.dumpOk == 0 then Denied(TPM_ROW)
    else if !tpmPresent then MakeSkip(TPM_ROW, HW_ABSENT, "TPM not detected")
    else if !b.anyToken && b.clevis == 0 then MakeResult(TPM_ROW, WARN, "no LUKS device has TPM2 token")
    else if !b.anyToken then
      MakeSkip(TPM_ROW, PROBE_INDETERMINATE, "clevis token present; pin not inspectable via luksDump")
    else if t.dumpFailed > 0 then
      MakeResult(TPM_ROW, WARN,
                 "TPM2 token found, but " + Dec(t.dumpFailed) + " of " + Dec(t.found) + " "
                 + Plural(t.found, "device", "devices") + " unreadable")
    else if b.noToken > 0 || b.clevis > 0 then
      MakeResult(TPM_ROW, WARN, "at least one LUKS device without a systemd-tpm2 token")
    else MakeResult(TPM_ROW, OK, "TPM2 token on " + Dec(t.found) + " " + Plural(t.found, "device", "devices"))
  }

  /** The rows that are decided before any mask is looked at. */
  function EarlyBinding(t: Tally, tpmPresent: bool, row: string): (r: seq<CheckResult>)
    ensures |r| <= 1
  {
    var b := t.bindings;
    if t.found == 0 then [Absent(row)]
    else if t.dumpOk == 0 then [Denied(row)]
    else if !tpmPresent then [MakeSkip(row, HW_ABSENT, "TPM not detected")]
    else if !b.anyToken && b.clevis == 0 then [MakeSkip(row, SUBJECT_ABSENT, "no TPM2 token to evaluate")]
    else if !b.anyToken then [MakeSkip(row, PROBE_INDETERMINATE, "clevis binding; PCR policy not inspectable")]
    else if t.dumpFailed > 0 then [MakeSkip(row, EXEC_FAILED, UnreadableText(t, "device", "devices"))]
    else if NoHash(b) && b.signedCount == 0 then [MakeSkip(row, OUTPUT_UNPARSEABLE, "PCR mask unreadable")]
    else []
  }

  /** No hash policy is judged: the sentinel is still there. */
  predicate NoHash(b: Bindings) { b.weakest.mask == ALL || b.weakest.mask == {} }

  /** State and detail, before the consequences of unlocking. */
  datatype Finding = Finding(state: State, text: string)

  function UnparsedText(pcrs: string, n: nat): (s: string) {
    "PCRs: " + pcrs + "; " + Dec(n) + " " + Plural(n, "device", "devices") + " PCR binding unreadable"
  }

  function SecureBootFinding(b: Bindings, pcrs: string): (f: Finding) {
    if NoHash(b) then Finding(OK, "signed policy (pubkey); PCRs: " + pcrs)
    else if 7 !in b.weakest.mask then Finding(WARN, "PCRs: " + pcrs + "; PCR 7 absent, Secure Boot state unmeasured")
    else if b.unparsed > 0 then Finding(WARN, UnparsedText(pcrs, b.unparsed))
    else Finding(OK, "PCRs: " + pcrs + "; Secure Boot state measured")
  }

  function ChainFinding(b: Bindings, pcrs: string): (f: Finding) {
    var mask := b.weakest.mask;
    if NoHash(b) then
      if 11 in b.signedWeakest.mask then Finding(OK, "signed policy; PCR 11 (UKI) measured")
      else Finding(WARN, "signed policy; PCRs: " + pcrs + ", PCR 11 (UKI) absent")
    else if 4 !in mask && 9 !in mask then Finding(WARN, "PCRs: " + pcrs + " only; bootloader and initramfs unprotected")
    else if 4 !in mask then Finding(WARN, "PCRs: " + pcrs + "; bootloader (PCR 4) unmeasured")
    else if 9 !in mask then Finding(WARN, "PCRs: " + pcrs + "; initramfs unprotected")
    else if b.unparsed > 0 then Finding(WARN, UnparsedText(pcrs, b.unparsed))
    else if 0 in mask then Finding(OK, "PCRs: " + pcrs + "; firmware and full boot chain measured")
    else Finding(OK, "PCRs: " + pcrs + "; boot chain measured")
  }

  /** The mask that the binding rows judge. */
  function Judged(b: Bindings): (m: Mask) {
    if NoHash(b) then b.signedWeakest.mask else b.weakest.mask
  }

  function BindingRow(row: string, f: Finding, mask: Mask, signedPolicy: bool): (r: CheckResult) {
    MakeResult(row, f.state, WithConsequence(Stored(f.text, DETAIL_MAX), DETAIL_MAX, mask, signedPolicy))
  }

  function SecureBootRow(t: Tally, tpmPresent: bool): (r: CheckResult) {
    var early, b := EarlyBinding(t, tpmPresent, SECURE_BOOT_ROW), t.bindings;
    if |early| > 0 then early[0]
    else BindingRow(SECURE_BOOT_ROW, SecureBootFinding(b, PcrText(Judged(b), ROW_SIZE)), Judged(b), NoHash(b))
  }

  function ChainRow(t: Tally, tpmPresent: bool): (r: CheckResult) {
    var early, b := EarlyBinding(t, tpmPresent, CHAIN_ROW), t.bindings;
    if |early| > 0 then early[0]
    else BindingRow(CHAIN_ROW, ChainFinding(b, PcrText(Judged(b), ROW_SIZE)), Judged(b), NoHash(b))
  }

  method EmitBinding(row: string, f: Finding, mask: Mask, signedPolicy: bool) returns (r: CheckResult)
    ensures r == BindingRow(row, f, mask, signedPolicy)
  {
    var detail := Stored(f.text, DETAIL_MAX);
    detail := AppendUnlockConsequences(detail, DETAIL_MAX, mask, signedPolicy);
    return MakeResult(row, f.state, detail);
  }

  lemma EarlyForBoth(t: Tally, tpmPresent: bool, row: string, other: string)
    ensures |EarlyBinding(t, tpmPresent, row)| == |EarlyBinding(t, tpmPresent, other)|
  {
  }

  /** The two rows about PCR policies. */
  method EmitBindings(t: Tally, tpmPresent: bool) returns (secureBoot: CheckResult, chain: CheckResult)
    ensures secureBoot == SecureBootRow(t, tpmPresent) && chain == ChainRow(t, tpmPresent)
  {
    var early, other := EarlyBinding(t, tpmPresent, SECURE_BOOT_ROW), EarlyBinding(t, tpmPresent, CHAIN_ROW);
    EarlyForBoth(t, tpmPresent, SECURE_BOOT_ROW, CHAIN_ROW);
    if |early| > 0 {
      return early[0], other[0];
    }
    var b := t.bindings;
    var pcrs := PcrMaskToStr(Judged(b), ROW_SIZE);
    secureBoot := EmitBinding(SECURE_BOOT_ROW, SecureBootFinding(b, pcrs), Judged(b), NoHash(b));
    chain := EmitBinding(CHAIN_ROW, ChainFinding(b, pcrs), Judged(b), NoHash(b));
  }

  /** The rows of `bythos_check_luks` for a list of volumes. */
  method CheckVolumes(volumes: seq<Volume>, tpmPresent: bool) returns (rows: seq<CheckResult>)
    ensures var t := TallyOf(KindsOf(volumes));
            rows == [VersionRow(t), IntegrityRow(t), TpmRow(t, tpmPresent),
                     SecureBootRow(t, tpmPresent), ChainRow(t, tpmPresent)]
  {
    var t := FoldVolumes(volumes);
    var secureBoot, chain := EmitBindings(t, tpmPresent);
    return [VersionRow(t), IntegrityRow(t), TpmRow(t, tpmPresent), secureBoot, chain];
  }

  // What the rows mean.

  lemma {:induction false} KindsAt(volumes: seq<Volume>, i: nat)
    requires i < |volumes|
    ensures KindsOf(volumes)[i] == KindOf(volumes[i])
  {
    if i < |volumes| - 1 {
      KindsAt(volumes[..|volumes| - 1], i);
    }
  }

  ghost predicate HoldsToken(v: Volume) { v.Dumped? && Contains(v.text, TOKEN) }

  lemma TpmKinds(kinds: seq<Kind>)
    ensures TpmRow(TallyOf(kinds), true).state == OK <==> |kinds| > 0 && forall k <- kinds :: HasToken(k)
  {
    TokenCount(kinds);
    CountersPartition(kinds);
    CountExtremes(kinds, HasToken);
    TpmState(TallyOf(kinds), Count(kinds, HasToken));
  }

  lemma {:induction false} TpmState(t: Tally, tokens: nat)
    requires t.bindings.anyToken == (tokens > 0) && t.found == t.dumpOk + t.dumpFailed
    requires tokens + t.bindings.clevis + t.bindings.noToken == t.dumpOk
    ensures TpmRow(t, true).state == OK <==> tokens > 0 && tokens == t.found
  {
  }

  /** With a TPM present, TPM binding is OK exactly when there is a volume and every volume was
      dumped and has a systemd-tpm2 token. */
  lemma TpmBindingOk(volumes: seq<Volume>)
    ensures TpmRow(TallyOf(KindsOf(volumes)), true).state == OK
            <==> |volumes| > 0 && forall v <- volumes :: HoldsToken(v)
  {
    var kinds := KindsOf(volumes);
    TpmKinds(kinds);
    forall i | 0 <= i < |volumes|
      ensures HasToken(kinds[i]) <==> HoldsToken(volumes[i])
    {
      TokenAt(volumes, i, kinds[i]);
    }
    AllOfKind(volumes, kinds, HasToken, HoldsToken);
  }

  lemma TokenAt(volumes: seq<Volume>, i: nat, k: Kind)
    requires i < |volumes| && k == KindsOf(volumes)[i]
    ensures HasToken(k) <==> HoldsToken(volumes[i])
  {
    KindsAt(volumes, i);
    TokenOfKind(volumes[i], k);
  }

  lemma TokenOfKind(v: Volume, k: Kind)
    requires k == KindOf(v)
    ensures HasToken(k) <==> HoldsToken(v)
  {
  }

  lemma TokenCount(kinds: seq<Kind>)
    ensures Count(kinds, HasToken) + Count(kinds, IsClevis) + Count(kinds, IsTokenless) + Count(kinds, IsUnread)
            == |kinds|
  {
    CountersPartition(kinds);
    CountSum(kinds, IsHash, IsSigned, HasPolicy);
    CountSum(kinds, HasPolicy, IsUnparsed, HasToken);
  }

  /** What holds of every volume holds of every kind. */
  lemma {:induction false} AllOfKind(volumes: seq<Volume>, kinds: seq<Kind>, p: Kind -> bool, q: Volume -> bool)
    requires |kinds| == |volumes| && forall i: nat :: i < |volumes| ==> (p(kinds[i]) <==> q(volumes[i]))
    ensures (forall k <- kinds :: p(k)) <==> forall v <- volumes :: q(v)
  {
    if forall k <- kinds :: p(k) {
      forall v | v in volumes
        ensures q(v)
      {
        var i: nat :| i < |volumes| && volumes[i] == v;
        assert kinds[i] in kinds;
      }
    }
    if forall v <- volumes :: q(v) {
      forall k | k in kinds
        ensures p(k)
      {
        var i: nat :| i < |kinds| && kinds[i] == k;
        assert volumes[i] in volumes;
      }
    }
  }

  /** With a TPM, the row warns exactly when something was dumped and either no volume has a token of
      any kind, or some volume has a systemd-tpm2 token and some has none. */
  lemma {:induction false} TpmWarns(kinds: seq<Kind>)
    ensures TpmRow(TallyOf(kinds), true).state == WARN
            <==> (exists k <- kinds :: IsRead(k))
                 && if exists k <- kinds :: HasToken(k) then exists k <- kinds :: !HasToken(k)
                    else forall k <- kinds :: !IsClevis(k)
    ensures TpmRow(TallyOf(kinds), true).state != FAIL && TpmRow(TallyOf(kinds), false).state == SKIP
  {
    TokenCount(kinds);
    CountersPartition(kinds);
    CountExtremes(kinds, HasToken);
    CountExtremes(kinds, IsClevis);
    CountExtremes(kinds, IsRead);
    TpmWarnState(TallyOf(kinds), Count(kinds, HasToken));
  }

  lemma {:induction false} TpmWarnState(t: Tally, tokens: nat)
    requires t.bindings.anyToken == (tokens > 0) && t.found == t.dumpOk + t.dumpFailed
    requires tokens + t.bindings.clevis + t.bindings.noToken == t.dumpOk
    ensures TpmRow(t, true).state == WARN
            <==> t.dumpOk > 0 && if tokens > 0 then tokens < t.found else t.bindings.clevis == 0
    ensures TpmRow(t, true).state != FAIL && TpmRow(t, false).state == SKIP
  {
    if t.found > 0 && t.dumpOk > 0 && t.bindings.anyToken {
      assert t.dumpFailed > 0 || t.bindings.noToken > 0 || t.bindings.clevis > 0 <==> tokens < t.found;
    }
  }

  /** The version is OK exactly when there is a volume and every one was dumped as LUKS2. */
  lemma VersionOk(kinds: seq<Kind>)
    ensures VersionRow(TallyOf(kinds)).state == OK <==> |kinds| > 0 && forall k <- kinds :: IsLuks2(k)
  {
    CountersPartition(kinds);
    CountExtremes(kinds, IsLuks2);
  }

  /** Integrity is OK exactly when there is a volume and every one was dumped with it. */
  lemma IntegrityOk(kinds: seq<Kind>)
    ensures IntegrityRow(TallyOf(kinds)).state == OK <==> |kinds| > 0 && forall k <- kinds :: HasIntegrity(k)
  {
    CountersPartition(kinds);
    CountExtremes(kinds, HasIntegrity);
    CountExtremes(kinds, IsRead);
  }

  lemma {:induction false} HashMasksValid(kinds: seq<Kind>)
    requires forall k <- kinds :: ValidKind(k)
    ensures forall m <- MasksOf(kinds, IsHash) :: m <= ALL && m != {}
  {
    if |kinds| > 0 {
      assert forall k <- kinds[..|kinds| - 1] :: k in kinds;
      HashMasksValid(kinds[..|kinds| - 1]);
      assert kinds[|kinds| - 1] in kinds;
    }
  }

  /** Some hash policy leaves a bit unbound, so that there is one to judge. */
  ghost predicate JudgesHash(kinds: seq<Kind>) {
    exists m <- MasksOf(kinds, IsHash) :: m != ALL
  }

  lemma NoHashMeans(kinds: seq<Kind>)
    requires forall k <- kinds :: ValidKind(k)
    ensures NoHash(BindingsOf(kinds)) <==> !JudgesHash(kinds)
    ensures JudgesHash(kinds) ==> |MasksOf(kinds, IsHash)| > 0
  {
    var masks := MasksOf(kinds, IsHash);
    HashMasksValid(kinds);
    WeakestIsFirst(masks);
    if exists m <- masks :: m != ALL {
      var i: nat :| FirstLeast(masks, i) && WeakestOf(masks) == Weakest(masks[i], |masks[i]|)
                    && WeakestOf(masks).mask != ALL;
      assert masks[i] in masks;
    }
  }

  /** When a policy is judged at all. */
  lemma {:induction false} NotEarly(kinds: seq<Kind>, row: string)
    requires forall k <- kinds :: ValidKind(k)
    ensures EarlyBinding(TallyOf(kinds), true, row) == []
            <==> (forall k <- kinds :: IsRead(k)) && (JudgesHash(kinds) || exists k <- kinds :: IsSigned(k))
    ensures |EarlyBinding(TallyOf(kinds), true, row)| > 0 ==> EarlyBinding(TallyOf(kinds), true, row)[0].state != OK
  {
    NoHashMeans(kinds);
    BindingCounters(kinds);
  }

  /** When Secure Boot binding is OK: everything was dumped, and either the weakest hash policy
      binds PCR 7 and every token was parsed, or only signed policies are judged. */
  lemma SecureBootState(kinds: seq<Kind>)
    requires forall k <- kinds :: ValidKind(k)
    ensures SecureBootRow(TallyOf(kinds), true).state == OK
            <==> (forall k <- kinds :: IsRead(k))
                 && if JudgesHash(kinds)
                    then 7 in BindingsOf(kinds).weakest.mask && forall k <- kinds :: !IsUnparsed(k)
                    else exists k <- kinds :: IsSigned(k)
  {
    NotEarly(kinds, SECURE_BOOT_ROW);
    NoHashMeans(kinds);
    BindingCounters(kinds);
    var b := BindingsOf(kinds);
    SecureBootFindingOk(b, PcrText(Judged(b), ROW_SIZE));
    SecureBootStateOf(TallyOf(kinds), b);
  }

  lemma {:induction false} SecureBootFindingOk(b: Bindings, pcrs: string)
    ensures SecureBootFinding(b, pcrs).state == OK <==> NoHash(b) || (7 in b.weakest.mask && b.unparsed == 0)
  {
  }

  lemma {:induction false} SecureBootStateOf(t: Tally, b: Bindings)
    requires b == t.bindings
    ensures var early := EarlyBinding(t, true, SECURE_BOOT_ROW);
            SecureBootRow(t, true).state
            == if |early| > 0 then early[0].state else SecureBootFinding(b, PcrText(Judged(b), ROW_SIZE)).state
  {
  }

  /** When the boot chain is OK: the weakest hash policy binds PCRs 4 and 9 and every token was
      parsed, or only signed policies are judged and the weakest binds PCR 11. */
  lemma ChainState(kinds: seq<Kind>)
    requires forall k <- kinds :: ValidKind(k)
    ensures ChainRow(TallyOf(kinds), true).state == OK
            <==> (forall k <- kinds :: IsRead(k))
                 && if JudgesHash(kinds)
                    then 4 in BindingsOf(kinds).weakest.mask && 9 in BindingsOf(kinds).weakest.mask
                         && forall k <- kinds :: !IsUnparsed(k)
                    else (exists k <- kinds :: IsSigned(k)) && 11 in BindingsOf(kinds).signedWeakest.mask
  {
    NotEarly(kinds, CHAIN_ROW);
    NoHashMeans(kinds);
    BindingCounters(kinds);
    var b := BindingsOf(kinds);
    ChainFindingOk(b, PcrText(Judged(b), ROW_SIZE));
    ChainStateOf(TallyOf(kinds), b);
  }

  lemma {:induction false} ChainFindingOk(b: Bindings, pcrs: string)
    ensures ChainFinding(b, pcrs).state == OK
            <==> if NoHash(b) then 11 in b.signedWeakest.mask
                 else 4 in b.weakest.mask && 9 in b.weakest.mask && b.unparsed == 0
  {
  }

  lemma {:induction false} ChainStateOf(t: Tally, b: Bindings)
    requires b == t.bindings
    ensures var early := EarlyBinding(t, true, CHAIN_ROW);
            ChainRow(t, true).state
            == if |early| > 0 then early[0].state else ChainFinding(b, PcrText(Judged(b), ROW_SIZE)).state
  {
  }

  lemma BindingCounters(kinds: seq<Kind>)
    ensures var t := TallyOf(kinds);
            && (t.dumpFailed == 0 <==> forall k <- kinds :: IsRead(k))
            && (t.bindings.unparsed == 0 <==> forall k <- kinds :: !IsUnparsed(k))
            && (t.bindings.signedCount == 0 <==> forall k <- kinds :: !IsSigned(k))
            && (|MasksOf(kinds, IsHash)| > 0 || t.bindings.signedCount > 0 ==> t.bindings.anyToken)
            && (|kinds| == t.found && t.found == t.dumpOk + t.dumpFailed)
            && (t.bindings.anyToken ==> t.dumpOk > 0)
  {
    CountersPartition(kinds);
    CountExtremes(kinds, IsUnread);
    CountExtremes(kinds, IsUnparsed);
    CountExtremes(kinds, IsSigned);
    TokenCount(kinds);
    CountSum(kinds, IsHash, IsSigned, HasPolicy);
    CountSum(kinds, HasPolicy, IsUnparsed, HasToken);
    assert forall k :: IsRead(k) <==> !IsUnread(k);
  }

  // Details are whole.

  lemma PcrTextLength(mask: Mask)
    ensures |PcrText(mask, ROW_SIZE)| <= 60
  {
    RenderedBound(mask, StopAt(mask, ROW_SIZE, 0), 0);
  }

  /** The printer adds at most three characters to a text of at most 57. */
  lemma {:induction false} RenderedBound(mask: Mask, k: nat, i: nat)
    requires i <= BITS && |Rendered(mask, i)| <= 60 && k == StopAt(mask, ROW_SIZE, i)
    ensures |Rendered(mask, k)| <= 60
    decreases BITS - i
  {
    if i < BITS && |Rendered(mask, i)| + 6 < ROW_SIZE {
      RenderedNext(mask, i);
      RenderedBound(mask, k, i + 1);
    }
  }

  lemma RenderedNext(mask: Mask, i: nat)
    requires i < BITS
    ensures |Rendered(mask, i + 1)|
            == |Rendered(mask, i)| + if i !in mask then 0 else (if |Rendered(mask, i)| > 0 then 1 else 0) + |Dec(i)|
    ensures |Dec(i)| == if i < 10 then 1 else 2
  {
    var parts := NumbersBelow(mask, i);
    if i >= 10 {
      assert |Dec(i / 10)| == 1;
    }
    if i in mask {
      JoinSnoc(parts, " ", Dec(i));
      PartsNonempty(mask, i);
    }
  }

  lemma {:induction false} PartsNonempty(mask: Mask, k: nat)
    ensures |NumbersBelow(mask, k)| == 0 <==> |Rendered(mask, k)| == 0
  {
    if k > 0 {
      PartsNonempty(mask, k - 1);
      if k - 1 in mask {
        JoinSnoc(NumbersBelow(mask, k - 1), " ", Dec(k - 1));
      }
    }
  }

  /** The detail of the Secure Boot row always names the consequence in full. */
  lemma SecureBootDetail(t: Tally, b: Bindings, pcrs: string, r: CheckResult)
    requires b == t.bindings && EarlyBinding(t, true, SECURE_BOOT_ROW) == [] && b.unparsed < SIZE_LIMIT
    requires pcrs == PcrText(Judged(b), ROW_SIZE) && r == SecureBootRow(t, true)
    ensures r.detail == SecureBootFinding(b, pcrs).text + "; " + Consequence(Judged(b), NoHash(b))
  {
    PcrTextLength(Judged(b));
    SizeDecLength(b.unparsed);
    SecureBootLength(b, pcrs);
    ConsequenceWhole(SecureBootFinding(b, pcrs).text, DETAIL_MAX, Judged(b), NoHash(b));
    ConsequenceLength(Judged(b), NoHash(b));
  }

  lemma SecureBootLength(b: Bindings, pcrs: string)
    requires |pcrs| <= 60 && |Dec(b.unparsed)| <= 20
    ensures |SecureBootFinding(b, pcrs).text| <= if NoHash(b) then 90 else 119
  {
  }

  lemma ChainLength(b: Bindings, pcrs: string)
    requires |pcrs| <= 60 && |Dec(b.unparsed)| <= 20
    ensures |ChainFinding(b, pcrs).text|
            <= if NoHash(b) && 11 in b.signedWeakest.mask then 36 else if NoHash(b) then 104 else 119
  {
  }

  /** The detail of the boot chain row is never cut either. It names the consequence in full unless
      a signed policy without PCR 11 makes the text too long; then it names the general one. */
  lemma ChainDetail(t: Tally, b: Bindings, pcrs: string, r: CheckResult)
    requires b == t.bindings && EarlyBinding(t, true, CHAIN_ROW) == [] && b.unparsed < SIZE_LIMIT
    requires pcrs == PcrText(Judged(b), ROW_SIZE) && r == ChainRow(t, true)
    ensures var text, clause := ChainFinding(b, pcrs).text, Consequence(Judged(b), NoHash(b));
            && (r.detail == text + "; " + clause <==> |text| + 2 + |clause| < DETAIL_MAX)
            && (!NoHash(b) || 11 in b.signedWeakest.mask ==> r.detail == text + "; " + clause)
            && (r.detail != text + "; " + clause ==>
                  r.detail == text + "; " + ("any change to a bound PCR breaks unlock" + Qualifier(NoHash(b))))
  {
    PcrTextLength(Judged(b));
    SizeDecLength(b.unparsed);
    ChainLength(b, pcrs);
    ConsequenceLength(Judged(b), NoHash(b));
    DetailStored(CHAIN_ROW, ChainFinding(b, pcrs), Judged(b), NoHash(b));
    assert r == BindingRow(CHAIN_ROW, ChainFinding(b, pcrs), Judged(b), NoHash(b));
    Distinct(ChainFinding(b, pcrs).text, Consequence(Judged(b), NoHash(b)), NoHash(b));
  }

  /** The general clause is shorter than any consequence that does not fit. */
  lemma Distinct(text: string, clause: string, signedPolicy: bool)
    requires |text| <= 119
    ensures |text| + 2 + |clause| >= DETAIL_MAX ==>
              text + "; " + clause
              != text + "; " + ("any change to a bound PCR breaks unlock" + Qualifier(signedPolicy))
  {
    var general := "any change to a bound PCR breaks unlock" + Qualifier(signedPolicy);
    if |text| + 2 + |clause| >= DETAIL_MAX {
      assert |text + "; " + clause| > |text + "; " + general|;
    }
  }

  lemma DetailStored(row: string, f: Finding, mask: Mask, signedPolicy: bool)
    requires |f.text| <= 119 && (signedPolicy ==> |f.text| <= 104)
    ensures var clause := Consequence(mask, signedPolicy);
            BindingRow(row, f, mask, signedPolicy).detail
            == if |f.text| + 2 + |clause| < DETAIL_MAX then f.text + "; " + clause
               else f.text + "; " + ("any change to a bound PCR breaks unlock" + Qualifier(signedPolicy))
  {
    ConsequenceLength(mask, signedPolicy);
  }

  // The one row whose consequence can be too long.

  lemma {:induction false} RenderedGrows(mask: Mask, j: nat, k: nat)
    requires j <= k <= BITS
    ensures |Rendered(mask, j)| <= |Rendered(mask, k)|
  {
    if j < k {
      RenderedNext(mask, k - 1);
      RenderedGrows(mask, j, k - 1);
    }
  }

  lemma {:induction false} StopsAt(mask: Mask, i: nat, k: nat)
    requires i <= k < BITS && |Rendered(mask, k)| + 6 >= ROW_SIZE
    requires i < k ==> |Rendered(mask, k - 1)| + 6 < ROW_SIZE
    ensures StopAt(mask, ROW_SIZE, i) == k
    decreases k - i
  {
    if i < k {
      RenderedGrows(mask, i, k - 1);
      StopsAt(mask, i + 1, k);
    }
  }

  lemma {:induction false} TwoDigitRun(mask: Mask, a: nat, b: nat)
    requires 10 <= a <= b <= BITS && |Rendered(mask, a)| > 0
    requires forall i :: a <= i < b ==> i in mask
    ensures |Rendered(mask, b)| == |Rendered(mask, a)| + 3 * (b - a)
  {
    if a < b {
      TwoDigitRun(mask, a, b - 1);
      RenderedNext(mask, b - 1);
    }
  }

  /** Every PCR but 6, 8 and 11. */
  predicate IsWide(mask: Mask) {
    forall i :: 0 <= i < BITS ==> (i in mask <==> i != 6 && i != 8 && i != 11)
  }

  lemma WideTen(mask: Mask)
    requires IsWide(mask)
    ensures |Rendered(mask, 10)| == 15
  {
    assert |Rendered(mask, 0)| == 0;
    RenderedNext(mask, 0);
    RenderedNext(mask, 1);
    RenderedNext(mask, 2);
    RenderedNext(mask, 3);
    RenderedNext(mask, 4);
    assert |Rendered(mask, 5)| == 9;
    RenderedNext(mask, 5);
    RenderedNext(mask, 6);
    RenderedNext(mask, 7);
    RenderedNext(mask, 8);
    RenderedNext(mask, 9);
  }

  lemma WideText(mask: Mask)
    requires IsWide(mask)
    ensures |PcrText(mask, ROW_SIZE)| == 60
  {
    WideTen(mask);
    RenderedNext(mask, 10);
    RenderedNext(mask, 11);
    TwoDigitRun(mask, 12, 25);
    TwoDigitRun(mask, 12, 26);
    StopsAt(mask, 0, 26);
  }

  lemma WideUpdates(mask: Mask)
    requires IsWide(mask)
    ensures UpdatesIn(mask, 5) == ["firmware", "bootloader", "Secure Boot key", "kernel/initramfs"]
    ensures KnownIn(mask, 5) == {0, 4, 7, 9}
  {
    assert UpdatesIn(mask, 1) == ["firmware"] && KnownIn(mask, 1) == {0};
    assert UpdatesIn(mask, 2) == ["firmware", "bootloader"] && KnownIn(mask, 2) == {0, 4};
    assert UpdatesIn(mask, 3) == ["firmware", "bootloader", "Secure Boot key"] && KnownIn(mask, 3) == {0, 4, 7};
    assert UpdatesIn(mask, 4) == ["firmware", "bootloader", "Secure Boot key", "kernel/initramfs"];
    assert KnownIn(mask, 4) == {0, 4, 7, 9};
  }

  lemma WideConsequence(mask: Mask)
    requires IsWide(mask)
    ensures |Consequence(mask, true)| == 153
  {
    WideUpdates(mask);
    var names := UpdatesIn(mask, 5);
    assert |ListText(names, 1)| == 8;
    assert |ListText(names, 2)| == 20;
    assert |ListText(names, 3)| == 37;
    assert |ListText(names, 4)| == 58;
    assert 1 in mask - KnownIn(mask, 5);
  }

  /** What a single volume with a signed policy leaves in the counters. */
  lemma OneSigned(d: SignedDump, t: Tally, row: string)
    requires d.Valid() && IndexOf(d.Text(), TOKEN, 0) == |d.head| && |d.mask| < BITS
    requires t == TallyOf(KindsOf([Dumped(d.Text())]))
    ensures EarlyBinding(t, true, row) == [] && NoHash(t.bindings) && t.bindings.unparsed == 0
    ensures t.bindings.signedWeakest.mask == d.mask
  {
    var v := Dumped(d.Text());
    var k := KindOf(v);
    SignedScanned(d);
    assert KindsOf([v]) == [] + [k] by {
      assert [v][..0] == [];
    }
    BindingCounts([], k);
    CountSnoc([], k, IsRead);
    CountSnoc([], k, IsUnread);
  }

  /** A volume under a signed policy over all PCRs but 6, 8 and 11 gets the general clause in its
      boot chain row. The numbers above 23 matter: see `PhysicalPolicyIsSpecific`. */
  lemma WidePolicyIsGeneral(d: SignedDump)
    requires d.Valid() && IndexOf(d.Text(), TOKEN, 0) == |d.head| && IsWide(d.mask)
    ensures ChainRow(TallyOf(KindsOf([Dumped(d.Text())])), true).detail
            == "signed policy; PCRs: " + PcrText(d.mask, ROW_SIZE) + ", PCR 11 (UKI) absent"
               + "; " + ("any change to a bound PCR breaks unlock" + " without a fresh signed policy")
  {
    var t := TallyOf(KindsOf([Dumped(d.Text())]));
    WideSize(d.mask);
    OneSigned(d, t, CHAIN_ROW);
    WideText(d.mask);
    WideConsequence(d.mask);
    ChainDetail(t, t.bindings, PcrText(d.mask, ROW_SIZE), ChainRow(t, true));
  }

  lemma WideSize(mask: Mask)
    requires IsWide(mask) && forall i <- mask :: i < BITS
    ensures |mask| < BITS
  {
    assert 6 in ALL && 6 !in mask;
    FullMask(mask);
  }

  /** Such a volume exists. */
  lemma WideVolume() returns (d: SignedDump)
    ensures d.Valid() && IndexOf(d.Text(), TOKEN, 0) == |d.head| && IsWide(d.mask)
  {
    var mask := ALL - {6, 8, 11};
    var title, line := "tpm2-pubkey-", PcrLine("tpm2-pubkey-", " ", Rendered(mask, BITS));
    d := SignedDump("", [TOKEN, line], 1, title, " ", mask);
    NumbersText(mask, BITS);
    WideFull(mask);
    TitleIsTitle();
    PlainToken();
    assert d.lines[1..] == [line] && [line][1..] == [];
    assert LinesText([line]) == line + ("\n" + "");
    assert LinesText(d.lines) == TOKEN + ("\n" + LinesText([line]));
    assert 0 in mask;
    assert OccursAt(d.Text(), TOKEN, 0);
    IndexOfUnique(d.Text(), TOKEN, 0, 0);
  }

  lemma WideFull(mask: Mask)
    requires IsWide(mask)
    ensures |Rendered(mask, BITS)| == 78
  {
    WideTen(mask);
    RenderedNext(mask, 10);
    RenderedNext(mask, 11);
    TwoDigitRun(mask, 12, BITS);
  }

  /** One different character rules a word out. */
  lemma NotAt(line: string, i: nat, word: string, k: nat)
    requires k < |word| && i + k < |line| && line[i + k] != word[k]
    ensures !At(line, i, word)
  {
    if i + |word| <= |line| {
      assert line[i..i + |word|][k] == line[i + k];
    }
  }

  lemma TitleIsTitle()
    ensures IsTitle("tpm2-pubkey-") && Mentions("tpm2-pubkey-", "pubkey")
  {
    var title := "tpm2-pubkey-";
    forall i | 0 <= i < |title|
      ensures !At(title + "pcrs", i, "pcrs")
    {
      NotAt(title + "pcrs", i, "pcrs", if i == 1 || i == 5 then 1 else 0);
    }
    assert At(title, 5, "pubkey");
  }

  lemma PlainToken()
    ensures Unbroken(TOKEN) && !Mentions(TOKEN, "pcrs")
  {
    forall i | 0 <= i < |TOKEN|
      ensures !At(TOKEN, i, "pcrs")
    {
      if i + 1 < |TOKEN| {
        NotAt(TOKEN, i, "pcrs", if TOKEN[i] == 'p' then 1 else 0);
      }
    }
  }

  // The PCRs of a TPM.

  const TPM_PCRS: nat := 24

  /** The most that the bits below `k` take, when bit 11 is not among them. */
  function RenderedMost(k: nat): (n: nat) {
    if k == 0 then 0
    else if k <= 10 then 2 * k - 1
    else if k <= 11 then 22
    else 22 + 3 * ((if k < TPM_PCRS then k else TPM_PCRS) - 12)
  }

  lemma {:induction false} PhysicalText(mask: Mask, k: nat)
    requires k <= BITS && 11 !in mask && forall i <- mask :: i < TPM_PCRS
    ensures |Rendered(mask, k)| <= RenderedMost(k)
  {
    if k > 0 {
      PhysicalText(mask, k - 1);
      RenderedNext(mask, k - 1);
    } else {
      assert |Rendered(mask, 0)| == 0;
    }
  }

  lemma {:induction false} UpdatesWithoutUki(mask: Mask, n: nat)
    requires n <= |UPDATE_KINDS| && 11 !in mask
    ensures |UpdatesIn(mask, n)| <= 4
  {
    if n > 0 {
      UpdatesWithoutUki(mask, n - 1);
    }
  }

  /** A policy over PCRs that a TPM has gets its specific consequence, in every boot chain row. */
  lemma PhysicalPolicyIsSpecific(t: Tally, b: Bindings, pcrs: string, r: CheckResult)
    requires b == t.bindings && EarlyBinding(t, true, CHAIN_ROW) == [] && b.unparsed < SIZE_LIMIT
    requires pcrs == PcrText(Judged(b), ROW_SIZE) && r == ChainRow(t, true)
    requires forall i <- Judged(b) :: i < TPM_PCRS
    ensures r.detail == ChainFinding(b, pcrs).text + "; " + Consequence(Judged(b), NoHash(b))
  {
    ChainDetail(t, b, pcrs, r);
    if NoHash(b) && 11 !in b.signedWeakest.mask {
      PhysicalText(Judged(b), StopAt(Judged(b), ROW_SIZE, 0));
      ConsequenceWithoutUki(Judged(b));
    }
  }

  lemma ConsequenceWithoutUki(mask: Mask)
    requires 11 !in mask
    ensures |Consequence(mask, true)| <= 153
  {
    var names := UpdatesIn(mask, 5);
    assert names == UpdatesIn(mask, 4);
    UpdatesLength(mask, 4);
    UpdatesWithoutUki(mask, 5);
    ListLength(names, |names|);
    assert names[..|names|] == names;
    ClauseLength(ListText(names, |names|), Qualifier(true), mask - KnownIn(mask, 5) != {});
  }

  // What the rows say of the dumps themselves.

  /** The volumes whose dumps have this version digit. */
  ghost function WithVersion(volumes: seq<Volume>, c: char): (places: set<nat>) {
    set i: nat | i < |volumes| && volumes[i].Dumped? && HasVersion(volumes[i].text, c)
  }

  lemma {:induction false} VersionAt(volumes: seq<Volume>, i: nat)
    requires i < |volumes|
    ensures var k, v := KindsOf(volumes)[i], volumes[i];
            && (IsLuks1(k) <==> v.Dumped? && HasVersion(v.text, '1'))
            && (IsLuks2(k) <==> v.Dumped? && HasVersion(v.text, '2'))
            && (IsRead(k) <==> v.Dumped?)
  {
    KindsAt(volumes, i);
    if volumes[i].Dumped? {
      VersionExact(volumes[i].text);
    }
  }

  lemma {:induction false} VersionPlaces(volumes: seq<Volume>)
    ensures Places(KindsOf(volumes), IsLuks1) == WithVersion(volumes, '1')
    ensures Places(KindsOf(volumes), IsLuks2) == WithVersion(volumes, '2')
  {
    forall i: nat | i < |volumes|
      ensures IsLuks1(KindsOf(volumes)[i]) <==> volumes[i].Dumped? && HasVersion(volumes[i].text, '1')
      ensures IsLuks2(KindsOf(volumes)[i]) <==> volumes[i].Dumped? && HasVersion(volumes[i].text, '2')
    {
      VersionAt(volumes, i);
    }
  }

  /** The version row of some volumes: OK with their number exactly when there are some and each was
      dumped with `2` behind its version key; a warning with the number of LUKS1 volumes exactly when
      each was dumped as one or the other and some as LUKS1. */
  lemma {:induction false} VersionRowExact(volumes: seq<Volume>, row: CheckResult, old1: set<nat>, new2: set<nat>)
    requires row == VersionRow(TallyOf(KindsOf(volumes))) && |volumes| < SIZE_LIMIT
    requires old1 == WithVersion(volumes, '1') && new2 == WithVersion(volumes, '2')
    ensures row.state == OK <==> |volumes| > 0 && |new2| == |volumes|
    ensures row.state == OK ==> SaysAll(row.detail, |volumes|)
    ensures row.state == WARN <==> |old1| > 0 && |old1| + |new2| == |volumes|
    ensures row.state == WARN ==> SaysOld(row.detail, |old1|)
  {
    var kinds := KindsOf(volumes);
    CountersPartition(kinds);
    CountIsSize(kinds, IsLuks1);
    CountIsSize(kinds, IsLuks2);
    VersionPlaces(volumes);
    VersionWords(TallyOf(kinds), row);
  }

  ghost predicate SaysAll(detail: string, n: nat) {
    exists d :: Number(d, n) && detail == "all " + d + " " + (if n == 1 then "volume" else "volumes") + " LUKS2"
  }

  ghost predicate SaysOld(detail: string, n: nat) {
    exists d ::
      && Number(d, n)
      && detail == d + " LUKS1 " + (if n == 1 then "volume" else "volumes") + "; legacy format, no token support"
  }

  lemma {:induction false} VersionWords(t: Tally, row: CheckResult)
    requires row == VersionRow(t) && t.found < SIZE_LIMIT && t.found == t.dumpOk + t.dumpFailed
    requires t.dumpOk == t.versions.luks1 + t.versions.luks2 + t.versions.unknown
    ensures row.state == OK <==> t.found > 0 && t.versions.luks2 == t.found
    ensures row.state == OK ==> SaysAll(row.detail, t.versions.luks2)
    ensures row.state == WARN <==> t.versions.luks1 > 0 && t.versions.luks1 + t.versions.luks2 == t.found
    ensures row.state == WARN ==> SaysOld(row.detail, t.versions.luks1)
  {
    NumberOfDec(t.versions.luks2);
    NumberOfDec(t.versions.luks1);
    SizeDecLength(t.versions.luks2);
    SizeDecLength(t.versions.luks1);
  }

  /** The version row is OK exactly when there is a volume and every one was dumped with `2` behind
      its version key. */
  lemma {:induction false} VersionOkExact(volumes: seq<Volume>)
    ensures VersionRow(TallyOf(KindsOf(volumes))).state == OK
            <==> |volumes| > 0 && forall v <- volumes :: v.Dumped? && HasVersion(v.text, '2')
  {
    var kinds := KindsOf(volumes);
    VersionOk(kinds);
    forall i: nat | i < |volumes|
      ensures IsLuks2(kinds[i]) <==> volumes[i].Dumped? && HasVersion(volumes[i].text, '2')
    {
      VersionAt(volumes, i);
    }
    AllOfKind(volumes, kinds, IsLuks2, (v: Volume) => v.Dumped? && HasVersion(v.text, '2'));
  }

  /** The integrity row is OK exactly when there is a volume and every dump mentions it. */
  lemma {:induction false} IntegrityOkExact(volumes: seq<Volume>)
    ensures IntegrityRow(TallyOf(KindsOf(volumes))).state == OK
            <==> |volumes| > 0 && forall v <- volumes :: v.Dumped? && Contains(v.text, "integrity:")
  {
    var kinds := KindsOf(volumes);
    IntegrityOk(kinds);
    forall i: nat | i < |volumes|
      ensures HasIntegrity(kinds[i]) <==> volumes[i].Dumped? && Contains(volumes[i].text, "integrity:")
    {
      KindsAt(volumes, i);
    }
    AllOfKind(volumes, kinds, HasIntegrity, (v: Volume) => v.Dumped? && Contains(v.text, "integrity:"));
  }

  // Details with numbers, and the words of the findings.

  ghost predicate SaysEnabled(detail: string, n: nat, total: nat) {
    if n == total then
      exists d :: Number(d, n) && detail == "enabled on all " + d + " " + (if n == 1 then "volume" else "volumes")
    else
      exists d, e ::
        && Number(d, n) && Number(e, total)
        && detail == "enabled on " + d + " of " + e + " " + (if total == 1 then "volume" else "volumes")
  }

  /** The integrity row counts the volumes with integrity and, when some are without it, all of them. */
  lemma {:induction false} IntegrityWords(kinds: seq<Kind>, row: CheckResult)
    requires row == IntegrityRow(TallyOf(kinds)) && |kinds| < SIZE_LIMIT
    requires row.state == OK || row.state == WARN
    ensures (forall k <- kinds :: IsRead(k)) && SaysEnabled(row.detail, |Places(kinds, HasIntegrity)|, |kinds|)
    ensures 0 < |Places(kinds, HasIntegrity)| <= |kinds|
  {
    CountersPartition(kinds);
    CountExtremes(kinds, IsUnread);
    CountIsSize(kinds, HasIntegrity);
    EnabledWords(TallyOf(kinds), row);
  }

  lemma {:induction false} EnabledWords(t: Tally, row: CheckResult)
    requires row == IntegrityRow(t) && t.found < SIZE_LIMIT && t.found == t.dumpOk + t.dumpFailed
    requires t.versions.integrity <= t.found && (row.state == OK || row.state == WARN)
    ensures t.dumpFailed == 0 && t.versions.integrity > 0
    ensures SaysEnabled(row.detail, t.versions.integrity, t.found)
  {
    NumberOfDec(t.versions.integrity);
    NumberOfDec(t.found);
    SizeDecLength(t.versions.integrity);
    SizeDecLength(t.found);
  }

  // What the rows say when they do not judge.

  ghost predicate SaysUnread(detail: string, failed: nat, total: nat, one: string, many: string) {
    exists d, e ::
      && Number(d, failed) && Number(e, total)
      && detail == d + " of " + e + " " + (if total == 1 then one else many) + " unreadable by cryptsetup"
  }

  ghost predicate SaysUnparseable(detail: string, n: nat) {
    exists d ::
      Number(d, n) && detail == d + " " + (if n == 1 then "volume" else "volumes") + " with unparseable version"
  }

  /** No volume is there, or none could be dumped. */
  ghost predicate NothingRead(kinds: seq<Kind>, row: CheckResult) {
    && row.state == SKIP
    && row.detail == (if kinds == [] then "LUKS volumes not present on this host" else "cryptsetup query failed")
    && (row.requiresRoot <==> kinds != [])
  }

  /** Nothing was read, or some volume could not be dumped. */
  ghost predicate NotAllRead(kinds: seq<Kind>, row: CheckResult, one: string, many: string) {
    if exists k <- kinds :: IsRead(k)
    then row.state == SKIP && SaysUnread(row.detail, |Places(kinds, IsUnread)|, |kinds|, one, many)
    else NothingRead(kinds, row)
  }

  lemma {:induction false} UnreadWords(t: Tally, one: string, many: string)
    requires t.dumpFailed < SIZE_LIMIT && t.found < SIZE_LIMIT && |one| <= 10 && |many| <= 10
    ensures SaysUnread(UnreadableText(t, one, many), t.dumpFailed, t.found, one, many)
    ensures |UnreadableText(t, one, many)| < DETAIL_MAX
  {
    NumberOfDec(t.dumpFailed);
    NumberOfDec(t.found);
    SizeDecLength(t.dumpFailed);
    SizeDecLength(t.found);
  }

  /** The counters, by the volumes that they count. */
  lemma {:induction false} ReadCounts(kinds: seq<Kind>, t: Tally)
    requires t == TallyOf(kinds)
    ensures t.found == |kinds| && t.dumpOk + t.dumpFailed == |kinds|
    ensures t.dumpOk == 0 <==> forall k <- kinds :: !IsRead(k)
    ensures t.dumpFailed == |Places(kinds, IsUnread)|
    ensures t.dumpFailed == 0 <==> forall k <- kinds :: IsRead(k)
  {
    CountersPartition(kinds);
    CountExtremes(kinds, IsRead);
    CountIsSize(kinds, IsUnread);
  }

  /** The version row, when it is skipped. */
  lemma {:induction false} VersionSkips(kinds: seq<Kind>, row: CheckResult)
    requires row == VersionRow(TallyOf(kinds)) && |kinds| < SIZE_LIMIT
    ensures kinds == [] || (exists k <- kinds :: !IsRead(k)) ==> NotAllRead(kinds, row, "volume", "volumes")
    ensures kinds != [] && (forall k <- kinds :: IsRead(k)) && (exists k <- kinds :: IsOtherVersion(k)) ==>
              row.state == SKIP && SaysUnparseable(row.detail, |Places(kinds, IsOtherVersion)|)
  {
    var t := TallyOf(kinds);
    ReadCounts(kinds, t);
    UnreadWords(t, "volume", "volumes");
    CountExtremes(kinds, IsOtherVersion);
    CountIsSize(kinds, IsOtherVersion);
    NumberOfDec(t.versions.unknown);
    SizeDecLength(t.versions.unknown);
  }

  /** The integrity row, when it is skipped. */
  lemma {:induction false} IntegritySkips(kinds: seq<Kind>, row: CheckResult)
    requires row == IntegrityRow(TallyOf(kinds)) && |kinds| < SIZE_LIMIT
    ensures kinds == [] || (exists k <- kinds :: !IsRead(k)) ==> NotAllRead(kinds, row, "volume", "volumes")
    ensures kinds != [] && (forall k <- kinds :: IsRead(k) && !HasIntegrity(k)) ==>
              row.state == SKIP && row.detail == "dm-integrity not configured"
  {
    var t := TallyOf(kinds);
    ReadCounts(kinds, t);
    UnreadWords(t, "volume", "volumes");
    CountExtremes(kinds, HasIntegrity);
  }

  ghost predicate SaysFound(detail: string, n: nat) {
    exists d :: Number(d, n) && detail == "TPM2 token on " + d + " " + if n == 1 then "device" else "devices"
  }

  ghost predicate SaysFoundBut(detail: string, failed: nat, total: nat) {
    exists d, e ::
      && Number(d, failed) && Number(e, total)
      && detail == "TPM2 token found, but " + d + " of " + e + " " + (if total == 1 then "device" else "devices")
                   + " unreadable"
  }

  lemma {:induction false} FoundWords(t: Tally)
    requires t.dumpFailed < SIZE_LIMIT && t.found < SIZE_LIMIT && t.bindings.anyToken && t.found > 0 && t.dumpOk > 0
    ensures t.dumpFailed > 0 ==> SaysFoundBut(TpmRow(t, true).detail, t.dumpFailed, t.found)
    ensures TpmRow(t, true).state == OK ==> SaysFound(TpmRow(t, true).detail, t.found)
  {
    NumberOfDec(t.dumpFailed);
    NumberOfDec(t.found);
    SizeDecLength(t.dumpFailed);
    SizeDecLength(t.found);
  }

  /** What the TPM row says when some volume has the token. */
  lemma {:induction false} TpmWords(kinds: seq<Kind>, row: CheckResult)
    requires row == TpmRow(TallyOf(kinds), true) && |kinds| < SIZE_LIMIT && exists k <- kinds :: HasToken(k)
    ensures (exists k <- kinds :: IsUnread(k)) ==> SaysFoundBut(row.detail, |Places(kinds, IsUnread)|, |kinds|)
    ensures (forall k <- kinds :: HasToken(k)) ==> SaysFound(row.detail, |kinds|)
    ensures (forall k <- kinds :: IsRead(k)) && (exists k <- kinds :: !HasToken(k)) ==>
              row.detail == "at least one LUKS device without a systemd-tpm2 token"
  {
    var t := TallyOf(kinds);
    ReadCounts(kinds, t);
    TokenCount(kinds);
    CountExtremes(kinds, HasToken);
    FoundWords(t);
  }

  lemma {:induction false} TokenlessText(t: Tally)
    requires !t.bindings.anyToken && t.dumpOk > 0 && t.found > 0
    ensures t.bindings.clevis > 0 ==>
              TpmRow(t, true).detail == "clevis token present; pin not inspectable via luksDump"
    ensures t.bindings.clevis == 0 ==> TpmRow(t, true).detail == "no LUKS device has TPM2 token"
  {
  }

  lemma {:induction false} NothingText(t: Tally, kinds: seq<Kind>)
    requires t == TallyOf(kinds) && t.dumpOk == 0
    ensures NothingRead(kinds, TpmRow(t, true))
  {
  }

  /** What it says when none has. */
  lemma {:induction false} TokenlessWords(kinds: seq<Kind>, row: CheckResult)
    requires row == TpmRow(TallyOf(kinds), true) && forall k <- kinds :: !HasToken(k)
    ensures if (exists k <- kinds :: IsClevis(k))
            then row.detail == "clevis token present; pin not inspectable via luksDump"
            else if (exists k <- kinds :: IsRead(k)) then row.detail == "no LUKS device has TPM2 token"
            else NothingRead(kinds, row)
  {
    var t := TallyOf(kinds);
    ReadCounts(kinds, t);
    CountExtremes(kinds, HasToken);
    CountExtremes(kinds, IsClevis);
    if t.dumpOk > 0 {
      TokenlessText(t);
    } else {
      NothingText(t, kinds);
    }
  }

  /** A binding row, when no volume has the token. */
  lemma {:induction false} BindingAbsent(kinds: seq<Kind>, row: string, early: seq<CheckResult>)
    requires early == EarlyBinding(TallyOf(kinds), true, row) && forall k <- kinds :: !HasToken(k)
    ensures |early| == 1 && early[0].state == SKIP
    ensures if (exists k <- kinds :: IsClevis(k))
            then early[0].detail == "clevis binding; PCR policy not inspectable"
            else if (exists k <- kinds :: IsRead(k)) then early[0].detail == "no TPM2 token to evaluate"
            else NothingRead(kinds, early[0])
  {
    ReadCounts(kinds, TallyOf(kinds));
    CountExtremes(kinds, HasToken);
    CountExtremes(kinds, IsClevis);
  }

  /** A binding row, when some volume has the token: skipped exactly when another could not be dumped
      or no list of PCRs could be read. */
  lemma {:induction false} BindingSkips(kinds: seq<Kind>, row: string, early: seq<CheckResult>)
    requires early == EarlyBinding(TallyOf(kinds), true, row) && |kinds| < SIZE_LIMIT
    requires exists k <- kinds :: HasToken(k)
    ensures (exists k <- kinds :: IsUnread(k)) ==>
              |early| == 1 && NotAllRead(kinds, early[0], "device", "devices")
    ensures (forall k <- kinds :: IsRead(k)) && |early| == 1 ==>
              early[0].state == SKIP && early[0].detail == "PCR mask unreadable"
    ensures (forall k <- kinds :: IsRead(k)) ==>
              (|early| == 1 <==> NoHash(BindingsOf(kinds)) && forall k <- kinds :: !IsSigned(k))
  {
    var t := TallyOf(kinds);
    ReadCounts(kinds, t);
    UnreadWords(t, "device", "devices");
    CountExtremes(kinds, HasToken);
    CountExtremes(kinds, IsSigned);
  }

  /** The rows by their names. */
  lemma {:induction false} RowNames(t: Tally, tpmPresent: bool)
    ensures VersionRow(t).name == "LUKS version" && IntegrityRow(t).name == "LUKS dm-integrity"
    ensures TpmRow(t, tpmPresent).name == "LUKS TPM binding"
  {
    VersionName(t);
    IntegrityName(t);
    TpmName(t, tpmPresent);
  }

  lemma {:induction false} VersionName(t: Tally)
    ensures VersionRow(t).name == "LUKS version"
  {
  }

  lemma {:induction false} IntegrityName(t: Tally)
    ensures IntegrityRow(t).name == "LUKS dm-integrity"
  {
  }

  lemma {:induction false} TpmName(t: Tally, tpmPresent: bool)
    ensures TpmRow(t, tpmPresent).name == "LUKS TPM binding"
  {
    if t.bindings.anyToken && t.found > 0 && t.dumpOk > 0 && tpmPresent {
      TpmNameFound(t);
    }
  }

  lemma {:induction false} TpmNameFound(t: Tally)
    requires t.bindings.anyToken && t.found > 0 && t.dumpOk > 0
    ensures TpmRow(t, true).name == "LUKS TPM binding"
  {
  }

  lemma {:induction false} BindingNames(t: Tally, tpmPresent: bool)
    ensures SecureBootRow(t, tpmPresent).name == "LUKS Secure Boot binding"
    ensures ChainRow(t, tpmPresent).name == "LUKS boot chain binding"
  {
    EarlyName(t, tpmPresent, SECURE_BOOT_ROW);
    EarlyName(t, tpmPresent, CHAIN_ROW);
  }

  lemma {:induction false} EarlyName(t: Tally, tpmPresent: bool, row: string)
    ensures |EarlyBinding(t, tpmPresent, row)| == 1 ==> EarlyBinding(t, tpmPresent, row)[0].name == row
  {
  }

  /** What the Secure Boot row says before the consequences. */
  lemma {:induction false} SecureBootWords(b: Bindings, pcrs: string, text: string)
    requires text == SecureBootFinding(b, pcrs).text
    ensures NoHash(b) ==> text == "signed policy (pubkey); PCRs: " + pcrs
    ensures !NoHash(b) && 7 !in Judged(b) ==> text == "PCRs: " + pcrs + "; PCR 7 absent, Secure Boot state unmeasured"
    ensures !NoHash(b) && 7 in Judged(b) && b.unparsed == 0 ==> text == "PCRs: " + pcrs + "; Secure Boot state measured"
    ensures !NoHash(b) && 7 in Judged(b) && b.unparsed > 0 ==> SaysUnreadable(text, pcrs, b.unparsed)
  {
    NumberOfDec(b.unparsed);
  }

  ghost predicate SaysUnreadable(text: string, pcrs: string, n: nat) {
    exists d ::
      && Number(d, n)
      && text == "PCRs: " + pcrs + "; " + d + " " + (if n == 1 then "device" else "devices") + " PCR binding unreadable"
  }

  /** What the boot chain row says before the consequences. */
  lemma {:induction false} ChainWords(b: Bindings, pcrs: string, text: string)
    requires text == ChainFinding(b, pcrs).text
    ensures NoHash(b) && 11 in Judged(b) ==> text == "signed policy; PCR 11 (UKI) measured"
    ensures NoHash(b) && 11 !in Judged(b) ==> text == "signed policy; PCRs: " + pcrs + ", PCR 11 (UKI) absent"
    ensures !NoHash(b) && 4 !in Judged(b) && 9 !in Judged(b) ==>
              text == "PCRs: " + pcrs + " only; bootloader and initramfs unprotected"
    ensures !NoHash(b) && 4 !in Judged(b) && 9 in Judged(b) ==>
              text == "PCRs: " + pcrs + "; bootloader (PCR 4) unmeasured"
    ensures !NoHash(b) && 4 in Judged(b) && 9 !in Judged(b) ==> text == "PCRs: " + pcrs + "; initramfs unprotected"
    ensures !NoHash(b) && {4, 9} <= Judged(b) && b.unparsed > 0 ==> SaysUnreadable(text, pcrs, b.unparsed)
    ensures !NoHash(b) && {4, 9} <= Judged(b) && b.unparsed == 0 ==>
              text == "PCRs: " + pcrs
                      + if 0 in Judged(b) then "; firmware and full boot chain measured" else "; boot chain measured"
  {
    NumberOfDec(b.unparsed);
  }

  /** A dump that lists both policies is bound by its hash policy. */
  lemma {:induction false} HashFirst(d: Dump)
    requires d.Valid() && IndexOf(d.Text(), TOKEN, 0) == |d.head|
    ensures BindingOf(d.Text()) == HashPolicy(Shown(d.hash.mask))
  {
    DumpRoundTrip(d);
    assert |LinesText(d.lines)| > 0;
  }

  /** A dump that lists a signed policy only is bound by it, and one without the token by clevis or
      by nothing. */
  lemma {:induction false} OtherBindings(d: SignedDump, text: string)
    requires d.Valid() && IndexOf(d.Text(), TOKEN, 0) == |d.head| && !Contains(text, TOKEN)
    ensures BindingOf(d.Text()) == SignedPolicy(d.mask)
    ensures BindingOf(text) == if Contains(text, "clevis") then Clevis else NoToken
  {
    SignedScanned(d);
  }
}
