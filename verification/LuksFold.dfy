/** The fold over LUKS volumes (src/check_luks.c): its counters and the weakest PCR masks. The dumps
    of `cryptsetup` are parameters. */
module LuksFold {
  import opened CText
  import opened Decimal
  import opened PcrMask

  /** What `cryptsetup luksDump` gave for a volume. */
  datatype Volume = Undumped | Dumped(text: string)

  /** How the key of a dumped volume is bound. */
  datatype Binding = HashPolicy(mask: Mask) | SignedPolicy(mask: Mask) | Unparsed | Clevis | NoToken

  datatype Kind = Unread | Read(version: nat, integrity: bool, binding: Binding)

  // One dump.

  const VERSION_KEY: string := "Version:"

  ghost function VersionOf(text: string): (v: nat) {
    var key := IndexOf(text, VERSION_KEY, 0);
    if key + |VERSION_KEY| > |text| then 0
    else
      var p := SkipBlank(text, key + |VERSION_KEY|);
      if p == |text| then 0 else if text[p] == '1' then 1 else if text[p] == '2' then 2 else 0
  }

  /** `bythos_parse_luks_version`. */
  method ParseVersion(text: string) returns (v: nat)
    ensures v == VersionOf(text)
  {
    var key := Search(text, VERSION_KEY, 0);
    if key == |text| {
      return 0;
    }
    var p := ScanBlank(text, key + |VERSION_KEY|);
    if p == |text| {
      return 0;
    }
    return if text[p] == '1' then 1 else if text[p] == '2' then 2 else 0;
  }

  /** The first "Version:" of a dump, blanks, and the character behind them. */
  ghost predicate VersionStands(text: string, head: string, blanks: string, c: char, rest: string) {
    && text == head + ("Version:" + (blanks + ([c] + rest)))
    && IndexOf(text, "Version:", 0) == |head|
    && (forall i :: 0 <= i < |blanks| ==> IsBlank(blanks[i])) && !IsBlank(c)
  }

  ghost predicate HasVersion(text: string, c: char) {
    exists head, blanks, rest :: VersionStands(text, head, blanks, c, rest)
  }

  lemma {:induction false} VersionRead(text: string, head: string, blanks: string, c: char, rest: string)
    requires VersionStands(text, head, blanks, c, rest)
    ensures VersionOf(text) == if c == '1' then 1 else if c == '2' then 2 else 0
  {
    var start := |head| + |"Version:"|;
    var p := start + |blanks|;
    assert text[p] == c;
    forall i | start <= i < p
      ensures IsBlank(text[i])
    {
      assert text[i] == blanks[i - start];
    }
    SkipBlankAt(text, start, p);
  }

  /** A dump is read as LUKS1 or LUKS2 exactly when that digit stands behind its version key. */
  lemma {:induction false} VersionExact(text: string)
    ensures VersionOf(text) == 1 <==> HasVersion(text, '1')
    ensures VersionOf(text) == 2 <==> HasVersion(text, '2')
    ensures VersionOf(text) <= 2
  {
    forall head, blanks, c, rest | VersionStands(text, head, blanks, c, rest)
      ensures VersionOf(text) == if c == '1' then 1 else if c == '2' then 2 else 0
    {
      VersionRead(text, head, blanks, c, rest);
    }
    if VersionOf(text) != 0 {
      VersionParts(text, IndexOf(text, "Version:", 0));
    }
  }

  lemma {:induction false} VersionParts(text: string, key: nat)
    requires VersionOf(text) != 0 && key == IndexOf(text, "Version:", 0)
    ensures HasVersion(text, if VersionOf(text) == 1 then '1' else '2')
  {
    var start := key + |"Version:"|;
    var p := SkipBlank(text, start);
    BlanksSkipped(text, start);
    var head, blanks, rest := text[..key], text[start..p], text[p + 1..];
    assert text[key..start] == "Version:";
    assert text == head + (text[key..start] + (blanks + ([text[p]] + rest)));
    assert VersionStands(text, head, blanks, text[p], rest);
  }

  lemma {:induction false} BlanksSkipped(s: string, i: nat)
    requires i <= |s|
    ensures forall k :: i <= k < SkipBlank(s, i) ==> IsBlank(s[k])
    decreases |s| - i
  {
    if i < |s| && IsBlank(s[i]) {
      BlanksSkipped(s, i + 1);
    }
  }

  /** The binding from whether the token is there, the two masks and whether clevis is there. */
  function BindingFor(token: bool, hash: Mask, signed: Mask, clevis: bool): (b: Binding) {
    if token then if hash != {} then HashPolicy(hash) else if signed != {} then SignedPolicy(signed) else Unparsed
    else if clevis then Clevis
    else NoToken
  }

  ghost function BindingOf(text: string): (b: Binding) {
    BindingFor(Contains(text, TOKEN), Scanned(text, false), Scanned(text, true), Contains(text, "clevis"))
  }

  method ClassifyBinding(text: string) returns (b: Binding)
    ensures b == BindingOf(text)
  {
    var token := Search(text, TOKEN, 0);
    if token < |text| {
      var found, mask := ScanPcrs(text, false);
      if found {
        return HashPolicy(mask);
      }
      found, mask := ScanPcrs(text, true);
      return if found then SignedPolicy(mask) else Unparsed;
    }
    var clevis := Search(text, "clevis", 0);
    return if clevis < |text| then Clevis else NoToken;
  }

  ghost function KindOf(v: Volume): (k: Kind) {
    if v.Undumped? then Unread
    else Read(VersionOf(v.text), Contains(v.text, "integrity:"), BindingOf(v.text))
  }

  method Inspect(v: Volume) returns (k: Kind)
    ensures k == KindOf(v)
  {
    if v.Undumped? {
      return Unread;
    }
    var version := ParseVersion(v.text);
    var integrity := Search(v.text, "integrity:", 0);
    var binding := ClassifyBinding(v.text);
    return Read(version, integrity < |v.text|, binding);
  }

  // Counting.

  function Count(kinds: seq<Kind>, p: Kind -> bool): (n: nat)
    ensures n <= |kinds|
  {
    if |kinds| == 0 then 0
    else Count(kinds[..|kinds| - 1], p) + if p(kinds[|kinds| - 1]) then 1 else 0
  }

  lemma CountSnoc(kinds: seq<Kind>, k: Kind, p: Kind -> bool)
    ensures Count(kinds + [k], p) == Count(kinds, p) + if p(k) then 1 else 0
  {
    assert (kinds + [k])[..|kinds|] == kinds;
  }

  /** The places of the volumes that are counted. */
  ghost function Places(kinds: seq<Kind>, p: Kind -> bool): (places: set<nat>) {
    set i: nat | i < |kinds| && p(kinds[i])
  }

  /** A count is the number of volumes counted. */
  lemma {:induction false} CountIsSize(kinds: seq<Kind>, p: Kind -> bool)
    ensures Count(kinds, p) == |Places(kinds, p)|
  {
    if |kinds| == 0 {
      assert Places(kinds, p) == {};
    } else {
      var n: nat := |kinds| - 1;
      var before := kinds[..n];
      CountIsSize(before, p);
      assert Places(kinds, p) == Places(before, p) + if p(kinds[n]) then {n} else {};
    }
  }

  predicate IsUnread(k: Kind) { k.Unread? }

  predicate IsRead(k: Kind) { k.Read? }

  predicate IsLuks1(k: Kind) { k.Read? && k.version == 1 }

  predicate IsLuks2(k: Kind) { k.Read? && k.version == 2 }

  predicate IsOtherVersion(k: Kind) { k.Read? && k.version != 1 && k.version != 2 }

  predicate HasIntegrity(k: Kind) { k.Read? && k.integrity }

  predicate IsHash(k: Kind) { k.Read? && k.binding.HashPolicy? }

  predicate IsSigned(k: Kind) { k.Read? && k.binding.SignedPolicy? }

  predicate IsUnparsed(k: Kind) { k.Read? && k.binding.Unparsed? }

  predicate IsClevis(k: Kind) { k.Read? && k.binding.Clevis? }

  predicate IsTokenless(k: Kind) { k.Read? && k.binding.NoToken? }

  predicate HasToken(k: Kind) { IsHash(k) || IsSigned(k) || IsUnparsed(k) }

  // The weakest mask.

  const ALL: Mask := set i: nat | i < BITS

  /** A mask and its number of bits; at the start the sentinel with all bits. */
  datatype Weakest = Weakest(mask: Mask, popcount: nat)

  function Weaker(w: Weakest, m: Mask): (w': Weakest) {
    if |m| < w.popcount then Weakest(m, |m|) else w
  }

  function WeakestOf(masks: seq<Mask>): (w: Weakest) {
    if |masks| == 0 then Weakest(ALL, BITS) else Weaker(WeakestOf(masks[..|masks| - 1]), masks[|masks| - 1])
  }

  function MasksOf(kinds: seq<Kind>, p: Kind -> bool): (masks: seq<Mask>)
    requires forall k :: p(k) ==> k.Read? && (k.binding.HashPolicy? || k.binding.SignedPolicy?)
    ensures |masks| == Count(kinds, p)
  {
    if |kinds| == 0 then []
    else
      var last := kinds[|kinds| - 1];
      MasksOf(kinds[..|kinds| - 1], p) + if p(last) then [last.binding.mask] else []
  }

  /** The loop that counts the bits of a mask. */
  method PopCount(mask: Mask) returns (pc: nat)
    requires mask <= ALL
    ensures pc == |mask|
  {
    pc := 0;
    for i := 0 to BITS
      invariant pc == |Below(mask, i)|
    {
      if i in mask {
        assert Below(mask, i + 1) == Below(mask, i) + {i};
        pc := pc + 1;
      } else {
        assert Below(mask, i + 1) == Below(mask, i);
      }
    }
    assert Below(mask, BITS) == mask;
  }

  // The running counters.

  datatype Versions = Versions(luks1: nat, luks2: nat, unknown: nat, integrity: nat)

  datatype Bindings = Bindings(
    anyToken: bool, weakest: Weakest, signedCount: nat, signedWeakest: Weakest, unparsed: nat, clevis: nat,
    noToken: nat)

  datatype Tally = Tally(found: nat, dumpOk: nat, dumpFailed: nat, versions: Versions, bindings: Bindings)

  function VersionsOf(kinds: seq<Kind>): (v: Versions) {
    Versions(Count(kinds, IsLuks1), Count(kinds, IsLuks2), Count(kinds, IsOtherVersion), Count(kinds, HasIntegrity))
  }

  function BindingsOf(kinds: seq<Kind>): (b: Bindings) {
    Bindings(Count(kinds, HasToken) > 0, WeakestOf(MasksOf(kinds, IsHash)), Count(kinds, IsSigned),
             WeakestOf(MasksOf(kinds, IsSigned)), Count(kinds, IsUnparsed), Count(kinds, IsClevis),
             Count(kinds, IsTokenless))
  }

  function TallyOf(kinds: seq<Kind>): (t: Tally) {
    Tally(|kinds|, Count(kinds, IsRead), Count(kinds, IsUnread), VersionsOf(kinds), BindingsOf(kinds))
  }

  method AddVersion(v: Versions, k: Kind, ghost kinds: seq<Kind>) returns (v': Versions)
    requires k.Read? && v == VersionsOf(kinds)
    ensures v' == VersionsOf(kinds + [k])
  {
    CountSnoc(kinds, k, IsLuks1);
    CountSnoc(kinds, k, IsLuks2);
    CountSnoc(kinds, k, IsOtherVersion);
    CountSnoc(kinds, k, HasIntegrity);
    v' := v;
    if k.version == 2 {
      v' := v'.(luks2 := v.luks2 + 1);
    } else if k.version == 1 {
      v' := v'.(luks1 := v.luks1 + 1);
    } else {
      v' := v'.(unknown := v.unknown + 1);
    }
    if k.integrity {
      v' := v'.(integrity := v.integrity + 1);
    }
  }

  method AddMask(w: Weakest, m: Mask) returns (w': Weakest)
    requires m <= ALL
    ensures w' == Weaker(w, m)
  {
    var pc := PopCount(m);
    return if pc < w.popcount then Weakest(m, pc) else w;
  }

  predicate ValidKind(k: Kind) {
    && (IsHash(k) || IsSigned(k) ==> k.binding.mask <= ALL && k.binding.mask != {})
  }

  method AddBinding(b: Bindings, k: Kind, ghost kinds: seq<Kind>) returns (b': Bindings)
    requires k.Read? && ValidKind(k) && b == BindingsOf(kinds)
    ensures b' == BindingsOf(kinds + [k])
  {
    BindingCounts(kinds, k);
    match k.binding {
      case HashPolicy(mask) =>
        var w := AddMask(b.weakest, mask);
        return b.(anyToken := true, weakest := w);
      case SignedPolicy(mask) =>
        var w := AddMask(b.signedWeakest, mask);
        return b.(anyToken := true, signedCount := b.signedCount + 1, signedWeakest := w);
      case Unparsed => return b.(anyToken := true, unparsed := b.unparsed + 1);
      case Clevis => return b.(clevis := b.clevis + 1);
      case NoToken => return b.(noToken := b.noToken + 1);
    }
  }

  lemma BindingCounts(kinds: seq<Kind>, k: Kind)
    ensures Count(kinds + [k], HasToken) == Count(kinds, HasToken) + if HasToken(k) then 1 else 0
    ensures Count(kinds + [k], IsSigned) == Count(kinds, IsSigned) + if IsSigned(k) then 1 else 0
    ensures Count(kinds + [k], IsUnparsed) == Count(kinds, IsUnparsed) + if IsUnparsed(k) then 1 else 0
    ensures Count(kinds + [k], IsClevis) == Count(kinds, IsClevis) + if IsClevis(k) then 1 else 0
    ensures Count(kinds + [k], IsTokenless) == Count(kinds, IsTokenless) + if IsTokenless(k) then 1 else 0
    ensures WeakestOf(MasksOf(kinds + [k], IsHash))
            == if IsHash(k) then Weaker(WeakestOf(MasksOf(kinds, IsHash)), k.binding.mask)
               else WeakestOf(MasksOf(kinds, IsHash))
    ensures WeakestOf(MasksOf(kinds + [k], IsSigned))
            == if IsSigned(k) then Weaker(WeakestOf(MasksOf(kinds, IsSigned)), k.binding.mask)
               else WeakestOf(MasksOf(kinds, IsSigned))
  {
    CountSnoc(kinds, k, HasToken);
    CountSnoc(kinds, k, IsSigned);
    CountSnoc(kinds, k, IsUnparsed);
    CountSnoc(kinds, k, IsClevis);
    CountSnoc(kinds, k, IsTokenless);
    WeakestSnoc(kinds, k, IsHash);
    WeakestSnoc(kinds, k, IsSigned);
  }

  lemma WeakestSnoc(kinds: seq<Kind>, k: Kind, p: Kind -> bool)
    requires forall k :: p(k) ==> k.Read? && (k.binding.HashPolicy? || k.binding.SignedPolicy?)
    ensures WeakestOf(MasksOf(kinds + [k], p))
            == if p(k) then Weaker(WeakestOf(MasksOf(kinds, p)), k.binding.mask) else WeakestOf(MasksOf(kinds, p))
  {
    assert (kinds + [k])[..|kinds|] == kinds;
    var masks := MasksOf(kinds, p);
    if p(k) {
      assert (masks + [k.binding.mask])[..|masks|] == masks;
    } else {
      assert masks + [] == masks;
    }
  }

  ghost function KindsOf(volumes: seq<Volume>): (kinds: seq<Kind>)
    ensures |kinds| == |volumes|
  {
    if |volumes| == 0 then [] else KindsOf(volumes[..|volumes| - 1]) + [KindOf(volumes[|volumes| - 1])]
  }

  method AddVolume(t: Tally, v: Volume, ghost kinds: seq<Kind>) returns (t': Tally, ghost k: Kind)
    requires t == TallyOf(kinds)
    ensures k == KindOf(v) && t' == TallyOf(kinds + [k])
  {
    var kind := Inspect(v);
    k := kind;
    KindValid(v);
    if kind.Unread? {
      UnreadCounts(kinds);
      return t.(found := t.found + 1, dumpFailed := t.dumpFailed + 1), k;
    }
    CountSnoc(kinds, k, IsRead);
    CountSnoc(kinds, k, IsUnread);
    var versions := AddVersion(t.versions, kind, kinds);
    var bindings := AddBinding(t.bindings, kind, kinds);
    return Tally(t.found + 1, t.dumpOk + 1, t.dumpFailed, versions, bindings), k;
  }

  lemma UnreadCounts(kinds: seq<Kind>)
    ensures VersionsOf(kinds + [Unread]) == VersionsOf(kinds) && BindingsOf(kinds + [Unread]) == BindingsOf(kinds)
    ensures Count(kinds + [Unread], IsRead) == Count(kinds, IsRead)
    ensures Count(kinds + [Unread], IsUnread) == Count(kinds, IsUnread) + 1
  {
    CountSnoc(kinds, Unread, IsLuks1);
    CountSnoc(kinds, Unread, IsLuks2);
    CountSnoc(kinds, Unread, IsOtherVersion);
    CountSnoc(kinds, Unread, HasIntegrity);
    CountSnoc(kinds, Unread, IsRead);
    CountSnoc(kinds, Unread, IsUnread);
    BindingCounts(kinds, Unread);
  }

  lemma {:induction false} NumbersBounded(s: string)
    ensures NumbersIn(s) <= ALL
  {
    if |s| > 0 {
      if IsDigit(s[0]) {
        NumbersBounded(s[DigitsEnd(s, 0)..]);
      } else {
        NumbersBounded(s[1..]);
      }
    }
  }

  lemma {:induction false} ScanBounded(t: string, line: nat, end: nat, pubkey: bool)
    requires line <= end <= |t|
    ensures ScanFrom(t, line, end, pubkey) <= ALL
    decreases end - line
  {
    if line < end {
      var eol := LineEnd(t, line, end);
      LineBounded(t[line..eol], After(t, eol), pubkey);
      if eol < end {
        ScanBounded(t, eol + 1, end, pubkey);
      }
    }
  }

  lemma LineBounded(line: string, after: char, pubkey: bool)
    ensures LineMask(line, after, pubkey) <= ALL
  {
    var key := KeyAt(line, after, 0);
    if key < |line| && ColonAt(line, key + 4) < |line| {
      NumbersBounded(line[ColonAt(line, key + 4) + 1..]);
    }
  }

  lemma KindValid(v: Volume)
    ensures ValidKind(KindOf(v))
  {
    if v.Dumped? {
      var pos := IndexOf(v.text, TOKEN, 0);
      ScanBounded(v.text, pos, WindowEnd(v.text, pos), false);
      ScanBounded(v.text, pos, WindowEnd(v.text, pos), true);
    }
  }

  /** The loop over the volumes. */
  method FoldVolumes(volumes: seq<Volume>) returns (t: Tally)
    ensures t == TallyOf(KindsOf(volumes))
  {
    var none := Weakest(ALL, BITS);
    t := Tally(0, 0, 0, Versions(0, 0, 0, 0), Bindings(false, none, 0, none, 0, 0, 0));
    ghost var kinds: seq<Kind> := [];
    for i := 0 to |volumes|
      invariant kinds == KindsOf(volumes[..i])
      invariant t == TallyOf(kinds)
    {
      ghost var k;
      t, k := AddVolume(t, volumes[i], kinds);
      assert volumes[..i + 1][..i] == volumes[..i];
      kinds := kinds + [k];
    }
    assert volumes[..|volumes|] == volumes;
  }

  // What the counters mean.

  lemma {:induction false} CountSum(kinds: seq<Kind>, p: Kind -> bool, q: Kind -> bool, r: Kind -> bool)
    requires forall k :: r(k) <==> p(k) || q(k)
    requires forall k :: !(p(k) && q(k))
    ensures Count(kinds, r) == Count(kinds, p) + Count(kinds, q)
  {
    if |kinds| > 0 {
      CountSum(kinds[..|kinds| - 1], p, q, r);
    }
  }

  /** A count is full (zero) exactly when every (no) volume is counted. */
  lemma {:induction false} CountExtremes(kinds: seq<Kind>, p: Kind -> bool)
    ensures Count(kinds, p) == |kinds| <==> forall k <- kinds :: p(k)
    ensures Count(kinds, p) == 0 <==> forall k <- kinds :: !p(k)
  {
    if |kinds| > 0 {
      var before, last := kinds[..|kinds| - 1], kinds[|kinds| - 1];
      CountExtremes(before, p);
      assert forall k :: k in kinds <==> k in before || k == last;
    }
  }

  predicate IsKnownVersion(k: Kind) { IsLuks1(k) || IsLuks2(k) }

  predicate HasPolicy(k: Kind) { IsHash(k) || IsSigned(k) }

  predicate HasNoToken(k: Kind) { IsClevis(k) || IsTokenless(k) }

  predicate Always(k: Kind) { true }

  /** The counters partition the volumes. */
  lemma CountersPartition(kinds: seq<Kind>)
    ensures var t := TallyOf(kinds);
            && t.found == t.dumpOk + t.dumpFailed
            && t.dumpOk == t.versions.luks1 + t.versions.luks2 + t.versions.unknown
            && t.dumpOk == |MasksOf(kinds, IsHash)| + t.bindings.signedCount + t.bindings.unparsed
                           + t.bindings.clevis + t.bindings.noToken
  {
    CountSum(kinds, IsRead, IsUnread, Always);
    CountExtremes(kinds, Always);
    CountSum(kinds, IsLuks1, IsLuks2, IsKnownVersion);
    CountSum(kinds, IsKnownVersion, IsOtherVersion, IsRead);
    CountSum(kinds, IsHash, IsSigned, HasPolicy);
    CountSum(kinds, HasPolicy, IsUnparsed, HasToken);
    CountSum(kinds, IsClevis, IsTokenless, HasNoToken);
    CountSum(kinds, HasToken, HasNoToken, IsRead);
  }

  lemma {:induction false} BelowAll(k: nat)
    requires k <= BITS
    ensures |Below(ALL, k)| == k
  {
    if k > 0 {
      BelowAll(k - 1);
      assert Below(ALL, k) == Below(ALL, k - 1) + {k - 1};
    } else {
      assert Below(ALL, 0) == {};
    }
  }

  /** Only the sentinel has all thirty-two bits. */
  lemma FullMask(m: Mask)
    requires m <= ALL
    ensures |m| <= BITS && (|m| == BITS <==> m == ALL)
  {
    BelowAll(BITS);
    assert Below(ALL, BITS) == ALL;
    assert ALL == m + (ALL - m);
    assert |ALL| == |m| + |ALL - m|;
    if |ALL - m| == 0 {
      assert ALL - m == {};
    }
  }

  /** Mask `i` is the first of those with the fewest bits. */
  ghost predicate FirstLeast(masks: seq<Mask>, i: nat) {
    && i < |masks|
    && (forall j :: 0 <= j < i ==> |masks[i]| < |masks[j]|)
    && (forall j :: i <= j < |masks| ==> |masks[i]| <= |masks[j]|)
  }

  /** The first mask of the fewest bits, or the sentinel when every mask is full. */
  ghost predicate IsWeakest(masks: seq<Mask>, w: Weakest) {
    if exists m <- masks :: m != ALL
    then exists i: nat :: FirstLeast(masks, i) && w == Weakest(masks[i], |masks[i]|) && w.mask != ALL
    else w == Weakest(ALL, BITS)
  }

  /** The kept mask is the first one of the fewest bits, unless every mask is full. */
  lemma {:induction false} WeakestIsFirst(masks: seq<Mask>)
    requires forall m <- masks :: m <= ALL
    ensures IsWeakest(masks, WeakestOf(masks))
  {
    if |masks| > 0 {
      var n := |masks| - 1;
      var before, last := masks[..n], masks[n];
      assert forall m <- before :: m in masks;
      WeakestIsFirst(before);
      assert last in masks;
      FullMask(last);
      assert forall m <- masks :: m in before || m == last;
      if exists m <- before :: m != ALL {
        var i: nat :| FirstLeast(before, i) && WeakestOf(before) == Weakest(before[i], |before[i]|) && before[i] != ALL;
        assert masks[i] == before[i] && masks[i] in masks;
        FullMask(masks[i]);
        WeakestAgain(masks, before, last, i);
      } else {
        WeakestAtLast(masks, before, last);
      }
    }
  }

  lemma WeakestAgain(masks: seq<Mask>, before: seq<Mask>, last: Mask, i: nat)
    requires masks == before + [last] && FirstLeast(before, i)
    requires before[i] != ALL && |before[i]| < BITS && (|last| == BITS <==> last == ALL) && |last| <= BITS
    ensures IsWeakest(masks, Weaker(Weakest(before[i], |before[i]|), last))
  {
    assert masks[i] in masks;
    if |last| < |before[i]| {
      assert FirstLeast(masks, |before|);
    } else {
      assert FirstLeast(masks, i);
    }
  }

  lemma WeakestAtLast(masks: seq<Mask>, before: seq<Mask>, last: Mask)
    requires masks == before + [last] && forall m <- before :: m == ALL
    requires (|last| == BITS <==> last == ALL) && |last| <= BITS
    ensures IsWeakest(masks, Weaker(Weakest(ALL, BITS), last))
  {
    BelowAll(BITS);
    assert Below(ALL, BITS) == ALL;
    assert forall j :: 0 <= j < |before| ==> masks[j] == before[j] && before[j] in before;
    assert forall m <- masks :: m in before || m == last;
    if last != ALL {
      assert FirstLeast(masks, |before|) && masks[|before|] in masks;
    }
  }
}
