/** Extraction of one section from a PE image (src/firmware_parsers.c; Microsoft PE Format,
    "Section Table (Section Headers)") and a builder of images. */
module PeSection {
  import opened CText
  import opened Bytes

  const DOS_HEADER: nat := 64
  const LFANEW: nat := 0x3C
  const COFF_HEADER: nat := 20
  const SECTION_HEADER: nat := 40
  const NAME_BYTES: nat := 8
  const MAX_SECTIONS: nat := 96

  function Zeros(n: nat): (z: seq<Byte>)
    ensures |z| == n && forall i :: 0 <= i < n ==> z[i] == 0
  {
    seq(n, i => 0)
  }

  /** The bytes a C string leaves in a name field. */
  function Padded(name: seq<Byte>): (field: seq<Byte>)
    requires |name| <= NAME_BYTES
    ensures |field| == NAME_BYTES
  {
    name + Zeros(NAME_BYTES - |name|)
  }

  function SectionCount(bin: seq<Byte>): (n: nat)
    requires |bin| >= DOS_HEADER && Le32(bin, LFANEW) + 4 + COFF_HEADER <= |bin|
  {
    Le16(bin, Le32(bin, LFANEW) + 6)
  }

  function TableOffset(bin: seq<Byte>): (at: nat)
    requires |bin| >= DOS_HEADER && Le32(bin, LFANEW) + 4 + COFF_HEADER <= |bin|
  {
    Le32(bin, LFANEW) + 4 + COFF_HEADER + Le16(bin, Le32(bin, LFANEW) + 20)
  }

  /** The DOS stub, the signature and a section table that lies inside the file. */
  predicate HeadersWellFormed(bin: seq<Byte>) {
    && |bin| >= DOS_HEADER
    && bin[..2] == ['M' as int, 'Z' as int]
    && var pe := Le32(bin, LFANEW);
       && pe + 4 + COFF_HEADER <= |bin|
       && bin[pe..pe + 4] == ['P' as int, 'E' as int, 0, 0]
       && 0 < SectionCount(bin) <= MAX_SECTIONS
       && TableOffset(bin) + SECTION_HEADER * SectionCount(bin) <= |bin|
  }

  /** Header `i` of the table carries exactly this name. */
  predicate Named(bin: seq<Byte>, table: nat, i: nat, name: seq<Byte>)
    requires table + SECTION_HEADER * (i + 1) <= |bin| && |name| <= NAME_BYTES
  {
    bin[table + SECTION_HEADER * i..table + SECTION_HEADER * i + NAME_BYTES] == Padded(name)
  }

  /** The first header of the name among the headers from number `i` on, or `sections`. */
  function FirstNamed(bin: seq<Byte>, table: nat, sections: nat, name: seq<Byte>, i: nat): (k: nat)
    requires table + SECTION_HEADER * sections <= |bin| && |name| <= NAME_BYTES && i <= sections
    ensures i <= k <= sections
    decreases sections - i
  {
    if i == sections || Named(bin, table, i, name) then i
    else FirstNamed(bin, table, sections, name, i + 1)
  }

  /** VirtualSize when it is set and within SizeOfRawData, else SizeOfRawData. */
  function EffectiveSize(bin: seq<Byte>, h: nat): (n: nat)
    requires h + SECTION_HEADER <= |bin|
  {
    if 0 < Le32(bin, h + 8) <= Le32(bin, h + 16) then Le32(bin, h + 8) else Le32(bin, h + 16)
  }

  predicate InFile(bin: seq<Byte>, h: nat, room: nat)
    requires h + SECTION_HEADER <= |bin|
  {
    && 0 < EffectiveSize(bin, h) <= room
    && Le32(bin, h + 20) + EffectiveSize(bin, h) <= |bin|
  }

  /** Well-formed headers name the section. */
  predicate HasSection(bin: seq<Byte>, name: seq<Byte>) {
    && HeadersWellFormed(bin)
    && 0 < |name| <= NAME_BYTES
    && FirstNamed(bin, TableOffset(bin), SectionCount(bin), name, 0) < SectionCount(bin)
  }

  /** The header of the first section of this name. */
  function MatchingHeader(bin: seq<Byte>, name: seq<Byte>): (h: nat)
    requires HasSection(bin, name)
    ensures h + SECTION_HEADER <= |bin|
  {
    TableOffset(bin) + SECTION_HEADER * FirstNamed(bin, TableOffset(bin), SectionCount(bin), name, 0)
  }

  /** The first section of the name exists, lies inside the file and fits the buffer. */
  predicate Extractable(bin: seq<Byte>, name: seq<Byte>, room: nat) {
    HasSection(bin, name) && InFile(bin, MatchingHeader(bin, name), room)
  }

  /** The bytes of the section whose header is at `h`. */
  function Payload(bin: seq<Byte>, h: nat): (b: seq<Byte>)
    requires h + SECTION_HEADER <= |bin| && InFile(bin, h, |bin|)
  {
    bin[Le32(bin, h + 20)..Le32(bin, h + 20) + EffectiveSize(bin, h)]
  }

  /** The checks before the section table; every access is within the file. */
  method CheckHeaders(bin: seq<Byte>) returns (ok: bool, table: nat, sections: nat)
    ensures ok == HeadersWellFormed(bin)
    ensures ok ==> table == TableOffset(bin) && sections == SectionCount(bin)
  {
    if |bin| < DOS_HEADER {
      return false, 0, 0;
    }
    if bin[0] != 'M' as int || bin[1] != 'Z' as int {
      return false, 0, 0;
    }
    var pe := Le32(bin, LFANEW);
    if pe > |bin| || pe + 4 + COFF_HEADER > |bin| {
      return false, 0, 0;
    }
    if bin[pe] != 'P' as int || bin[pe + 1] != 'E' as int || bin[pe + 2] != 0 || bin[pe + 3] != 0 {
      return false, 0, 0;
    }
    sections := Le16(bin, pe + 4 + 2);
    var optional := Le16(bin, pe + 4 + 16);
    if sections == 0 || sections > MAX_SECTIONS {
      return false, 0, 0;
    }
    table := pe + 4 + COFF_HEADER + optional;
    if table > |bin| {
      return false, 0, 0;
    }
    var left: nat := |bin| - table;
    ok := sections * SECTION_HEADER <= left;
  }

  /** The comparison of one name field, byte by byte. */
  method MatchName(bin: seq<Byte>, h: nat, name: seq<Byte>) returns (same: bool)
    requires h + SECTION_HEADER <= |bin| && |name| <= NAME_BYTES
    ensures same == (bin[h..h + NAME_BYTES] == Padded(name))
  {
    ghost var field := Padded(name);
    for j := 0 to NAME_BYTES
      invariant forall k :: 0 <= k < j ==> bin[h + k] == field[k]
    {
      var want := if j < |name| then name[j] else 0;
      if bin[h + j] != want {
        assert bin[h..h + NAME_BYTES][j] != field[j];
        return false;
      }
    }
    return true;
  }

  /** The search of the section table. */
  method FindSection(bin: seq<Byte>, table: nat, sections: nat, name: seq<Byte>) returns (k: nat)
    requires table + SECTION_HEADER * sections <= |bin| && |name| <= NAME_BYTES
    ensures k == FirstNamed(bin, table, sections, name, 0)
  {
    for i := 0 to sections
      invariant FirstNamed(bin, table, sections, name, 0) == FirstNamed(bin, table, sections, name, i)
    {
      var matches := MatchName(bin, table + i * SECTION_HEADER, name);
      if matches {
        return i;
      }
    }
    return sections;
  }

  /** All steps up to the matching header. */
  method Locate(bin: seq<Byte>, name: seq<Byte>) returns (found: bool, h: nat)
    ensures found == HasSection(bin, name)
    ensures found ==> h == MatchingHeader(bin, name)
  {
    var wellFormed, table, sections := CheckHeaders(bin);
    if !wellFormed || |name| == 0 || |name| > NAME_BYTES {
      return false, 0;
    }
    var k := FindSection(bin, table, sections, name);
    return k < sections, table + k * SECTION_HEADER;
  }

  /** `bythos_extract_pe_section`: it succeeds exactly when the headers are well formed and the
      first section of the name lies inside the file and fits the buffer, and then it copies
      exactly that slice to the front of the buffer. */
  method ExtractSection(bin: seq<Byte>, name: seq<Byte>, out: array<Byte>) returns (ok: bool, size: nat)
    modifies out
    ensures ok == Extractable(bin, name, out.Length)
    ensures ok ==> size == |Payload(bin, MatchingHeader(bin, name))|
    ensures ok ==> out[..] == Payload(bin, MatchingHeader(bin, name)) + old(out[size..])
    ensures !ok ==> size == 0 && out[..] == old(out[..])
  {
    if out.Length == 0 {
      return false, 0;
    }
    var found, h := Locate(bin, name);
    if !found {
      return false, 0;
    }
    ok, size := CopySection(bin, h, out);
  }

  /** `memcpy`. */
  method CopyBytes(src: seq<Byte>, out: array<Byte>)
    requires |src| <= out.Length
    modifies out
    ensures out[..] == src + old(out[|src|..])
  {
    for k := 0 to |src|
      invariant out[..k] == src[..k]
      invariant out[k..] == old(out[k..])
    {
      out[k] := src[k];
    }
  }

  /** The copy of the matching section. */
  method CopySection(bin: seq<Byte>, h: nat, out: array<Byte>) returns (ok: bool, size: nat)
    requires h + SECTION_HEADER <= |bin|
    modifies out
    ensures ok == InFile(bin, h, out.Length)
    ensures ok ==> size == |Payload(bin, h)|
    ensures ok ==> out[..] == Payload(bin, h) + old(out[size..])
    ensures !ok ==> size == 0 && out[..] == old(out[..])
  {
    var virtualSize := Le32(bin, h + 8);
    var rawSize := Le32(bin, h + 16);
    var start := Le32(bin, h + 20);
    var effective := if virtualSize > 0 && virtualSize <= rawSize then virtualSize else rawSize;
    if effective == 0 || start > |bin| || effective > |bin| - start || effective > out.Length {
      return false, 0;
    }
    CopyBytes(bin[start..start + effective], out);
    return true, effective;
  }

  /** `FirstNamed` is the least number whose header carries the name. */
  lemma {:induction false} FirstNamedIsLeast(bin: seq<Byte>, table: nat, sections: nat, name: seq<Byte>, i: nat, k: nat)
    requires table + SECTION_HEADER * sections <= |bin| && |name| <= NAME_BYTES && i <= k <= sections
    ensures FirstNamed(bin, table, sections, name, i) == k
            <==> (k < sections ==> Named(bin, table, k, name))
                 && forall j :: i <= j < k ==> !Named(bin, table, j, name)
    decreases k - i
  {
    if i < k {
      FirstNamedIsLeast(bin, table, sections, name, i + 1, k);
    }
  }

  // Building images.

  /** A section: its name, its virtual address, the rest of its header, its payload and the
      padding of its raw data. */
  datatype Section = Section(
    name: seq<Byte>, address: seq<Byte>, trailer: seq<Byte>, data: seq<Byte>, padding: seq<Byte>)
  {
    predicate Valid() {
      0 < |name| <= NAME_BYTES && 0 !in name && |address| == 4 && |trailer| == 16
    }

    function Raw(): (b: seq<Byte>) { data + padding }

    ghost function Header(at: nat): (h: seq<Byte>)
      requires Valid() && at < LIMIT32 && |Raw()| < LIMIT32
      ensures |h| == SECTION_HEADER
    {
      Padded(name) + Enc32(|data|) + address + Enc32(|Raw()|) + Enc32(at) + trailer
    }
  }

  predicate AllValid(sections: seq<Section>) {
    |sections| == 0 || (sections[0].Valid() && AllValid(sections[1..]))
  }

  /** Raw data of the sections, one after the other. */
  function Bodies(sections: seq<Section>): (b: seq<Byte>) {
    if |sections| == 0 then [] else sections[0].Raw() + Bodies(sections[1..])
  }

  /** The section table when the raw data begin at `at`. */
  ghost function Headers(sections: seq<Section>, at: nat): (h: seq<Byte>)
    requires AllValid(sections) && at + |Bodies(sections)| < LIMIT32
    ensures |h| == SECTION_HEADER * |sections|
  {
    if |sections| == 0 then []
    else sections[0].Header(at) + Headers(sections[1..], at + |sections[0].Raw()|)
  }

  /** What precedes the section table: the DOS header and its stub, a gap, the signature, the
      COFF header and the optional header. */
  datatype Prologue = Prologue(
    stub: seq<Byte>, gap: seq<Byte>, machine: seq<Byte>, symbols: seq<Byte>, characteristics: seq<Byte>,
    optional: seq<Byte>)
  {
    predicate Valid() {
      && |stub| == 58 && |machine| == 2 && |symbols| == 12 && |characteristics| == 2
      && DOS_HEADER + |gap| < LIMIT32
      && |optional| < LIMIT16
    }

    ghost function Dos(): (b: seq<Byte>)
      requires Valid()
      ensures |b| == DOS_HEADER + |gap|
    {
      ['M' as int, 'Z' as int] + stub + Enc32(DOS_HEADER + |gap|) + gap
    }

    ghost function Coff(sections: nat): (b: seq<Byte>)
      requires Valid() && sections <= MAX_SECTIONS
      ensures |b| == 4 + COFF_HEADER
    {
      ['P' as int, 'E' as int, 0, 0] + machine + Enc16(sections) + symbols + Enc16(|optional|) + characteristics
    }

    ghost function Encode(sections: nat): (b: seq<Byte>)
      requires Valid() && sections <= MAX_SECTIONS
      ensures |b| == DOS_HEADER + |gap| + 4 + COFF_HEADER + |optional|
    {
      Dos() + (Coff(sections) + optional)
    }
  }

  predicate Buildable(p: Prologue, sections: seq<Section>) {
    && p.Valid()
    && AllValid(sections)
    && 0 < |sections| <= MAX_SECTIONS
    && DataStart(p, sections) + |Bodies(sections)| < LIMIT32
  }

  function DataStart(p: Prologue, sections: seq<Section>): (at: nat) {
    DOS_HEADER + |p.gap| + 4 + COFF_HEADER + |p.optional| + SECTION_HEADER * |sections|
  }

  ghost function Build(p: Prologue, sections: seq<Section>): (bin: seq<Byte>)
    requires Buildable(p, sections)
  {
    p.Encode(|sections|) + (Headers(sections, DataStart(p, sections)) + Bodies(sections))
  }

  lemma DosFields(p: Prologue, rest: seq<Byte>)
    requires p.Valid()
    ensures var bin := p.Dos() + rest;
            bin[..2] == ['M' as int, 'Z' as int] && Le32(bin, LFANEW) == DOS_HEADER + |p.gap|
  {
    var bin := p.Dos() + rest;
    assert bin[60..64] == Enc32(DOS_HEADER + |p.gap|);
    Le32Slice(bin, 60);
  }

  lemma CoffFields(p: Prologue, sections: nat, dos: seq<Byte>, rest: seq<Byte>)
    requires p.Valid() && sections <= MAX_SECTIONS
    ensures var bin := dos + (p.Coff(sections) + rest);
            && bin[|dos|..|dos| + 4] == ['P' as int, 'E' as int, 0, 0]
            && Le16(bin, |dos| + 6) == sections
            && Le16(bin, |dos| + 20) == |p.optional|
  {
    var bin := dos + (p.Coff(sections) + rest);
    assert bin[|dos| + 6..|dos| + 8] == Enc16(sections);
    assert bin[|dos| + 20..|dos| + 22] == Enc16(|p.optional|);
    Le16Slice(bin, |dos| + 6);
    Le16Slice(bin, |dos| + 20);
  }

  lemma PrologueFields(p: Prologue, sections: nat, rest: seq<Byte>)
    requires p.Valid() && 0 < sections <= MAX_SECTIONS && |rest| >= SECTION_HEADER * sections
    ensures var bin := p.Encode(sections) + rest;
            HeadersWellFormed(bin) && TableOffset(bin) == |p.Encode(sections)| && SectionCount(bin) == sections
  {
    var bin := p.Encode(sections) + rest;
    var tail := p.Coff(sections) + (p.optional + rest);
    assert bin == p.Dos() + tail;
    DosFields(p, tail);
    CoffFields(p, sections, p.Dos(), p.optional + rest);
  }

  // One header of the table and the raw data it points at.

  lemma {:induction false} AllValidAt(sections: seq<Section>, i: nat)
    requires AllValid(sections) && i < |sections|
    ensures sections[i].Valid()
  {
    if i > 0 {
      AllValidAt(sections[1..], i - 1);
    }
  }

  lemma {:induction false} BodiesSplit(sections: seq<Section>, i: nat)
    requires i < |sections|
    ensures Bodies(sections) == Bodies(sections[..i]) + (sections[i].Raw() + Bodies(sections[i + 1..]))
  {
    if i > 0 {
      BodiesSplit(sections[1..], i - 1);
      assert sections[1..][..i - 1] == sections[..i][1..];
      assert sections[1..][i..] == sections[i + 1..];
      Assoc(sections[0].Raw(), Bodies(sections[..i][1..]), sections[i].Raw() + Bodies(sections[i + 1..]));
    } else {
      assert Bodies(sections[..0]) == [];
    }
  }

  lemma SectionFits(sections: seq<Section>, at: nat, i: nat)
    requires AllValid(sections) && at + |Bodies(sections)| < LIMIT32 && i < |sections|
    ensures sections[i].Valid() && at + |Bodies(sections[..i])| + |sections[i].Raw()| < LIMIT32
  {
    AllValidAt(sections, i);
    BodiesSplit(sections, i);
  }

  lemma {:induction false} HeaderAt(sections: seq<Section>, at: nat, i: nat, k: nat, s: Section, start: nat)
    requires AllValid(sections) && at + |Bodies(sections)| < LIMIT32 && i < |sections| && k == SECTION_HEADER * i
    requires s == sections[i] && start == at + |Bodies(sections[..i])|
    ensures s.Valid() && start + |s.Raw()| < LIMIT32 && k + SECTION_HEADER <= |Headers(sections, at)|
    ensures Headers(sections, at)[k..k + SECTION_HEADER] == s.Header(start)
  {
    SectionFits(sections, at, i);
    if i == 0 {
      HeaderFirst(sections, at);
      assert start == at;
    } else {
      var later, next, before := sections[1..], at + |sections[0].Raw()|, k - SECTION_HEADER;
      HeaderLater(sections, at, i, later, next, before);
      HeaderAt(later, next, i - 1, before, s, start);
      assert SECTION_HEADER + before == k;
    }
  }

  lemma HeaderFirst(sections: seq<Section>, at: nat)
    requires AllValid(sections) && at + |Bodies(sections)| < LIMIT32 && 0 < |sections|
    ensures sections[0].Valid() && |Bodies(sections[..0])| == 0 && |sections[0].Raw()| <= |Bodies(sections)|
    ensures Headers(sections, at)[0..SECTION_HEADER] == sections[0].Header(at)
  {
    AllValidAt(sections, 0);
    assert Bodies(sections[..0]) == [];
  }

  lemma {:induction false} HeaderLater(sections: seq<Section>, at: nat, i: nat, later: seq<Section>, next: nat, k: nat)
    requires AllValid(sections) && at + |Bodies(sections)| < LIMIT32 && 0 < i < |sections|
    requires later == sections[1..] && next == at + |sections[0].Raw()| && k == SECTION_HEADER * (i - 1)
    ensures AllValid(later) && next + |Bodies(later)| < LIMIT32
    ensures next + |Bodies(later[..i - 1])| == at + |Bodies(sections[..i])|
    ensures k + SECTION_HEADER <= |Headers(later, next)|
    ensures |Headers(sections, at)| == SECTION_HEADER + |Headers(later, next)|
    ensures Headers(sections, at)[SECTION_HEADER + k..SECTION_HEADER + k + SECTION_HEADER]
            == Headers(later, next)[k..k + SECTION_HEADER]
  {
    BodiesBefore(sections, i);
    TailFits(sections, at);
    var first := HeadersSplit(sections, at, later, next);
    Later(first, Headers(later, next), k, SECTION_HEADER);
  }

  lemma TailFits(sections: seq<Section>, at: nat)
    requires AllValid(sections) && at + |Bodies(sections)| < LIMIT32 && 0 < |sections|
    ensures AllValid(sections[1..]) && at + |sections[0].Raw()| + |Bodies(sections[1..])| < LIMIT32
  {
  }

  lemma HeadersSplit(sections: seq<Section>, at: nat, later: seq<Section>, next: nat) returns (first: seq<Byte>)
    requires AllValid(sections) && at + |Bodies(sections)| < LIMIT32 && 0 < |sections|
    requires later == sections[1..] && next == at + |sections[0].Raw()|
    requires AllValid(later) && next + |Bodies(later)| < LIMIT32
    ensures |first| == SECTION_HEADER && Headers(sections, at) == first + Headers(later, next)
  {
    first := sections[0].Header(at);
  }

  lemma BodyAt(sections: seq<Section>, i: nat)
    requires i < |sections|
    ensures var at := |Bodies(sections[..i])|;
            at + |sections[i].Raw()| <= |Bodies(sections)|
            && Bodies(sections)[at..at + |sections[i].Raw()|] == sections[i].Raw()
  {
    BodiesSplit(sections, i);
    Between(Bodies(sections[..i]), sections[i].Raw(), Bodies(sections[i + 1..]));
  }

  lemma Between(a: seq<Byte>, b: seq<Byte>, c: seq<Byte>)
    ensures (a + (b + c))[|a|..|a| + |b|] == b
  {
  }

  lemma BodiesBefore(sections: seq<Section>, i: nat)
    requires 0 < i < |sections|
    ensures |Bodies(sections[..i])| == |sections[0].Raw()| + |Bodies(sections[1..][..i - 1])|
  {
    assert sections[1..][..i - 1] == sections[..i][1..];
  }

  lemma Later(a: seq<Byte>, b: seq<Byte>, k: nat, n: nat)
    requires k + n <= |b|
    ensures (a + b)[|a| + k..|a| + k + n] == b[k..k + n]
  {
  }

  /** What a header says when it stands in a file. */
  lemma HeaderFields(s: Section, at: nat, bin: seq<Byte>, h: nat)
    requires s.Valid() && at < LIMIT32 && |s.Raw()| < LIMIT32 && h + SECTION_HEADER <= |bin|
    requires bin[h..h + SECTION_HEADER] == s.Header(at)
    ensures bin[h..h + NAME_BYTES] == Padded(s.name)
    ensures Le32(bin, h + 8) == |s.data| && Le32(bin, h + 16) == |s.Raw()| && Le32(bin, h + 20) == at
  {
    var header := s.Header(at);
    assert header[..8] == Padded(s.name) && header[8..12] == Enc32(|s.data|);
    assert header[16..20] == Enc32(|s.Raw()|) && header[20..24] == Enc32(at);
    SubSlice(bin, h, header, 0, 8);
    SubSlice(bin, h, header, 8, 12);
    SubSlice(bin, h, header, 16, 20);
    SubSlice(bin, h, header, 20, 24);
    Le32Slice(bin, h + 8);
    Le32Slice(bin, h + 16);
    Le32Slice(bin, h + 20);
  }

  lemma SubSlice(bin: seq<Byte>, h: nat, part: seq<Byte>, i: nat, j: nat)
    requires h + |part| <= |bin| && bin[h..h + |part|] == part && i <= j <= |part|
    ensures bin[h + i..h + j] == part[i..j]
  {
    forall k | 0 <= k < j - i
      ensures bin[h + i..h + j][k] == part[i..j][k]
    {
      assert bin[h..h + |part|][i + k] == part[i + k];
    }
  }

  /** Two C strings of at most eight bytes leave the same field only when they are equal. */
  lemma PaddedDistinct(a: seq<Byte>, b: seq<Byte>)
    requires |a| <= NAME_BYTES && |b| <= NAME_BYTES && 0 !in a && 0 !in b && a != b
    ensures Padded(a) != Padded(b)
  {
    if |a| == |b| {
      assert a == Padded(a)[..|a|] && b == Padded(b)[..|b|];
    } else {
      var i := if |a| < |b| then |a| else |b|;
      assert (Padded(a)[i] == 0) != (Padded(b)[i] == 0);
    }
  }

  /** The header at `h` names the section and locates its raw data. */
  predicate Describes(bin: seq<Byte>, h: nat, s: Section) {
    && s.Valid()
    && h + SECTION_HEADER <= |bin|
    && bin[h..h + NAME_BYTES] == Padded(s.name)
    && Le32(bin, h + 8) == |s.data| && Le32(bin, h + 16) == |s.Raw()|
    && Le32(bin, h + 20) + |s.Raw()| <= |bin|
    && bin[Le32(bin, h + 20)..Le32(bin, h + 20) + |s.Raw()|] == s.Raw()
  }

  lemma DescribedIn(
      bin: seq<Byte>, h: nat, s: Section, pre: seq<Byte>, headers: seq<Byte>, bodies: seq<Byte>, k: nat, at: nat)
    requires bin == pre + (headers + bodies) && h == |pre| + k
    requires s.Valid() && k + SECTION_HEADER <= |headers| && at + |s.Raw()| <= |bodies|
    requires |pre| + |headers| + |bodies| < LIMIT32
    requires headers[k..k + SECTION_HEADER] == s.Header(|pre| + |headers| + at)
    requires bodies[at..at + |s.Raw()|] == s.Raw()
    ensures Describes(bin, h, s)
  {
    var start := |pre| + |headers| + at;
    assert bin[h..h + SECTION_HEADER] == headers[k..k + SECTION_HEADER];
    assert bin[start..start + |s.Raw()|] == bodies[at..at + |s.Raw()|];
    HeaderFields(s, start, bin, h);
  }

  /** The parts of a built image. */
  lemma {:induction false} BuiltParts(bin: seq<Byte>, p: Prologue, sections: seq<Section>)
    returns (pre: seq<Byte>, headers: seq<Byte>, bodies: seq<Byte>)
    requires Buildable(p, sections) && bin == Build(p, sections)
    ensures pre == p.Encode(|sections|) && headers == Headers(sections, DataStart(p, sections))
    ensures bodies == Bodies(sections) && bin == pre + (headers + bodies)
    ensures |pre| + |headers| == DataStart(p, sections) && |pre| + |headers| + |bodies| < LIMIT32
  {
    pre, headers, bodies := p.Encode(|sections|), Headers(sections, DataStart(p, sections)), Bodies(sections);
  }

  /** Header `i` of a built image describes section `i`. */
  lemma {:induction false} BuiltSection(bin: seq<Byte>, h: nat, s: Section, p: Prologue, sections: seq<Section>, i: nat)
    requires Buildable(p, sections) && i < |sections| && s == sections[i]
    requires bin == Build(p, sections) && h == |p.Encode(|sections|)| + SECTION_HEADER * i
    ensures Describes(bin, h, s)
  {
    var pre, headers, bodies := BuiltParts(bin, p, sections);
    var at, offset, k := DataStart(p, sections), |Bodies(sections[..i])|, SECTION_HEADER * i;
    HeaderAt(sections, at, i, k, s, at + offset);
    BodyAt(sections, i);
    DescribedIn(bin, h, s, pre, headers, bodies, k, offset);
  }

  /** A header carries the name of its section only. */
  lemma DescribedNamed(bin: seq<Byte>, table: nat, i: nat, s: Section, name: seq<Byte>)
    requires Describes(bin, table + SECTION_HEADER * i, s) && |name| <= NAME_BYTES && 0 !in name
    ensures Named(bin, table, i, name) <==> s.name == name
  {
    if s.name != name {
      PaddedDistinct(s.name, name);
    }
  }

  lemma BuiltHeaders(bin: seq<Byte>, p: Prologue, sections: seq<Section>)
    requires Buildable(p, sections) && bin == Build(p, sections)
    ensures HeadersWellFormed(bin) && TableOffset(bin) == |p.Encode(|sections|)| && SectionCount(bin) == |sections|
  {
    PrologueFields(p, |sections|, Headers(sections, DataStart(p, sections)) + Bodies(sections));
  }

  /** The table of a described image is searched like the list of its sections. */
  lemma FirstDescribed(bin: seq<Byte>, table: nat, sections: seq<Section>, k: nat, name: seq<Byte>)
    requires table + SECTION_HEADER * |sections| <= |bin| && |name| <= NAME_BYTES && 0 !in name
    requires forall j :: 0 <= j < |sections| ==> Describes(bin, table + SECTION_HEADER * j, sections[j])
    requires k <= |sections| && (k < |sections| ==> sections[k].name == name)
    requires forall j :: 0 <= j < k ==> sections[j].name != name
    ensures FirstNamed(bin, table, |sections|, name, 0) == k
  {
    forall j | 0 <= j < |sections|
      ensures Named(bin, table, j, name) <==> sections[j].name == name
    {
      DescribedNamed(bin, table, j, sections[j], name);
    }
    FirstNamedIsLeast(bin, table, |sections|, name, 0, k);
  }

  /** A built image has the section exactly when its list does, and finds the first of the name. */
  lemma BuiltFirst(bin: seq<Byte>, p: Prologue, sections: seq<Section>, k: nat, name: seq<Byte>)
    requires Buildable(p, sections) && bin == Build(p, sections)
    requires k <= |sections| && 0 < |name| <= NAME_BYTES && 0 !in name
    requires k < |sections| ==> sections[k].name == name
    requires forall j :: 0 <= j < k ==> sections[j].name != name
    ensures HasSection(bin, name) == (k < |sections|)
    ensures k < |sections| ==> Describes(bin, MatchingHeader(bin, name), sections[k])
  {
    BuiltHeaders(bin, p, sections);
    var table := TableOffset(bin);
    BuiltTable(bin, table, p, sections);
    FoundFirst(bin, table, sections, k, name);
  }

  lemma FoundFirst(bin: seq<Byte>, table: nat, sections: seq<Section>, k: nat, name: seq<Byte>)
    requires HeadersWellFormed(bin) && TableOffset(bin) == table && SectionCount(bin) == |sections|
    requires forall j :: 0 <= j < |sections| ==> Describes(bin, table + SECTION_HEADER * j, sections[j])
    requires k <= |sections| && 0 < |name| <= NAME_BYTES && 0 !in name
    requires k < |sections| ==> sections[k].name == name
    requires forall j :: 0 <= j < k ==> sections[j].name != name
    ensures HasSection(bin, name) == (k < |sections|)
    ensures k < |sections| ==> Describes(bin, MatchingHeader(bin, name), sections[k])
  {
    FirstDescribed(bin, table, sections, k, name);
  }

  lemma BuiltTable(bin: seq<Byte>, table: nat, p: Prologue, sections: seq<Section>)
    requires Buildable(p, sections) && bin == Build(p, sections) && table == |p.Encode(|sections|)|
    ensures forall j :: 0 <= j < |sections| ==> Describes(bin, table + SECTION_HEADER * j, sections[j])
  {
    forall j | 0 <= j < |sections|
      ensures Describes(bin, table + SECTION_HEADER * j, sections[j])
    {
      BuiltSection(bin, table + SECTION_HEADER * j, sections[j], p, sections, j);
    }
  }

  lemma DescribedPayload(bin: seq<Byte>, h: nat, s: Section, room: nat)
    requires Describes(bin, h, s) && 0 < |s.data| <= room
    ensures InFile(bin, h, room) && Payload(bin, h) == s.data
  {
    SubSlice(bin, Le32(bin, h + 20), s.Raw(), 0, |s.data|);
    assert s.Raw()[..|s.data|] == s.data;
  }

  /** Building an image and extracting a section gives back its payload, without the padding. */
  lemma BuildThenExtract(p: Prologue, sections: seq<Section>, i: nat, room: nat)
    requires Buildable(p, sections) && i < |sections|
    requires forall j :: 0 <= j < i ==> sections[j].name != sections[i].name
    requires 0 < |sections[i].data| <= room
    ensures var bin, name := Build(p, sections), sections[i].name;
            Extractable(bin, name, room) && Payload(bin, MatchingHeader(bin, name)) == sections[i].data
  {
    var bin, name := Build(p, sections), sections[i].name;
    AllValidAt(sections, i);
    BuiltFirst(bin, p, sections, i, name);
    DescribedPayload(bin, MatchingHeader(bin, name), sections[i], room);
  }

  /** A name that no section carries is not found. */
  lemma BuildWithout(p: Prologue, sections: seq<Section>, name: seq<Byte>, room: nat)
    requires Buildable(p, sections) && 0 < |name| <= NAME_BYTES && 0 !in name
    requires forall s <- sections :: s.name != name
    ensures !Extractable(Build(p, sections), name, room)
  {
    BuiltFirst(Build(p, sections), p, sections, |sections|, name);
  }
}
