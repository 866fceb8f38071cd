/** Boot entries and the boot order (src/efi_boot_parsers.c) against an encoder of
    EFI_LOAD_OPTION (section 3.1.3 of the UEFI Specification 2.10). */
module BootEntry {
  import opened CText
  import opened Bytes
  import opened DevicePath

  const VARIABLE_ATTRIBUTES: nat := 4
  const DESCRIPTION_SIZE: nat := 128
  const FILEPATH_SIZE: nat := 256
  const MAX_ENTRIES: nat := 32

  /** `bythos_efi_boot_entry_t`. */
  datatype Entry = Entry(number: nat, active: bool, kind: BootType, description: string, filepath: string)

  // Classification by description.

  function LowerChar(c: char): (l: char) {
    if 'A' <= c <= 'Z' then c - 'A' + 'a' else c
  }

  function Lower(s: string): (l: string)
    ensures |l| == |s|
  {
    if |s| == 0 then [] else [LowerChar(s[0])] + Lower(s[1..])
  }

  /** `bythos_to_lower_ascii`. */
  method ToLowerAscii(src: string, dstSize: nat) returns (dst: string)
    ensures dst == if dstSize == 0 then "" else Lower(Prefix(src, dstSize - 1))
  {
    dst := "";
    if dstSize == 0 {
      return;
    }
    ghost var kept := Prefix(src, dstSize - 1);
    while |dst| < |src| && |dst| + 1 < dstSize
      invariant |dst| <= |kept| && dst + Lower(kept[|dst|..]) == Lower(kept)
    {
      var c := LowerChar(src[|dst|]);
      assert kept[|dst|..][1..] == kept[|dst| + 1..];
      Assoc(dst, [c], Lower(kept[|dst| + 1..]));
      dst := dst + [c];
    }
  }

  /** Whether `strstr` finds one of the words. */
  ghost predicate Mentions(text: string, words: seq<string>) {
    exists i :: 0 <= i < |words| && words[i] != [] && Contains(text, words[i])
  }

  const USB_WORDS: seq<string> := ["usb", "removable"]
  const NETWORK_WORDS: seq<string> := ["network", "pxe", "ipv4", "ipv6", "lan"]
  const CD_WORDS: seq<string> := ["cd", "dvd"]

  ghost function DescriptionType(description: string): (t: BootType) {
    var lower := Lower(description);
    if Mentions(lower, USB_WORDS) then USB
    else if Mentions(lower, NETWORK_WORDS) then NETWORK
    else if Mentions(lower, CD_WORDS) then CD
    else UNKNOWN
  }

  /** The chain of `strstr` calls over one group of words. */
  method MentionsAny(text: string, words: seq<string>) returns (found: bool)
    requires [] !in words
    ensures found == Mentions(text, words)
  {
    for i := 0 to |words|
      invariant forall j :: 0 <= j < i ==> !Contains(text, words[j])
    {
      assert words[i] in words;
      var at := Search(text, words[i], 0);
      if at < |text| {
        return true;
      }
    }
    return false;
  }

  /** `classify_description`. */
  method ClassifyDescription(description: string) returns (t: BootType)
    requires |description| < DESCRIPTION_SIZE
    ensures t == DescriptionType(description)
  {
    assert Prefix(description, DESCRIPTION_SIZE - 1) == description;
    var lower := ToLowerAscii(description, DESCRIPTION_SIZE);
    var usb := MentionsAny(lower, USB_WORDS);
    if usb {
      return USB;
    }
    var network := MentionsAny(lower, NETWORK_WORDS);
    if network {
      return NETWORK;
    }
    var cd := MentionsAny(lower, CD_WORDS);
    return if cd then CD else UNKNOWN;
  }

  // Parsing an entry.

  /** The number of units before the first zero unit, or of all whole units. */
  function UnitCount(d: seq<Byte>): (n: nat)
    ensures 2 * n <= |d|
  {
    if |d| < 2 || Le16(d, 0) == 0 then 0 else 1 + UnitCount(d[2..])
  }

  /** The search for the terminator of the description. */
  method FindTerminator(d: seq<Byte>) returns (end: nat, terminated: bool)
    ensures end == 2 * UnitCount(d)
    ensures terminated <==> end + 2 <= |d|
  {
    end := 0;
    var i := 0;
    while i + 1 < |d|
      invariant i == end && i <= |d|
      invariant i + 2 * UnitCount(d[i..]) == 2 * UnitCount(d)
    {
      if Low(d[i]) == 0 && Low(d[i + 1]) == 0 {
        return i, true;
      }
      assert d[i..][2..] == d[i + 2..];
      end := i + 2;
      i := i + 2;
    }
    return end, false;
  }

  /** The device path of a terminated description: what the option claims, as far as it is there. */
  function PathBytes(data: seq<Byte>): (dp: seq<Byte>)
    requires |data| >= 12
  {
    var start := 10 + 2 * UnitCount(data[10..]) + 2;
    if start < |data| then Prefix(data[start..], Le16(data, 8)) else []
  }

  ghost function Parsed(data: seq<Byte>, number: nat): (entry: Entry)
    requires |data| >= 12
  {
    var description := Ascii(data[10..10 + 2 * UnitCount(data[10..])], DESCRIPTION_SIZE - 1);
    var kind := Classify(PathBytes(data));
    Entry(number, Le32(data, 4) % 2 == 1,
          if kind == UNKNOWN then DescriptionType(description) else kind,
          description, Prefix(Segments(PathBytes(data)), FILEPATH_SIZE - 1))
  }

  /** The device path part of an entry, behind a description of `end` bytes. */
  method ParsePath(data: seq<Byte>, end: nat, terminated: bool) returns (kind: BootType, filepath: string)
    requires |data| >= 12
    requires end == 2 * UnitCount(data[10..]) && (terminated <==> 10 + end + 2 <= |data|)
    ensures kind == Classify(PathBytes(data)) && filepath == Prefix(Segments(PathBytes(data)), FILEPATH_SIZE - 1)
  {
    kind, filepath := UNKNOWN, "";
    var remaining: nat := |data| - VARIABLE_ATTRIBUTES;
    var listLength := Le16(data, VARIABLE_ATTRIBUTES + 4);
    if terminated && listLength > 0 {
      var offset := 6 + end + 2;
      if offset < remaining {
        var available: nat := remaining - offset;
        if available > listLength {
          available := listLength;
        }
        var dp := data[VARIABLE_ATTRIBUTES + offset..VARIABLE_ATTRIBUTES + offset + available];
        assert dp == PathBytes(data);
        kind := ClassifyDevicePath(dp);
        filepath := ExtractFilePath(dp, FILEPATH_SIZE);
      }
    }
  }

  /** The description part of an entry. */
  method ParseDescription(data: seq<Byte>) returns (description: string, end: nat, terminated: bool)
    requires |data| >= 12
    ensures end == 2 * UnitCount(data[10..]) && (terminated <==> 10 + end + 2 <= |data|)
    ensures description == Ascii(data[10..10 + end], DESCRIPTION_SIZE - 1)
  {
    end, terminated := FindTerminator(data[VARIABLE_ATTRIBUTES + 6..]);
    description := Utf16ToAscii(data[10..10 + end], DESCRIPTION_SIZE);
  }

  /** The fields of an entry that is long enough. */
  method FillEntry(data: seq<Byte>, number: nat) returns (entry: Entry)
    requires |data| >= 12
    ensures entry == Parsed(data, number)
  {
    var active := Le32(data, VARIABLE_ATTRIBUTES) % 2 == 1;
    var description, end, terminated := ParseDescription(data);
    var kind, filepath := ParsePath(data, end, terminated);
    if kind == UNKNOWN {
      kind := ClassifyDescription(description);
    }
    return Entry(number, active, kind, description, filepath);
  }

  /** `bythos_parse_efi_boot_entry`. A null pointer is the empty variable. */
  method ParseEntry(data: seq<Byte>, number: nat) returns (ok: bool, entry: Entry)
    ensures ok == (|data| >= 12)
    ensures ok ==> entry == Parsed(data, number)
    ensures !ok ==> entry == Entry(number, false, UNKNOWN, "", "")
  {
    if |data| < 12 {
      return false, Entry(number, false, UNKNOWN, "", "");
    }
    entry := FillEntry(data, number);
    return true, entry;
  }

  /** A nonempty file path means that the device path decided the type, whatever the description. */
  lemma FilePathDecides(data: seq<Byte>, number: nat)
    requires |data| >= 12 && Parsed(data, number).filepath != ""
    ensures Parsed(data, number).kind == Classify(PathBytes(data)) != UNKNOWN
  {
    PathDecides(PathBytes(data));
  }

  // The load option as firmware writes it.

  datatype LoadOption = LoadOption(
    attributes: nat, description: seq<Unit>, path: seq<Node>, morePaths: seq<Byte>, optionalData: seq<Byte>)
  {
    ghost predicate Valid() {
      && attributes < LIMIT32
      && AllValid(path)
      && |EncodePath(path) + morePaths| < LIMIT16
    }

    /** The variable: its attributes and the EFI_LOAD_OPTION. */
    ghost function Encode(variable: seq<Byte>): (b: seq<Byte>)
      requires Valid() && |variable| == VARIABLE_ATTRIBUTES
    {
      var paths := EncodePath(path) + morePaths;
      variable + Enc32(attributes) + Enc16(|paths|) + (EncodeUnits(description) + ([0, 0] + (paths + optionalData)))
    }
  }

  lemma OptionLayout(variable: seq<Byte>, attributes: seq<Byte>, length: seq<Byte>, tail: seq<Byte>)
    requires |variable| == VARIABLE_ATTRIBUTES && |attributes| == 4 && |length| == 2
    ensures var b := variable + attributes + length + tail;
            Le32(b, 4) == Le32(attributes, 0) && Le16(b, 8) == Le16(length, 0) && b[10..] == tail
  {
  }

  lemma {:induction false} UnitCountEncoded(units: seq<Unit>, rest: seq<Byte>)
    requires |rest| < 2 || Le16(rest, 0) == 0
    ensures UnitCount(EncodeUnits(units) + rest) == |units|
  {
    if |units| == 0 {
      assert EncodeUnits(units) + rest == rest;
    } else {
      UnitsTail(Enc16(units[0]), EncodeUnits(units[1..]), rest);
      UnitCountEncoded(units[1..], rest);
    }
  }

  lemma DescriptionEncoded(units: seq<Unit>, paths: seq<Byte>, room: nat)
    ensures var d := EncodeUnits(units) + ([0, 0] + paths);
            && UnitCount(d) == |units|
            && Ascii(d[..2 * |units|], room) == Prefix(AsciiText(units), room)
            && d[2 * |units| + 2..] == paths
  {
    UnitCountEncoded(units, [0, 0] + paths);
    AsciiAlone(units, room);
    Behind(EncodeUnits(units), [0, 0], paths);
  }

  lemma AsciiAlone(units: seq<Unit>, room: nat)
    ensures Ascii(EncodeUnits(units), room) == Prefix(AsciiText(units), room)
  {
    AsciiOfUnits(units, [], room);
    assert EncodeUnits(units) + [] == EncodeUnits(units);
  }

  lemma Behind(a: seq<Byte>, b: seq<Byte>, c: seq<Byte>)
    ensures (a + (b + c))[..|a|] == a && (a + (b + c))[|a| + |b|..] == c
  {
  }

  lemma PathBytesEncoded(b: seq<Byte>, d: seq<Byte>, units: seq<Unit>, paths: seq<Byte>, optionalData: seq<Byte>)
    requires |b| >= 12 && b[10..] == d && d == EncodeUnits(units) + ([0, 0] + (paths + optionalData))
    requires 0 < |paths| < LIMIT16 && Le16(b, 8) == |paths|
    ensures PathBytes(b) == paths
  {
    var start := 2 * |units| + 2;
    DescriptionEncoded(units, paths + optionalData, 0);
    assert b[10 + start..] == d[start..];
    assert (paths + optionalData)[..|paths|] == paths;
  }

  /** The type a load option should have: that of the first recognised node of its path, or of the
      description kept when there is none. */
  ghost function Promised(o: LoadOption): (t: BootType) {
    if FirstType(o.path) != UNKNOWN then FirstType(o.path)
    else DescriptionType(Prefix(AsciiText(o.description), DESCRIPTION_SIZE - 1))
  }

  /** Writing a load option and parsing it returns its active bit, the start of its description, the
      start of the concatenated file path, and its type, exactly unless a short node of the path is
      misread as another one. */
  lemma LoadOptionRoundTrip(o: LoadOption, variable: seq<Byte>, number: nat)
    requires o.Valid() && |variable| == VARIABLE_ATTRIBUTES
    ensures |o.Encode(variable)| >= 12
    ensures var e := Parsed(o.Encode(variable), number);
            && e.number == number
            && e.active == (o.attributes % 2 == 1)
            && e.description == Prefix(AsciiText(o.description), DESCRIPTION_SIZE - 1)
            && e.filepath == Prefix(SegmentText(o.path), FILEPATH_SIZE - 1)
            && e.kind == (if MisreadIn(o.path) != UNKNOWN then MisreadIn(o.path) else Promised(o))
            && (e.kind == Promised(o) <==> MisreadIn(o.path) == UNKNOWN || MisreadIn(o.path) == Promised(o))
  {
    var paths := EncodePath(o.path) + o.morePaths;
    var head := variable + Enc32(o.attributes) + Enc16(|paths|);
    var tail := EncodeUnits(o.description) + ([0, 0] + (paths + o.optionalData));
    OptionLayout(variable, Enc32(o.attributes), Enc16(|paths|), []);
    assert head + [] == head;
    OptionLayout(variable, Enc32(o.attributes), Enc16(|paths|), tail);
    DescriptionEncoded(o.description, paths + o.optionalData, DESCRIPTION_SIZE - 1);
    PathBytesEncoded(head + tail, tail, o.description, paths, o.optionalData);
    WalkersOnEncoded(o.path, o.morePaths);
    SliceOfTail(head + tail, tail, 2 * |o.description|);
  }

  /** With complete nodes only, the type is the promised one. */
  lemma CompleteRoundTrip(o: LoadOption, variable: seq<Byte>, number: nat)
    requires o.Valid() && |variable| == VARIABLE_ATTRIBUTES && forall n <- o.path :: Whole(n)
    ensures |o.Encode(variable)| >= 12 && Parsed(o.Encode(variable), number).kind == Promised(o)
  {
    LoadOptionRoundTrip(o, variable, number);
    CompleteIsFirst(o.path);
  }

  lemma SliceOfTail(b: seq<Byte>, tail: seq<Byte>, n: nat)
    requires |b| >= 10 && b[10..] == tail && n <= |tail|
    ensures b[10..10 + n] == tail[..n]
  {
  }

  // BootOrder and BootNext.

  /** `bythos_efi_boot_order_t`: `order` holds the entries in use. */
  datatype BootOrder = BootOrder(order: seq<nat>, truncated: bool)

  /** `bythos_parse_efi_boot_order`. */
  method ParseOrder(data: seq<Byte>) returns (ok: bool, order: BootOrder)
    ensures ok == (|data| >= 6)
    ensures ok ==> order.truncated == ((|data| - 4) / 2 > MAX_ENTRIES)
    ensures ok ==> |order.order| == if order.truncated then MAX_ENTRIES else (|data| - 4) / 2
    ensures ok ==> forall i :: 0 <= i < |order.order| ==> order.order[i] == Le16(data, 4 + 2 * i)
    ensures !ok ==> order == BootOrder([], false)
  {
    order := BootOrder([], false);
    if |data| < 6 {
      return false, order;
    }
    var count := (|data| - VARIABLE_ATTRIBUTES) / 2;
    var truncated := false;
    if count > MAX_ENTRIES {
      count := MAX_ENTRIES;
      truncated := true;
    }
    var ids: seq<nat> := [];
    for i := 0 to count
      invariant |ids| == i
      invariant forall j :: 0 <= j < i ==> ids[j] == Le16(data, 4 + 2 * j)
    {
      ids := ids + [Le16(data, 4 + 2 * i)];
    }
    return true, BootOrder(ids, truncated);
  }

  /** A BootNext variable as it is written: the attributes and one entry number. */
  ghost function NextVariable(variable: seq<Byte>, number: nat, more: seq<Byte>): (b: seq<Byte>)
    requires |variable| == VARIABLE_ATTRIBUTES && number < LIMIT16
  {
    variable + Enc16(number) + more
  }

  /** `bythos_parse_efi_boot_next`: exactly the number that was written is read, whatever follows. */
  method ParseNext(data: seq<Byte>) returns (ok: bool, number: nat)
    ensures ok == (|data| >= 6)
    ensures ok ==> number < LIMIT16
    ensures forall variable: seq<Byte>, n: nat, more: seq<Byte> ::
              |variable| == VARIABLE_ATTRIBUTES && n < LIMIT16 && data == NextVariable(variable, n, more) ==>
              ok && number == n
    ensures ok && IsBytes(data) ==> data == NextVariable(data[..4], number, data[6..])
  {
    if |data| < VARIABLE_ATTRIBUTES + 2 {
      return false, 0;
    }
    return true, Le16(data, VARIABLE_ATTRIBUTES);
  }
}
