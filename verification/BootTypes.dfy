/** What boots from what: the nodes of section 10.3 of the UEFI Specification 2.10 by their own codes,
    the words of a description, and the type that a written load option gets from them
    (src/efi_boot_parsers.c). */
module BootTypes {
  import opened CText
  import opened Bytes
  import opened DevicePath
  import opened BootEntry

  /** A node that names a medium, with whatever its payload holds behind the device type. */
  datatype MediumNode =
    | HardDrive(data: seq<Byte>)
    | CdRom(data: seq<Byte>)
    | FilePath(data: seq<Byte>)
    | Usb(data: seq<Byte>)
    | UsbClass(data: seq<Byte>)
    | UsbWwid(data: seq<Byte>)
    | MacAddress(data: seq<Byte>)
    | Ipv4(data: seq<Byte>)
    | Ipv6(data: seq<Byte>)
    | InfiniBand(data: seq<Byte>)
    | Uri(data: seq<Byte>)
    | BbsHardDrive(data: seq<Byte>)
    | BbsCdRom(data: seq<Byte>)
    | BbsUsb(data: seq<Byte>)
    | BbsEmbeddedNetwork(data: seq<Byte>)
    | BbsBev(data: seq<Byte>)
  {
    /** The node: its type, its subtype and its payload. */
    ghost function Written(): (n: Node) {
      match this
      case HardDrive(data) => Node(4, 1, data)
      case CdRom(data) => Node(4, 2, data)
      case FilePath(data) => Node(4, 4, data)
      case Usb(data) => Node(3, 5, data)
      case UsbClass(data) => Node(3, 15, data)
      case UsbWwid(data) => Node(3, 16, data)
      case MacAddress(data) => Node(3, 11, data)
      case Ipv4(data) => Node(3, 12, data)
      case Ipv6(data) => Node(3, 13, data)
      case InfiniBand(data) => Node(3, 9, data)
      case Uri(data) => Node(3, 24, data)
      case BbsHardDrive(data) => Node(5, 1, Enc16(2) + data)
      case BbsCdRom(data) => Node(5, 1, Enc16(3) + data)
      case BbsUsb(data) => Node(5, 1, Enc16(5) + data)
      case BbsEmbeddedNetwork(data) => Node(5, 1, Enc16(6) + data)
      case BbsBev(data) => Node(5, 1, Enc16(0x80) + data)
    }

    function Medium(): (t: BootType) {
      match this
      case HardDrive(_) => DISK
      case CdRom(_) => CD
      case FilePath(_) => DISK
      case Usb(_) => USB
      case UsbClass(_) => USB
      case UsbWwid(_) => USB
      case MacAddress(_) => NETWORK
      case Ipv4(_) => NETWORK
      case Ipv6(_) => NETWORK
      case InfiniBand(_) => NETWORK
      case Uri(_) => NETWORK
      case BbsHardDrive(_) => DISK
      case BbsCdRom(_) => CD
      case BbsUsb(_) => USB
      case BbsEmbeddedNetwork(_) => NETWORK
      case BbsBev(_) => USB
    }
  }

  /** A node that names no medium: hardware, ACPI, or an ATAPI, SCSI, SATA or NVMe port. */
  predicate Silent(n: Node) {
    || n.kind == 1 || n.kind == 2
    || (n.kind == 3 && (n.sub == 1 || n.sub == 2 || n.sub == 18 || n.sub == 23))
  }

  lemma {:induction false} MediumType(m: MediumNode)
    ensures TypeOf(m.Written()) == m.Medium() != UNKNOWN
  {
    match m
    case BbsHardDrive(data) => FirstWord(2, data);
    case BbsCdRom(data) => FirstWord(3, data);
    case BbsUsb(data) => FirstWord(5, data);
    case BbsEmbeddedNetwork(data) => FirstWord(6, data);
    case BbsBev(data) => FirstWord(0x80, data);
    case _ =>
  }

  lemma {:induction false} FirstWord(n: nat, rest: seq<Byte>)
    requires n < LIMIT16
    ensures |Enc16(n) + rest| >= 2 && Le16(Enc16(n) + rest, 0) == n
  {
  }

  lemma {:induction false} SilentType(n: Node)
    requires Silent(n)
    ensures TypeOf(n) == UNKNOWN && Whole(n)
  {
  }

  /** Behind silent nodes the first node that names a medium decides, whatever follows it. */
  lemma {:induction false} FirstMedium(path: seq<Node>, before: seq<Node>, m: MediumNode, after: seq<Node>)
    requires path == before + ([m.Written()] + after) && forall n <- before :: Silent(n)
    ensures FirstType(path) == m.Medium() && MisreadIn(path) == UNKNOWN
    decreases |before|
  {
    MediumType(m);
    if |before| == 0 {
      assert path[0] == m.Written();
    } else {
      assert before[0] in before && path[0] == before[0];
      SilentType(before[0]);
      FirstMedium(path[1..], before[1..], m, after);
    }
  }

  lemma {:induction false} NoMedium(path: seq<Node>)
    requires forall n <- path :: Silent(n)
    ensures FirstType(path) == UNKNOWN && MisreadIn(path) == UNKNOWN
  {
    if |path| > 0 {
      assert path[0] in path;
      SilentType(path[0]);
      NoMedium(path[1..]);
    }
  }

  /** A written load option has the type of the first node of its path that names a medium. */
  lemma {:induction false} MediumRoundTrip(
      o: LoadOption, before: seq<Node>, m: MediumNode, after: seq<Node>, variable: seq<Byte>, number: nat)
    requires o.Valid() && |variable| == VARIABLE_ATTRIBUTES
    requires o.path == before + ([m.Written()] + after) && forall n <- before :: Silent(n)
    ensures |o.Encode(variable)| >= 12 && Parsed(o.Encode(variable), number).kind == m.Medium() == Promised(o)
  {
    MediumType(m);
    FirstMedium(o.path, before, m, after);
    LoadOptionRoundTrip(o, variable, number);
  }

  // Descriptions.

  /** A letter of a lower-case word, in either case. */
  predicate SameLetter(c: char, w: char) {
    c == w || ('a' <= w <= 'z' && c as int == w as int - 32)
  }

  predicate StandsInAnyCase(text: string, word: string, i: nat) {
    i + |word| <= |text| && forall k :: 0 <= k < |word| ==> SameLetter(text[i + k], word[k])
  }

  /** The word stands in the text, in capitals, in small letters or in both. */
  ghost predicate InAnyCase(text: string, word: string) {
    exists i: nat :: StandsInAnyCase(text, word, i)
  }

  predicate IsLower(word: string) {
    |word| > 0 && forall i :: 0 <= i < |word| ==> 'a' <= word[i] <= 'z' || '0' <= word[i] <= '9'
  }

  lemma {:induction false} LowerAt(s: string, i: nat)
    requires i < |s|
    ensures Lower(s)[i] == LowerChar(s[i])
  {
    if i > 0 {
      LowerAt(s[1..], i - 1);
    }
  }

  lemma {:induction false} LowerLetter(c: char, w: char)
    requires 'a' <= w <= 'z' || '0' <= w <= '9'
    ensures LowerChar(c) == w <==> SameLetter(c, w)
  {
  }

  lemma {:induction false} LowerOccurs(text: string, word: string, i: nat)
    requires IsLower(word)
    ensures OccursAt(Lower(text), word, i) <==> StandsInAnyCase(text, word, i)
  {
    if i + |word| <= |text| {
      var part := Lower(text)[i..i + |word|];
      forall k | 0 <= k < |word|
        ensures part[k] == word[k] <==> SameLetter(text[i + k], word[k])
      {
        LowerAt(text, i + k);
        LowerLetter(text[i + k], word[k]);
      }
      assert part == word <==> forall k :: 0 <= k < |word| ==> part[k] == word[k];
    }
  }

  lemma {:induction false} LowerContains(text: string, word: string)
    requires IsLower(word)
    ensures Contains(Lower(text), word) <==> InAnyCase(text, word)
  {
    var at := IndexOf(Lower(text), word, 0);
    if at < |text| {
      LowerOccurs(text, word, at);
    }
    if i: nat :| StandsInAnyCase(text, word, i) {
      LowerOccurs(text, word, i);
    }
  }

  lemma {:induction false} MentionsInAnyCase(text: string, words: seq<string>)
    requires forall i :: 0 <= i < |words| ==> IsLower(words[i])
    ensures Mentions(Lower(text), words) <==> exists i :: 0 <= i < |words| && InAnyCase(text, words[i])
  {
    forall i | 0 <= i < |words|
      ensures Contains(Lower(text), words[i]) <==> InAnyCase(text, words[i])
    {
      LowerContains(text, words[i]);
    }
  }

  ghost predicate SaysUsb(text: string) {
    InAnyCase(text, "usb") || InAnyCase(text, "removable")
  }

  ghost predicate SaysNetwork(text: string) {
    || InAnyCase(text, "network") || InAnyCase(text, "pxe") || InAnyCase(text, "ipv4") || InAnyCase(text, "ipv6")
    || InAnyCase(text, "lan")
  }

  ghost predicate SaysCd(text: string) {
    InAnyCase(text, "cd") || InAnyCase(text, "dvd")
  }

  lemma {:induction false} UsbWords(text: string)
    ensures Mentions(Lower(text), USB_WORDS) <==> SaysUsb(text)
  {
    MentionsInAnyCase(text, USB_WORDS);
    assert USB_WORDS[0] == "usb" && USB_WORDS[1] == "removable";
  }

  lemma {:induction false} NetworkWords(text: string)
    ensures Mentions(Lower(text), NETWORK_WORDS) <==> SaysNetwork(text)
  {
    MentionsInAnyCase(text, NETWORK_WORDS);
    assert NETWORK_WORDS[0] == "network" && NETWORK_WORDS[1] == "pxe" && NETWORK_WORDS[2] == "ipv4";
    assert NETWORK_WORDS[3] == "ipv6" && NETWORK_WORDS[4] == "lan";
  }

  lemma {:induction false} CdWords(text: string)
    ensures Mentions(Lower(text), CD_WORDS) <==> SaysCd(text)
  {
    MentionsInAnyCase(text, CD_WORDS);
    assert CD_WORDS[0] == "cd" && CD_WORDS[1] == "dvd";
  }

  /** The type that a description names, whatever its case. */
  lemma {:induction false} DescribedMedium(text: string)
    ensures DescriptionType(text) == USB <==> SaysUsb(text)
    ensures DescriptionType(text) == NETWORK <==> !SaysUsb(text) && SaysNetwork(text)
    ensures DescriptionType(text) == CD <==> !SaysUsb(text) && !SaysNetwork(text) && SaysCd(text)
    ensures DescriptionType(text) == UNKNOWN <==> !SaysUsb(text) && !SaysNetwork(text) && !SaysCd(text)
  {
    UsbWords(text);
    NetworkWords(text);
    CdWords(text);
  }

  /** A unit beyond ASCII is shown as a question mark. */
  lemma {:induction false} UnitShown(units: seq<Unit>, i: nat)
    requires i < |units|
    ensures AsciiText(units)[i] as int == if units[i] < 128 then units[i] else '?' as int
  {
    if i > 0 {
      UnitShown(units[1..], i - 1);
    }
  }

  /** A plain description is written unit by unit. */
  ghost function UnitsOf(text: string): (units: seq<Unit>)
    requires forall i :: 0 <= i < |text| ==> 0 < text[i] as int < 128
    ensures |units| == |text| && forall i :: 0 <= i < |text| ==> units[i] == text[i] as int
  {
    if |text| == 0 then [] else [text[0] as int] + UnitsOf(text[1..])
  }

  lemma {:induction false} PlainText(text: string)
    requires forall i :: 0 <= i < |text| ==> 0 < text[i] as int < 128
    ensures AsciiText(UnitsOf(text)) == text
  {
    if |text| > 0 {
      PlainText(text[1..]);
      assert UnitsOf(text)[1..] == UnitsOf(text[1..]);
    }
  }

  /** A load option whose path names no medium gets its type from its description. */
  lemma {:induction false} DescriptionRoundTrip(o: LoadOption, text: string, variable: seq<Byte>, number: nat)
    requires o.Valid() && |variable| == VARIABLE_ATTRIBUTES && forall n <- o.path :: Silent(n)
    requires |text| < DESCRIPTION_SIZE && forall i :: 0 <= i < |text| ==> 0 < text[i] as int < 128
    requires o.description == UnitsOf(text)
    ensures |o.Encode(variable)| >= 12
    ensures var e := Parsed(o.Encode(variable), number);
            && e.description == text
            && (e.kind == USB <==> SaysUsb(text))
            && (e.kind == NETWORK <==> !SaysUsb(text) && SaysNetwork(text))
            && (e.kind == CD <==> !SaysUsb(text) && !SaysNetwork(text) && SaysCd(text))
            && e.kind != DISK
  {
    NoMedium(o.path);
    PlainText(text);
    LoadOptionRoundTrip(o, variable, number);
    DescribedMedium(text);
  }
}
