/** The walk of the boot order (src/check_bios_boot.c): the lists it composes in buffers of fixed
    size, and the rows for USB, network and CD/DVD. */
module BootOrder {
  import opened CText
  import opened Checks
  import opened Bytes
  import BootEntry
  import DevicePath

  const IDS_SIZE: nat := 200
  const UNREADABLE_SIZE: nat := 41
  const UNCLASSIFIED_SIZE: nat := 64
  const DISPLAY_SIZE: nat := 40

  // Items of the lists.

  function HexDigit(n: nat): (c: char)
    requires n < 16
  {
    if n < 10 then '0' + n as char else 'A' + (n - 10) as char
  }

  /** `Boot%04X` of a 16-bit number. */
  function BootId(id: nat): (s: string)
    requires id < LIMIT16
    ensures |s| == 8
  {
    "Boot" + [HexDigit(id / 0x1000), HexDigit(id / 0x100 % 16), HexDigit(id / 16 % 16), HexDigit(id % 16)]
  }

  /** The value of a hexadecimal digit. */
  function HexValue(c: char): (n: nat) {
    if '0' <= c <= '9' then c as int - '0' as int
    else if 'A' <= c <= 'F' then c as int - 'A' as int + 10
    else 16
  }

  /** An identifier is the word and the number in four hexadecimal digits. */
  lemma {:induction false} BootIdReads(id: nat)
    requires id < LIMIT16
    ensures var s := BootId(id);
            && s[..4] == "Boot"
            && (forall i :: 4 <= i < 8 ==> HexValue(s[i]) < 16)
            && HexValue(s[4]) * 0x1000 + HexValue(s[5]) * 0x100 + HexValue(s[6]) * 16 + HexValue(s[7]) == id
  {
    HexDigits(id / 0x1000);
    HexDigits(id / 0x100 % 16);
    HexDigits(id / 16 % 16);
    HexDigits(id % 16);
    FourDigits(id, id / 16, id / 0x100, id / 0x1000);
    var digits := [HexDigit(id / 0x1000), HexDigit(id / 0x100 % 16), HexDigit(id / 16 % 16), HexDigit(id % 16)];
    assert BootId(id) == "Boot" + digits;
  }

  lemma {:induction false} FourDigits(n: nat, a: nat, b: nat, c: nat)
    requires n < LIMIT16 && a == n / 16 && b == n / 0x100 && c == n / 0x1000
    ensures c < 16 && c * 0x1000 + b % 16 * 0x100 + a % 16 * 16 + n % 16 == n
  {
    assert b == a / 16 && c == b / 16;
  }

  lemma {:induction false} HexDigits(n: nat)
    requires n < 16
    ensures HexValue(HexDigit(n)) == n
  {
  }

  function Printable(c: char): (p: char) {
    if ' ' <= c <= '~' then c else '?'
  }

  function PrintableText(s: string): (p: string)
    ensures |p| == |s|
  {
    if |s| == 0 then "" else PrintableText(s[..|s| - 1]) + [Printable(s[|s| - 1])]
  }

  /** A description as the row shows it: printable, and marked when it does not fit. */
  function Display(description: string): (s: string)
    ensures |s| < DISPLAY_SIZE && (|s| == 0 <==> |description| == 0)
  {
    if |description| < DISPLAY_SIZE then PrintableText(description)
    else PrintableText(description[..DISPLAY_SIZE - 4]) + "..."
  }

  lemma {:induction false} PrintableAt(s: string, i: nat)
    requires i < |s|
    ensures PrintableText(s)[i] == if ' ' <= s[i] <= '~' then s[i] else '?'
  {
    if i < |s| - 1 {
      PrintableAt(s[..|s| - 1], i);
    }
  }

  /** A description of up to 39 characters is shown in full, a longer one by its first 36 and three
      dots; what is not printable is a question mark. */
  lemma {:induction false} DisplayShows(description: string)
    ensures |description| < 40 ==> |Display(description)| == |description|
    ensures |description| >= 40 ==> |Display(description)| == 39 && Display(description)[36..] == "..."
    ensures forall i :: 0 <= i < |description| && i < (if |description| < 40 then 40 else 36) ==>
              Display(description)[i] == if ' ' <= description[i] <= '~' then description[i] else '?'
  {
    var shown := if |description| < 40 then description else description[..36];
    forall i | 0 <= i < |shown|
      ensures PrintableText(shown)[i] == if ' ' <= shown[i] <= '~' then shown[i] else '?'
    {
      PrintableAt(shown, i);
    }
  }

  /** `display_description`. */
  method DisplayDescription(src: string) returns (out: string)
    ensures out == Display(src)
  {
    var limit := DISPLAY_SIZE - 1;
    var i := 0;
    out := "";
    while i < limit && i < |src|
      invariant i <= |src| && i <= limit
      invariant out == PrintableText(src[..i])
    {
      assert src[..i + 1][..i] == src[..i];
      out := out + [Printable(src[i])];
      i := i + 1;
    }
    if i < |src| {
      PrintablePrefix(src[..limit], limit - 3);
      assert src[..limit][..limit - 3] == src[..limit - 3];
      out := out[..limit - 3] + "...";
    } else {
      assert src[..i] == src;
    }
  }

  lemma {:induction false} PrintablePrefix(s: string, n: nat)
    requires n <= |s|
    ensures PrintableText(s)[..n] == PrintableText(s[..n])
  {
    if n < |s| {
      PrintablePrefix(s[..|s| - 1], n);
      assert s[..|s| - 1][..n] == s[..n];
    } else {
      assert s[..n] == s;
    }
  }

  function UnclassifiedItem(id: nat, description: string): (s: string)
    requires id < LIMIT16
    ensures 8 <= |s| <= 50
  {
    var shown := Display(description);
    if |shown| > 0 then BootId(id) + " \"" + shown + "\"" else BootId(id)
  }

  // Lists in buffers of fixed size.

  /** The items that found room, each whole: an item that does not fit is left out, and a later
      shorter one may still fit. */
  function Kept(items: seq<string>, size: nat): (kept: seq<string>) {
    if |items| == 0 then []
    else
      var before, item := Kept(items[..|items| - 1], size), items[|items| - 1];
      var used := |Join(before, " ")|;
      if used + (if used > 0 then 1 else 0) + |item| < size then before + [item] else before
  }

  /** A list buffer and whether everything is in it. */
  datatype Listed = Listed(text: string, complete: bool)

  function Listing(items: seq<string>, size: nat): (l: Listed) {
    Listed(Join(Kept(items, size), " "), |Kept(items, size)| == |items|)
  }

  predicate Nonempty(items: seq<string>) {
    |items| == 0 || (|items[|items| - 1]| > 0 && Nonempty(items[..|items| - 1]))
  }

  /** The common end of `append_entry_id` and `append_unclassified_entry`. */
  method AppendItem(list: Listed, size: nat, item: string, ghost items: seq<string>) returns (longer: Listed)
    requires list == Listing(items, size) && |item| > 0 && Nonempty(items)
    ensures longer == Listing(items + [item], size)
  {
    var separator := if |list.text| > 0 then " " else "";
    ListingSnoc(items, size, item);
    if |list.text| + |separator + item| >= size {
      return list.(complete := false);
    }
    return list.(text := list.text + (separator + item));
  }

  lemma {:induction false} KeptNonempty(items: seq<string>, size: nat)
    requires Nonempty(items)
    ensures Nonempty(Kept(items, size)) && |Kept(items, size)| <= |items|
  {
    if |items| > 0 {
      var before, item := Kept(items[..|items| - 1], size), items[|items| - 1];
      KeptNonempty(items[..|items| - 1], size);
      assert (before + [item])[..|before|] == before;
    }
  }

  lemma JoinEmpty(parts: seq<string>)
    requires Nonempty(parts)
    ensures |Join(parts, " ")| == 0 <==> |parts| == 0
  {
  }

  /** One more item is kept when it fits behind what is there. */
  lemma KeptSnoc(items: seq<string>, item: string, size: nat)
    requires |item| > 0 && Nonempty(items)
    ensures Nonempty(items + [item])
    ensures var before := Kept(items, size);
            var used := |Join(before, " ")|;
            Kept(items + [item], size)
            == if used + (if used > 0 then 1 else 0) + |item| < size then before + [item] else before
  {
    assert (items + [item])[..|items|] == items;
  }

  lemma ListingSnoc(items: seq<string>, size: nat, item: string)
    requires |item| > 0 && Nonempty(items)
    ensures Nonempty(items + [item])
    ensures var l := Listing(items, size);
            var added := (if |l.text| > 0 then " " else "") + item;
            Listing(items + [item], size)
            == if |l.text| + |added| < size then Listed(l.text + added, l.complete) else Listed(l.text, false)
  {
    KeptSnoc(items, item, size);
    KeptNonempty(items, size);
    TextSnoc(Kept(items, size), item);
  }

  lemma TextSnoc(kept: seq<string>, item: string)
    requires Nonempty(kept)
    ensures var text := Join(kept, " ");
            Join(kept + [item], " ") == text + ((if |text| > 0 then " " else "") + item)
  {
    JoinEmpty(kept);
    JoinSnoc(kept, " ", item);
  }

  /** `append_entry_id`. */
  method AppendEntryId(list: Listed, size: nat, id: nat, ghost items: seq<string>) returns (longer: Listed)
    requires id < LIMIT16 && list == Listing(items, size) && Nonempty(items)
    ensures longer == Listing(items + [BootId(id)], size)
  {
    longer := AppendItem(list, size, BootId(id), items);
  }

  /** `append_unclassified_entry`. */
  method AppendUnclassified(list: Listed, size: nat, id: nat, description: string, ghost items: seq<string>)
    returns (longer: Listed)
    requires id < LIMIT16 && list == Listing(items, size) && Nonempty(items)
    ensures longer == Listing(items + [UnclassifiedItem(id, description)], size)
  {
    var shown := DisplayDescription(description);
    var item := if |shown| > 0 then BootId(id) + " \"" + shown + "\"" else BootId(id);
    longer := AppendItem(list, size, item, items);
  }

  // The walk.

  datatype Category = USB_ENTRY | NETWORK_ENTRY | CD_ENTRY | UNREADABLE | UNCLASSIFIED | IGNORED

  /** An entry of the order and what reading its variable gave. */
  datatype Step = Failed(id: nat) | Found(id: nat, entry: BootEntry.Entry) {
    predicate Valid() { id < LIMIT16 }

    function Category(): (c: Category) {
      if Failed? then UNREADABLE
      else if !entry.active then IGNORED
      else match entry.kind
        case USB => USB_ENTRY
        case NETWORK => NETWORK_ENTRY
        case CD => CD_ENTRY
        case UNKNOWN => UNCLASSIFIED
        case DISK => IGNORED
    }

    function Item(): (s: string)
      requires Valid()
      ensures 8 <= |s| <= 50
    {
      if Category() == UNCLASSIFIED then UnclassifiedItem(id, entry.description) else BootId(id)
    }
  }

  predicate AllValid(walk: seq<Step>) {
    |walk| == 0 || (walk[|walk| - 1].Valid() && AllValid(walk[..|walk| - 1]))
  }

  /** The items of one category, in the order of the walk. */
  function ItemsOf(walk: seq<Step>, c: Category): (items: seq<string>)
    requires AllValid(walk)
  {
    if |walk| == 0 then []
    else
      var before, last := ItemsOf(walk[..|walk| - 1], c), walk[|walk| - 1];
      if last.Category() == c then before + [last.Item()] else before
  }

  lemma {:induction false} ItemsNonempty(walk: seq<Step>, c: Category)
    requires AllValid(walk)
    ensures Nonempty(ItemsOf(walk, c))
    ensures |ItemsOf(walk, c)| > 0 ==> 8 <= |ItemsOf(walk, c)[0]| <= 50
  {
    if |walk| > 0 {
      var before, item := ItemsOf(walk[..|walk| - 1], c), walk[|walk| - 1].Item();
      ItemsNonempty(walk[..|walk| - 1], c);
      assert (before + [item])[..|before|] == before;
    }
  }

  function SizeOf(c: Category): (size: nat) {
    if c == UNREADABLE then UNREADABLE_SIZE else if c == UNCLASSIFIED then UNCLASSIFIED_SIZE else IDS_SIZE
  }

  /** The list of one category after a walk. */
  function ListOf(walk: seq<Step>, c: Category): (l: Listed)
    requires AllValid(walk)
  {
    Listing(ItemsOf(walk, c), SizeOf(c))
  }

  lemma {:induction false} ItemsExist(walk: seq<Step>, c: Category)
    requires AllValid(walk)
    ensures |ItemsOf(walk, c)| > 0 <==> exists i :: 0 <= i < |walk| && walk[i].Category() == c
  {
    if |walk| > 0 {
      var before := walk[..|walk| - 1];
      ItemsExist(before, c);
      if i :| 0 <= i < |before| && before[i].Category() == c {
        assert walk[i].Category() == c;
      }
    }
  }

  /** The lists, flags and counters that the walk keeps. */
  datatype Lists = Lists(
    usb: Listed, network: Listed, cd: Listed, unreadable: Listed, unclassified: Listed,
    usbSeen: bool, networkSeen: bool, cdSeen: bool, unreadableCount: nat, unclassifiedCount: nat)

  ghost predicate Describes(lists: Lists, walk: seq<Step>)
    requires AllValid(walk)
  {
    && lists.usb == ListOf(walk, USB_ENTRY)
    && lists.network == ListOf(walk, NETWORK_ENTRY)
    && lists.cd == ListOf(walk, CD_ENTRY)
    && lists.unreadable == ListOf(walk, UNREADABLE)
    && lists.unclassified == ListOf(walk, UNCLASSIFIED)
    && lists.usbSeen == Seen(walk, USB_ENTRY)
    && lists.networkSeen == Seen(walk, NETWORK_ENTRY)
    && lists.cdSeen == Seen(walk, CD_ENTRY)
    && lists.unreadableCount == |ItemsOf(walk, UNREADABLE)|
    && lists.unclassifiedCount == |ItemsOf(walk, UNCLASSIFIED)|
  }

  predicate Seen(walk: seq<Step>, c: Category)
    requires AllValid(walk)
  {
    |ItemsOf(walk, c)| > 0
  }

  lemma ItemsAfter(before: seq<Step>, step: Step, after: seq<Step>, c: Category)
    requires AllValid(before) && AllValid(after) && step.Valid() && after == before + [step]
    ensures ItemsOf(after, c) == if step.Category() == c then ItemsOf(before, c) + [step.Item()] else ItemsOf(before, c)
  {
    assert after[..|before|] == before;
  }

  /** The lists change in the category of the step only. */
  lemma {:induction false} ListsAfter(before: seq<Step>, step: Step, after: seq<Step>)
    requires AllValid(before) && AllValid(after) && step.Valid() && after == before + [step]
    ensures Nonempty(ItemsOf(before, step.Category()))
    ensures forall c :: c != step.Category() ==> ItemsOf(after, c) == ItemsOf(before, c)
    ensures ItemsOf(after, step.Category()) == ItemsOf(before, step.Category()) + [step.Item()]
  {
    forall c
      ensures c != step.Category() ==> ItemsOf(after, c) == ItemsOf(before, c)
    {
      ItemsAfter(before, step, after, c);
    }
    ItemsAfter(before, step, after, step.Category());
    ItemsNonempty(before, step.Category());
  }

  /** An entry that could not be read. */
  method AppendFailed(lists: Lists, step: Step, ghost before: seq<Step>, ghost after: seq<Step>) returns (longer: Lists)
    requires AllValid(before) && step.Valid() && after == before + [step] && AllValid(after)
    requires step.Failed? && Describes(lists, before)
    ensures Describes(longer, after)
  {
    ListsAfter(before, step, after);
    var list := AppendEntryId(lists.unreadable, UNREADABLE_SIZE, step.id, ItemsOf(before, UNREADABLE));
    return lists.(unreadable := list, unreadableCount := lists.unreadableCount + 1);
  }

  /** An entry that is not active changes nothing. */
  lemma {:induction false} NothingAppended(lists: Lists, step: Step, before: seq<Step>, after: seq<Step>)
    requires AllValid(before) && step.Valid() && after == before + [step] && AllValid(after)
    requires step.Category() == IGNORED && Describes(lists, before)
    ensures Describes(lists, after)
  {
    ListsAfter(before, step, after);
  }

  /** One turn of the loop: the list of the step's category, and no other, takes its item. */
  method AppendStep(lists: Lists, step: Step, ghost before: seq<Step>, ghost after: seq<Step>) returns (longer: Lists)
    requires AllValid(before) && step.Valid() && after == before + [step] && AllValid(after)
    requires Describes(lists, before)
    ensures Describes(longer, after)
  {
    if step.Failed? {
      longer := AppendFailed(lists, step, before, after);
    } else if !step.entry.active {
      NothingAppended(lists, step, before, after);
      longer := lists;
    } else {
      longer := AppendActive(lists, step, before, after);
    }
  }

  /** The switch on the type of an active entry. */
  method AppendActive(lists: Lists, step: Step, ghost before: seq<Step>, ghost after: seq<Step>) returns (longer: Lists)
    requires AllValid(before) && step.Valid() && after == before + [step] && AllValid(after)
    requires step.Found? && step.entry.active && Describes(lists, before)
    ensures Describes(longer, after)
  {
    ListsAfter(before, step, after);
    match step.entry.kind {
      case USB =>
        var list := AppendEntryId(lists.usb, IDS_SIZE, step.id, ItemsOf(before, USB_ENTRY));
        return lists.(usb := list, usbSeen := true);
      case NETWORK =>
        var list := AppendEntryId(lists.network, IDS_SIZE, step.id, ItemsOf(before, NETWORK_ENTRY));
        return lists.(network := list, networkSeen := true);
      case CD =>
        var list := AppendEntryId(lists.cd, IDS_SIZE, step.id, ItemsOf(before, CD_ENTRY));
        return lists.(cd := list, cdSeen := true);
      case UNKNOWN =>
        var list := AppendUnclassified(lists.unclassified, UNCLASSIFIED_SIZE, step.id, step.entry.description,
                                       ItemsOf(before, UNCLASSIFIED));
        return lists.(unclassified := list, unclassifiedCount := lists.unclassifiedCount + 1);
      case DISK =>
        return lists;
    }
  }

  /** What reading the variable of an entry gives; `efivars` holds the variables that can be read
      whole. */
  ghost function StepOf(id: nat, efivars: map<nat, seq<Byte>>): (step: Step)
    ensures step.id == id
  {
    if id in efivars && |efivars[id]| >= 12 then Found(id, BootEntry.Parsed(efivars[id], id)) else Failed(id)
  }

  ghost function WalkOf(order: seq<nat>, efivars: map<nat, seq<Byte>>): (walk: seq<Step>) {
    if |order| == 0 then [] else WalkOf(order[..|order| - 1], efivars) + [StepOf(order[|order| - 1], efivars)]
  }

  /** `read_boot_entry`. */
  method ReadBootEntry(id: nat, efivars: map<nat, seq<Byte>>) returns (step: Step)
    ensures step == StepOf(id, efivars)
  {
    if id !in efivars {
      return Failed(id);
    }
    var ok, entry := BootEntry.ParseEntry(efivars[id], id);
    return if ok then Found(id, entry) else Failed(id);
  }

  lemma {:induction false} EmptyListing()
    ensures forall c :: ItemsOf([], c) == [] && ListOf([], c) == Listed("", true)
  {
    forall c
      ensures ItemsOf([], c) == [] && ListOf([], c) == Listed("", true)
    {
      assert Kept([], SizeOf(c)) == [] && Join([], " ") == "";
    }
  }

  method EmptyLists() returns (lists: Lists)
    ensures Describes(lists, [])
  {
    var empty := Listed("", true);
    EmptyListing();
    return Lists(empty, empty, empty, empty, empty, false, false, false, 0, 0);
  }

  /** The body of the loop over the order. */
  method NextStep(order: seq<nat>, i: nat, efivars: map<nat, seq<Byte>>, lists: Lists, ghost walked: seq<Step>)
    returns (longer: Lists, ghost further: seq<Step>)
    requires i < |order| && order[i] < LIMIT16
    requires walked == WalkOf(order[..i], efivars) && AllValid(walked) && Describes(lists, walked)
    ensures further == WalkOf(order[..i + 1], efivars) && AllValid(further) && Describes(longer, further)
  {
    var step := ReadBootEntry(order[i], efivars);
    further := walked + [step];
    assert order[..i + 1][..i] == order[..i];
    longer := AppendStep(lists, step, walked, further);
  }

  /** The loop over the order. */
  method WalkOrder(order: seq<nat>, efivars: map<nat, seq<Byte>>) returns (lists: Lists)
    requires forall i :: 0 <= i < |order| ==> order[i] < LIMIT16
    ensures AllValid(WalkOf(order, efivars)) && Describes(lists, WalkOf(order, efivars))
  {
    lists := EmptyLists();
    ghost var walked: seq<Step> := [];
    for i := 0 to |order|
      invariant walked == WalkOf(order[..i], efivars)
      invariant AllValid(walked) && Describes(lists, walked)
    {
      lists, walked := NextStep(order, i, efivars, lists, walked);
    }
    assert order[..|order|] == order;
  }

  // The details of the rows.

  function More(l: Listed): (s: string) {
    if l.complete then "" else " and more"
  }

  function Clause(title: string, l: Listed): (s: string) {
    if |l.text| > 0 then title + (l.text + More(l)) else ""
  }

  /** Every reason why the order was not fully inspected. */
  function BlockedText(unreadable: Listed, unclassified: Listed, capped: bool): (s: string) {
    "boot order not fully inspected" + Clause("; unreadable: ", unreadable) + Clause("; unclassified: ", unclassified)
    + (if capped then "; list shortened at 32 entries" else "")
  }

  /** `append_text`: the text behind what is there, cut by the end of the buffer. */
  method AppendText(out: string, size: nat, text: string) returns (longer: string)
    requires |out| < size
    ensures |longer| < size && longer == Stored(out + text, size)
    ensures |out| + |text| < size ==> longer == out + text
  {
    var room: nat := size - |out|;
    longer := if |text| >= room then out + text[..room - 1] else out + text;
  }

  method AppendClause(out: string, size: nat, title: string, list: Listed) returns (longer: string)
    requires |out| + |title| + |list.text| + 9 < size
    ensures longer == out + Clause(title, list) && |longer| <= |out| + |title| + |list.text| + 9
  {
    longer := out;
    if |list.text| > 0 {
      longer := AppendText(longer, size, title);
      longer := AppendText(longer, size, list.text);
      if !list.complete {
        longer := AppendText(longer, size, " and more");
      }
    }
  }

  /** The calls of `append_text` in `describe_incomplete_order`. */
  method AppendClauses(
      head: string, title: string, list: Listed, title': string, list': Listed, tail: string, capped: bool, size: nat)
    returns (out: string)
    requires |head| + |title| + |list.text| + |title'| + |list'.text| + |tail| + 18 < size
    ensures out == head + Clause(title, list) + Clause(title', list') + (if capped then tail else "")
    ensures |out| <= |head| + |title| + |list.text| + |title'| + |list'.text| + |tail| + 18
  {
    out := AppendText("", size, head);
    assert out == head;
    out := AppendClause(out, size, title, list);
    out := AppendClause(out, size, title', list');
    if capped {
      out := AppendText(out, size, tail);
    } else {
      assert out + "" == out;
    }
  }

  /** `describe_incomplete_order`: with the sizes the walk reserves, no clause is ever cut. */
  method DescribeIncompleteOrder(unreadable: Listed, unclassified: Listed, capped: bool) returns (out: string)
    requires |unreadable.text| < UNREADABLE_SIZE && |unclassified.text| < UNCLASSIFIED_SIZE
    ensures out == BlockedText(unreadable, unclassified, capped) && |out| <= 211
  {
    out := AppendClauses("boot order not fully inspected", "; unreadable: ", unreadable,
                         "; unclassified: ", unclassified, "; list shortened at 32 entries", capped, DETAIL_MAX);
  }

  /** `compose_blocked_detail`. */
  function ComposeBlockedDetail(blocked: string, medium: string): (detail: string) {
    var full := blocked + "; " + medium + " presence unconfirmed";
    if |full| < DETAIL_MAX then full else "boot order not fully inspected; " + medium + " presence unconfirmed"
  }

  // Budgets.

  lemma {:induction false} ListingFits(items: seq<string>, size: nat)
    requires size > 0 && Nonempty(items)
    ensures |Listing(items, size).text| < size
  {
    assert Join([], " ") == "";
    if |items| > 0 {
      var before, item := items[..|items| - 1], items[|items| - 1];
      ListingFits(before, size);
      ListingSnoc(before, size, item);
      assert before + [item] == items;
    }
  }

  lemma ListFits(walk: seq<Step>, c: Category)
    requires AllValid(walk)
    ensures |ListOf(walk, c).text| < SizeOf(c)
  {
    ItemsNonempty(walk, c);
    ListingFits(ItemsOf(walk, c), SizeOf(c));
  }

  /** The room for the first item is there: a list is empty only when nothing was to be listed. */
  lemma {:induction false} FirstListed(items: seq<string>, size: nat)
    requires |items| > 0 && |items[0]| < size && Nonempty(items)
    ensures |Kept(items, size)| > 0 && Kept(items, size)[0] == items[0]
  {
    if |items| > 1 {
      FirstListed(items[..|items| - 1], size);
    } else {
      assert items[..0] == [] && Join([], " ") == "";
    }
  }

  predicate AllIds(items: seq<string>) {
    |items| == 0 || (|items[|items| - 1]| == 8 && AllIds(items[..|items| - 1]))
  }

  lemma {:induction false} JoinIds(parts: seq<string>)
    requires AllIds(parts)
    ensures |Join(parts, " ")| == if |parts| == 0 then 0 else 9 * |parts| - 1
  {
    if |parts| > 1 {
      JoinIds(parts[..|parts| - 1]);
    }
  }

  lemma {:induction false} IdsAllKept(items: seq<string>, size: nat)
    requires Nonempty(items) && AllIds(items) && 9 * |items| <= size
    ensures Kept(items, size) == items
  {
    if |items| > 0 {
      var before := items[..|items| - 1];
      IdsAllKept(before, size);
      IdFits(before, items[|items| - 1], items, size);
    }
  }

  lemma {:induction false} IdFits(before: seq<string>, item: string, items: seq<string>, size: nat)
    requires Nonempty(before) && AllIds(before) && |item| == 8 && 9 * |before| + 9 <= size
    requires Kept(before, size) == before && |items| == |before| + 1 && items == before + [item]
    ensures Kept(items, size) == items
  {
    JoinIds(before);
    KeptSnoc(before, item, size);
  }

  lemma {:induction false} IdsPrefix(items: seq<string>, k: nat)
    requires AllIds(items) && k <= |items|
    ensures AllIds(items[..k])
  {
    if k < |items| {
      IdsPrefix(items[..|items| - 1], k);
      assert items[..|items| - 1][..k] == items[..k];
    } else {
      assert items[..k] == items;
    }
  }

  lemma {:induction false} IdsFirstKept(items: seq<string>, size: nat, k: nat)
    requires Nonempty(items) && AllIds(items) && 9 * k <= size < 9 * k + 9 && |items| >= k
    ensures Kept(items, size) == items[..k]
  {
    if |items| == k {
      IdsAllKept(items, size);
    } else {
      var before, item := items[..|items| - 1], items[|items| - 1];
      IdsFirstKept(before, size, k);
      assert before[..k] == items[..k];
      IdsPrefix(items, k);
      JoinIds(items[..k]);
      KeptSnoc(before, item, size);
      assert before + [item] == items;
    }
  }

  /** Identifiers are all of one length, so a list of them holds the first ones. */
  lemma IdsKept(items: seq<string>, size: nat, k: nat)
    requires Nonempty(items) && AllIds(items) && 9 * k <= size < 9 * k + 9
    ensures Kept(items, size) == items[..Least(|items|, k)]
  {
    if |items| < k {
      IdsAllKept(items, size);
    } else {
      IdsFirstKept(items, size, k);
    }
  }

  // Rows.

  predicate IsMedium(c: Category) { c == USB_ENTRY || c == NETWORK_ENTRY || c == CD_ENTRY }

  function RowName(c: Category): (s: string) {
    if c == USB_ENTRY then "EFI USB boot" else if c == NETWORK_ENTRY then "EFI network boot" else "EFI CD/DVD boot"
  }

  function MediumName(c: Category): (s: string)
    ensures |s| <= 7
  {
    if c == USB_ENTRY then "USB" else if c == NETWORK_ENTRY then "network" else "CD/DVD"
  }

  function ActiveText(l: Listed): (s: string) {
    "active in EFI boot order: " + (l.text + More(l))
  }

  function BlockedDetail(blocked: string, c: Category): (s: string) {
    blocked + "; " + MediumName(c) + " presence unconfirmed"
  }

  predicate Blocked(walk: seq<Step>, capped: bool)
    requires AllValid(walk)
  {
    capped || Seen(walk, UNREADABLE) || Seen(walk, UNCLASSIFIED)
  }

  function BlockedOf(walk: seq<Step>, capped: bool): (s: string)
    requires AllValid(walk)
  {
    if Blocked(walk, capped) then BlockedText(ListOf(walk, UNREADABLE), ListOf(walk, UNCLASSIFIED), capped) else ""
  }

  /** The row of a medium from its list and the reasons, if any, to doubt its absence. */
  function RowFor(c: Category, seen: bool, list: Listed, blocked: string): (row: CheckResult) {
    if seen then MakeResult(RowName(c), WARN, ActiveText(list))
    else if |blocked| > 0 then MakeSkip(RowName(c), OUTPUT_UNPARSEABLE, BlockedDetail(blocked, c))
    else MakeResult(RowName(c), OK, "no active entry in EFI boot order")
  }

  function RowOf(walk: seq<Step>, capped: bool, c: Category): (row: CheckResult)
    requires AllValid(walk)
  {
    RowFor(c, Seen(walk, c), ListOf(walk, c), BlockedOf(walk, capped))
  }

  /** One of the three blocks that emit a row: the fallback detail is never needed. */
  method EmitMedium(c: Category, seen: bool, list: Listed, blocked: string) returns (row: CheckResult)
    requires |blocked| <= 211
    ensures row == RowFor(c, seen, list, blocked)
  {
    if seen {
      return MakeResult(RowName(c), WARN, ActiveText(list));
    }
    if |blocked| > 0 {
      var detail := ComposeBlockedDetail(blocked, MediumName(c));
      return MakeSkip(RowName(c), OUTPUT_UNPARSEABLE, detail);
    }
    return MakeResult(RowName(c), OK, "no active entry in EFI boot order");
  }

  /** The rows of `check_efivars_boot` for a parsed order. */
  method CheckBootOrder(order: BootEntry.BootOrder, efivars: map<nat, seq<Byte>>)
    returns (usb: CheckResult, network: CheckResult, cd: CheckResult)
    requires forall i :: 0 <= i < |order.order| ==> order.order[i] < LIMIT16
    ensures AllValid(WalkOf(order.order, efivars))
    ensures usb == RowOf(WalkOf(order.order, efivars), order.truncated, USB_ENTRY)
    ensures network == RowOf(WalkOf(order.order, efivars), order.truncated, NETWORK_ENTRY)
    ensures cd == RowOf(WalkOf(order.order, efivars), order.truncated, CD_ENTRY)
  {
    var lists := WalkOrder(order.order, efivars);
    var blocked := ComposeBlocked(lists, order.truncated, WalkOf(order.order, efivars));
    usb := EmitMedium(USB_ENTRY, lists.usbSeen, lists.usb, blocked);
    network := EmitMedium(NETWORK_ENTRY, lists.networkSeen, lists.network, blocked);
    cd := EmitMedium(CD_ENTRY, lists.cdSeen, lists.cd, blocked);
  }

  /** The reasons, if any, for not trusting the walk. */
  method ComposeBlocked(lists: Lists, capped: bool, ghost walk: seq<Step>) returns (blocked: string)
    requires AllValid(walk) && Describes(lists, walk)
    ensures blocked == BlockedOf(walk, capped) && |blocked| <= 211
  {
    ListFits(walk, UNREADABLE);
    ListFits(walk, UNCLASSIFIED);
    blocked := "";
    if lists.unreadableCount > 0 || capped || lists.unclassifiedCount > 0 {
      blocked := DescribeIncompleteOrder(lists.unreadable, lists.unclassified, capped);
    }
  }

  // What the rows mean.

  predicate Has(walk: seq<Step>, c: Category) {
    exists i :: 0 <= i < |walk| && walk[i].Category() == c
  }

  /** A medium is WARN exactly when an active readable entry boots from it; it is OK exactly when
      none does and the walk saw every entry and understood every active one. */
  lemma {:induction false} RowState(walk: seq<Step>, capped: bool, c: Category)
    requires AllValid(walk) && IsMedium(c)
    ensures var state := RowOf(walk, capped, c).state;
            && (state == WARN <==> Has(walk, c))
            && (state == OK <==> !capped && !Has(walk, c) && !Has(walk, UNREADABLE) && !Has(walk, UNCLASSIFIED))
            && (state == WARN || state == OK || state == SKIP)
  {
    ItemsExist(walk, c);
    ItemsExist(walk, UNREADABLE);
    ItemsExist(walk, UNCLASSIFIED);
    BlockedNonempty(walk, capped);
  }

  predicate AnyActive(walk: seq<Step>, kind: DevicePath.BootType) {
    exists i :: 0 <= i < |walk| && walk[i].Found? && walk[i].entry.active && walk[i].entry.kind == kind
  }

  lemma {:induction false} HasKind(walk: seq<Step>)
    ensures Has(walk, USB_ENTRY) <==> AnyActive(walk, DevicePath.USB)
    ensures Has(walk, NETWORK_ENTRY) <==> AnyActive(walk, DevicePath.NETWORK)
    ensures Has(walk, CD_ENTRY) <==> AnyActive(walk, DevicePath.CD)
    ensures Has(walk, UNCLASSIFIED) <==> AnyActive(walk, DevicePath.UNKNOWN)
    ensures Has(walk, UNREADABLE) <==> exists i :: 0 <= i < |walk| && walk[i].Failed?
  {
  }

  /** The three rows by name: each warns exactly when an active entry that was read has its type. */
  lemma {:induction false} RowsByType(walk: seq<Step>, capped: bool, usb: CheckResult, network: CheckResult,
                                      cd: CheckResult)
    requires AllValid(walk)
    requires usb == RowOf(walk, capped, USB_ENTRY) && network == RowOf(walk, capped, NETWORK_ENTRY)
    requires cd == RowOf(walk, capped, CD_ENTRY)
    ensures usb.name == "EFI USB boot" && (usb.state == WARN <==> AnyActive(walk, DevicePath.USB))
    ensures network.name == "EFI network boot" && (network.state == WARN <==> AnyActive(walk, DevicePath.NETWORK))
    ensures cd.name == "EFI CD/DVD boot" && (cd.state == WARN <==> AnyActive(walk, DevicePath.CD))
    ensures usb.state == SKIP ==> usb.detail == BlockedOf(walk, capped) + "; " + "USB" + " presence unconfirmed"
    ensures network.state == SKIP ==>
              network.detail == BlockedOf(walk, capped) + "; " + "network" + " presence unconfirmed"
    ensures cd.state == SKIP ==> cd.detail == BlockedOf(walk, capped) + "; " + "CD/DVD" + " presence unconfirmed"
  {
    DetailWhole(walk, capped, USB_ENTRY);
    DetailWhole(walk, capped, NETWORK_ENTRY);
    DetailWhole(walk, capped, CD_ENTRY);
    WarnsWhen(walk, capped, USB_ENTRY, usb);
    WarnsWhen(walk, capped, NETWORK_ENTRY, network);
    WarnsWhen(walk, capped, CD_ENTRY, cd);
    HasKind(walk);
  }

  lemma {:induction false} WarnsWhen(walk: seq<Step>, capped: bool, c: Category, row: CheckResult)
    requires AllValid(walk) && IsMedium(c) && row == RowOf(walk, capped, c)
    ensures row.name == RowName(c) && (row.state == WARN <==> Has(walk, c))
  {
    RowState(walk, capped, c);
  }

  lemma BlockedNonempty(walk: seq<Step>, capped: bool)
    requires AllValid(walk)
    ensures |BlockedOf(walk, capped)| <= 211 && (|BlockedOf(walk, capped)| > 0 <==> Blocked(walk, capped))
  {
    ListFits(walk, UNREADABLE);
    ListFits(walk, UNCLASSIFIED);
    BlockedLength(ListOf(walk, UNREADABLE), ListOf(walk, UNCLASSIFIED), capped);
  }

  lemma BlockedLength(unreadable: Listed, unclassified: Listed, capped: bool)
    requires |unreadable.text| < UNREADABLE_SIZE && |unclassified.text| < UNCLASSIFIED_SIZE
    ensures 0 < |BlockedText(unreadable, unclassified, capped)| <= 211
  {
  }

  /** No detail is ever cut: the row says what was composed. */
  lemma {:induction false} DetailWhole(walk: seq<Step>, capped: bool, c: Category)
    requires AllValid(walk) && IsMedium(c)
    ensures Has(walk, c) ==> RowOf(walk, capped, c).detail == ActiveText(ListOf(walk, c))
    ensures RowOf(walk, capped, c).state == SKIP ==>
              RowOf(walk, capped, c).detail == BlockedDetail(BlockedOf(walk, capped), c)
  {
    ItemsExist(walk, c);
    ListFits(walk, c);
    BlockedNonempty(walk, capped);
    RowWhole(c, Seen(walk, c), ListOf(walk, c), BlockedOf(walk, capped));
  }

  lemma RowWhole(c: Category, seen: bool, list: Listed, blocked: string)
    requires |list.text| < IDS_SIZE && |blocked| <= 211
    ensures seen ==> RowFor(c, seen, list, blocked).detail == ActiveText(list)
    ensures !seen && |blocked| > 0 ==> RowFor(c, seen, list, blocked).detail == BlockedDetail(blocked, c)
  {
  }

  lemma OneMore(kept: seq<string>, before: seq<string>, x: string, later: seq<string>, items: seq<string>)
    requires Subsequence(kept, before) && |kept| <= |before| && items == before + [x]
    requires later == kept || later == kept + [x]
    ensures Subsequence(later, items) && |later| <= |items|
  {
    assert items[..|before|] == before && (kept + [x])[..|kept|] == kept;
  }

  lemma {:induction false} KeptSubsequence(items: seq<string>, size: nat)
    requires Nonempty(items)
    ensures Subsequence(Kept(items, size), items) && |Kept(items, size)| <= |items|
  {
    if |items| > 0 {
      var before, item := items[..|items| - 1], items[|items| - 1];
      KeptSubsequence(before, size);
      KeptSnoc(before, item, size);
      assert before + [item] == items;
      OneMore(Kept(before, size), before, item, Kept(items, size), items);
    }
  }

  lemma {:induction false} KeptStep(items: seq<string>, before: seq<string>, size: nat)
    requires |items| > 0 && before == items[..|items| - 1]
    ensures Kept(items, size) == Kept(before, size) || Kept(items, size) == Kept(before, size) + [items[|items| - 1]]
  {
  }

  /** When as many are kept as there are, as many are kept of those before the last. */
  lemma {:induction false} KeptBefore(items: seq<string>, before: seq<string>, size: nat)
    requires |items| > 0 && before == items[..|items| - 1] && Nonempty(items)
    requires |Kept(items, size)| >= |items|
    ensures Nonempty(before) && |Kept(before, size)| == |before|
  {
    KeptNonempty(before, size);
    KeptStep(items, before, size);
  }

  /** An item is kept exactly when the list with it is shorter than the buffer. */
  lemma {:induction false} KeptExactly(items: seq<string>, item: string, size: nat)
    requires |item| > 0 && Nonempty(items)
    ensures var kept := Kept(items, size);
            Kept(items + [item], size) == if |Join(kept + [item], " ")| < size then kept + [item] else kept
  {
    KeptSnoc(items, item, size);
    KeptNonempty(items, size);
    TextSnoc(Kept(items, size), item);
  }

  lemma {:induction false} NoneLeftOut(kept: seq<string>, before: seq<string>, items: seq<string>)
    requires |items| > 0 && before == items[..|items| - 1] && |kept| >= |items|
    requires kept == before || kept == before + [items[|items| - 1]]
    ensures kept == items
  {
  }

  lemma {:induction false} KeptAll(items: seq<string>, size: nat)
    requires Nonempty(items) && |Kept(items, size)| >= |items|
    ensures Kept(items, size) == items
  {
    if |items| > 0 {
      var before := items[..|items| - 1];
      KeptBefore(items, before, size);
      KeptAll(before, size);
      KeptStep(items, before, size);
      NoneLeftOut(Kept(items, size), before, items);
    }
  }

  /** Every cause is named: a clause is there exactly when its cause is, it begins with the first
      entry concerned, it lists whole items in order, and it says "and more" exactly when one is
      left out. */
  lemma CausesNamed(walk: seq<Step>, c: Category, kept: seq<string>)
    requires AllValid(walk) && (c == UNREADABLE || c == UNCLASSIFIED) && kept == Kept(ItemsOf(walk, c), SizeOf(c))
    ensures ListOf(walk, c).text == Join(kept, " ") && Subsequence(kept, ItemsOf(walk, c))
    ensures |ListOf(walk, c).text| > 0 <==> Has(walk, c)
    ensures Has(walk, c) ==> |kept| > 0 && |ItemsOf(walk, c)| > 0 && kept[0] == ItemsOf(walk, c)[0]
    ensures ListOf(walk, c).complete <==> kept == ItemsOf(walk, c)
  {
    var items := ItemsOf(walk, c);
    ItemsExist(walk, c);
    ItemsNonempty(walk, c);
    KeptSubsequence(items, SizeOf(c));
    KeptNonempty(items, SizeOf(c));
    if |kept| == |items| {
      KeptAll(items, SizeOf(c));
    }
    JoinEmpty(kept);
    if |items| > 0 {
      FirstFits(walk, c);
      FirstListed(items, SizeOf(c));
    }
  }

  lemma FirstFits(walk: seq<Step>, c: Category)
    requires AllValid(walk) && |ItemsOf(walk, c)| > 0
    ensures |ItemsOf(walk, c)[0]| < SizeOf(c)
  {
    if c == UNCLASSIFIED {
      ItemsNonempty(walk, c);
    } else {
      IdItems(walk, c);
      IdsPrefix(ItemsOf(walk, c), 1);
    }
  }

  /** At most four unreadable entries are listed, and then the first four. */
  lemma UnreadableListed(walk: seq<Step>)
    requires AllValid(walk)
    ensures var items := ItemsOf(walk, UNREADABLE);
            ListOf(walk, UNREADABLE) == Listed(Join(items[..Least(|items|, 4)], " "), |items| <= 4)
  {
    IdItems(walk, UNREADABLE);
    ItemsNonempty(walk, UNREADABLE);
    IdsKept(ItemsOf(walk, UNREADABLE), UNREADABLE_SIZE, 4);
  }

  lemma {:induction false} IdItems(walk: seq<Step>, c: Category)
    requires AllValid(walk) && c != UNCLASSIFIED
    ensures AllIds(ItemsOf(walk, c))
  {
    if |walk| > 0 {
      var before, last := ItemsOf(walk[..|walk| - 1], c), walk[|walk| - 1];
      IdItems(walk[..|walk| - 1], c);
      assert (before + [last.Item()])[..|before|] == before;
    }
  }

  /** The identifiers of a medium: the first twenty-two, and "and more" when there are others. */
  lemma MediumListed(walk: seq<Step>, c: Category)
    requires AllValid(walk) && IsMedium(c)
    ensures var items := ItemsOf(walk, c);
            ListOf(walk, c) == Listed(Join(items[..Least(|items|, 22)], " "), |items| <= 22)
  {
    IdItems(walk, c);
    ItemsNonempty(walk, c);
    IdsKept(ItemsOf(walk, c), IDS_SIZE, 22);
  }

  /** The warning of a medium, read from its text: the first twenty-two entries of that type. */
  lemma {:induction false} ActiveReads(walk: seq<Step>, capped: bool, c: Category, ids: seq<string>)
    requires AllValid(walk) && IsMedium(c) && Has(walk, c) && ids == ItemsOf(walk, c)
    ensures RowOf(walk, capped, c).detail
            == "active in EFI boot order: "
               + (Join(ids[..Least(|ids|, 22)], " ") + if |ids| > 22 then " and more" else "")
  {
    DetailWhole(walk, capped, c);
    MediumListed(walk, c);
  }

  /** The reasons of a blocked row, read from its text: the first four entries that could not be read,
      whole items for those without a type, and the cut at 32 entries. */
  lemma {:induction false} BlockedReads(walk: seq<Step>, capped: bool, failed: seq<string>, kept: seq<string>)
    requires AllValid(walk) && Blocked(walk, capped) && failed == ItemsOf(walk, UNREADABLE)
    requires kept == Kept(ItemsOf(walk, UNCLASSIFIED), UNCLASSIFIED_SIZE)
    ensures BlockedOf(walk, capped)
            == "boot order not fully inspected"
               + (if failed == [] then ""
                  else "; unreadable: " + (Join(failed[..Least(|failed|, 4)], " ")
                                           + (if |failed| > 4 then " and more" else "")))
               + (if kept == [] then ""
                  else "; unclassified: " + (Join(kept, " ")
                                             + (if |kept| < |ItemsOf(walk, UNCLASSIFIED)| then " and more" else "")))
               + (if capped then "; list shortened at 32 entries" else "")
  {
    UnreadableListed(walk);
    ItemsNonempty(walk, UNREADABLE);
    ItemsNonempty(walk, UNCLASSIFIED);
    KeptNonempty(ItemsOf(walk, UNCLASSIFIED), UNCLASSIFIED_SIZE);
    FirstJoined(failed);
    JoinEmpty(kept);
  }

  lemma {:induction false} FirstJoined(items: seq<string>)
    requires Nonempty(items)
    ensures |Join(items[..Least(|items|, 4)], " ")| == 0 <==> |items| == 0
  {
    NonemptyPrefix(items, Least(|items|, 4));
    JoinEmpty(items[..Least(|items|, 4)]);
  }

  lemma {:induction false} NonemptyPrefix(items: seq<string>, k: nat)
    requires Nonempty(items) && k <= |items|
    ensures Nonempty(items[..k])
  {
    if k < |items| {
      NonemptyPrefix(items[..|items| - 1], k);
      assert items[..|items| - 1][..k] == items[..k];
    } else {
      assert items[..k] == items;
    }
  }

  // Variables as firmware writes them.

  /** The category of an entry as it was written. */
  ghost function WrittenCategory(o: BootEntry.LoadOption): (c: Category) {
    if o.attributes % 2 == 0 then IGNORED
    else match BootEntry.Promised(o)
      case USB => USB_ENTRY
      case NETWORK => NETWORK_ENTRY
      case CD => CD_ENTRY
      case UNKNOWN => UNCLASSIFIED
      case DISK => IGNORED
  }

  ghost predicate IsWritten(data: seq<Byte>, o: BootEntry.LoadOption) {
    && o.Valid() && (forall n <- o.path :: DevicePath.Whole(n))
    && exists variable: seq<Byte> :: |variable| == BootEntry.VARIABLE_ATTRIBUTES && data == o.Encode(variable)
  }

  /** The readable variables are those of the options, whose paths have complete nodes. */
  ghost predicate Written(efivars: map<nat, seq<Byte>>, options: map<nat, BootEntry.LoadOption>) {
    efivars.Keys == options.Keys && forall id <- options :: IsWritten(efivars[id], options[id])
  }

  /** The category of an id in the order. */
  ghost function CategoryIn(id: nat, options: map<nat, BootEntry.LoadOption>): (c: Category) {
    if id in options then WrittenCategory(options[id]) else UNREADABLE
  }

  lemma {:induction false} ParsedAsWritten(data: seq<Byte>, o: BootEntry.LoadOption, id: nat)
    requires IsWritten(data, o)
    ensures |data| >= 12
    ensures var e := BootEntry.Parsed(data, id);
            e.active == (o.attributes % 2 == 1) && e.kind == BootEntry.Promised(o)
  {
    var variable: seq<Byte> :| |variable| == BootEntry.VARIABLE_ATTRIBUTES && data == o.Encode(variable);
    BootEntry.CompleteRoundTrip(o, variable, id);
    BootEntry.LoadOptionRoundTrip(o, variable, id);
  }

  lemma {:induction false} StepOfWritten(id: nat, efivars: map<nat, seq<Byte>>, options: map<nat, BootEntry.LoadOption>)
    requires Written(efivars, options)
    ensures StepOf(id, efivars).Category() == CategoryIn(id, options)
  {
    if id in options {
      ParsedAsWritten(efivars[id], options[id], id);
      CategoryOf(Found(id, BootEntry.Parsed(efivars[id], id)), options[id]);
    }
  }

  lemma {:induction false} CategoryOf(step: Step, o: BootEntry.LoadOption)
    requires step.Found? && step.entry.active == (o.attributes % 2 == 1) && step.entry.kind == BootEntry.Promised(o)
    ensures step.Category() == WrittenCategory(o)
  {
  }

  lemma {:induction false} WalkAt(order: seq<nat>, efivars: map<nat, seq<Byte>>, i: nat)
    requires i < |order|
    ensures |WalkOf(order, efivars)| == |order| && WalkOf(order, efivars)[i] == StepOf(order[i], efivars)
  {
    WalkLength(order[..|order| - 1], efivars);
    if i < |order| - 1 {
      WalkAt(order[..|order| - 1], efivars, i);
    }
  }

  lemma {:induction false} WalkLength(order: seq<nat>, efivars: map<nat, seq<Byte>>)
    ensures |WalkOf(order, efivars)| == |order|
  {
    if |order| > 0 {
      WalkLength(order[..|order| - 1], efivars);
    }
  }

  ghost predicate Ordered(order: seq<nat>, options: map<nat, BootEntry.LoadOption>, c: Category) {
    exists i :: 0 <= i < |order| && CategoryIn(order[i], options) == c
  }

  lemma {:induction false} HasWritten(order: seq<nat>, efivars: map<nat, seq<Byte>>,
                                      options: map<nat, BootEntry.LoadOption>, c: Category)
    requires Written(efivars, options)
    ensures Has(WalkOf(order, efivars), c) <==> Ordered(order, options, c)
  {
    var walk := WalkOf(order, efivars);
    WalkLength(order, efivars);
    forall i | 0 <= i < |order|
      ensures walk[i].Category() == CategoryIn(order[i], options)
    {
      WalkAt(order, efivars, i);
      StepOfWritten(order[i], efivars, options);
    }
  }

  /** For variables as firmware writes them, a medium is WARN exactly when an active entry of the
      order was written for it, and OK exactly when none was, every entry is there, every active one
      has a type, and the order was not cut. */
  lemma {:induction false} WrittenRowState(order: seq<nat>, capped: bool, efivars: map<nat, seq<Byte>>,
                        options: map<nat, BootEntry.LoadOption>, c: Category)
    requires Written(efivars, options) && IsMedium(c) && AllValid(WalkOf(order, efivars))
    ensures var state := RowOf(WalkOf(order, efivars), capped, c).state;
            && (state == WARN <==> Ordered(order, options, c))
            && (state == OK <==>
                  && !capped && (forall id <- order :: id in options)
                  && !Ordered(order, options, c) && !Ordered(order, options, UNCLASSIFIED))
  {
    RowState(WalkOf(order, efivars), capped, c);
    HasWritten(order, efivars, options, c);
    HasWritten(order, efivars, options, UNREADABLE);
    HasWritten(order, efivars, options, UNCLASSIFIED);
    NoneMissing(order, options);
  }

  /** Every entry of the order is there exactly when none is unreadable. */
  lemma {:induction false} NoneMissing(order: seq<nat>, options: map<nat, BootEntry.LoadOption>)
    ensures (forall id <- order :: id in options) <==> !Ordered(order, options, UNREADABLE)
  {
    if id :| id in order && id !in options {
      var i :| 0 <= i < |order| && order[i] == id;
      assert CategoryIn(order[i], options) == UNREADABLE;
    }
  }
}
