/** The short list of key names (src/firmware_parsers.c): lines of `mokutil --short` output, each a
    hash and a name, joined in a buffer that says how many did not fit. */
module JoinNames {
  import opened CText
  import opened Decimal

  const TRACK_MAX: nat := 16
  const TRACK_NAME: nat := 64
  const HASH_CHARS: nat := 8
  const TAIL_RESERVE: nat := 32

  // Lines and records.

  function TrimEnd(s: string): (t: string)
    ensures t <= s
  {
    if |s| > 0 && IsBlank(s[|s| - 1]) then TrimEnd(s[..|s| - 1]) else s
  }

  datatype Record = Record(hash: string, name: string)

  /** The record of a line, or nothing when the line has no two fields. */
  function RecordOf(line: string): (records: seq<Record>)
    ensures |records| <= 1
  {
    var p := SkipBlank(line, 0);
    var space := FieldEnd(line, p);
    var name := SkipBlank(line, space);
    if name == |line| then [] else [Record(line[p..space], TrimEnd(line[name..]))]
  }

  function LineEnd(text: string, i: nat): (e: nat)
    requires i <= |text|
    ensures i <= e <= |text| && (e < |text| ==> IsBreak(text[e]))
    decreases |text| - i
  {
    if i == |text| || IsBreak(text[i]) then i else LineEnd(text, i + 1)
  }

  function SkipBreaks(text: string, i: nat): (e: nat)
    requires i <= |text|
    ensures i <= e <= |text| && (i < |text| && IsBreak(text[i]) ==> i < e)
    decreases |text| - i
  {
    if i < |text| && IsBreak(text[i]) then SkipBreaks(text, i + 1) else i
  }

  /** The records of a text, in order. */
  function Records(text: string): (records: seq<Record>) {
    if |text| == 0 then []
    else RecordOf(text[..LineEnd(text, 0)]) + Records(text[SkipBreaks(text, LineEnd(text, 0))..])
  }

  // Labels.

  /** What of a name is compared with the names already there. */
  function Tracked(r: Record, maxChars: nat): (t: string)
    ensures |t| <= TRACK_NAME
  {
    Prefix(Prefix(r.name, maxChars), TRACK_NAME)
  }

  /** A name, told apart by the start of its hash when its tracked part is taken. */
  function Label(r: Record, tracked: seq<string>, maxChars: nat): (l: string) {
    Prefix(r.name, maxChars) + if Tracked(r, maxChars) in tracked then " [" + Prefix(r.hash, HASH_CHARS) + "]" else ""
  }

  datatype Emitted = Emitted(labels: seq<string>, tracked: seq<string>)

  /** The labels that records leave behind: a record that finds no room is passed over. */
  function Emit(records: seq<Record>, limit: nat, maxNames: nat, maxChars: nat): (e: Emitted)
    ensures |e.labels| == |e.tracked| <= |records|
    ensures |e.labels| <= maxNames
  {
    if |records| == 0 then Emitted([], [])
    else TakeRecord(Emit(records[..|records| - 1], limit, maxNames, maxChars), records[|records| - 1],
                    limit, maxNames, maxChars)
  }

  function TakeRecord(e: Emitted, r: Record, limit: nat, maxNames: nat, maxChars: nat): (e': Emitted)
    ensures e' == e || (|e.labels| < maxNames && e'.labels == e.labels + [Label(r, e.tracked, maxChars)]
                        && e'.tracked == e.tracked + [Tracked(r, maxChars)])
  {
    var item := Label(r, e.tracked, maxChars);
    var separator := if |e.labels| > 0 then 2 else 0;
    if |e.labels| < maxNames && |Join(e.labels, ", ")| + separator + |item| + 1 < limit
    then Emitted(e.labels + [item], e.tracked + [Tracked(r, maxChars)])
    else e
  }

  method IsTracked(names: seq<string>, name: string) returns (collision: bool)
    ensures collision == (name in names)
  {
    for e := 0 to |names|
      invariant forall k :: 0 <= k < e ==> names[k] != name
    {
      if names[e] == name {
        return true;
      }
    }
    return false;
  }

  /** The attempt to emit one record behind the labels already in the buffer. */
  method EmitRecord(r: Record, buffer: string, tracked: seq<string>, limit: nat, maxNames: nat, maxChars: nat,
                    ghost e: Emitted)
    returns (longer: string, names: seq<string>)
    requires |e.labels| == |e.tracked| && buffer == Join(e.labels, ", ") && tracked == e.tracked
    ensures longer == Join(TakeRecord(e, r, limit, maxNames, maxChars).labels, ", ")
    ensures names == TakeRecord(e, r, limit, maxNames, maxChars).tracked
  {
    longer, names := buffer, tracked;
    if |tracked| < maxNames {
      var copied := Prefix(r.name, maxChars);
      var name := Prefix(copied, TRACK_NAME);
      var collision := IsTracked(tracked, name);
      var suffix := if collision then " [" + Prefix(r.hash, HASH_CHARS) + "]" else "";
      var separator := if |tracked| > 0 then ", " else "";
      if |buffer| + |separator| + |copied| + |suffix| + 1 < limit {
        JoinSnoc(e.labels, ", ", copied + suffix);
        Assoc(buffer, separator, copied + suffix);
        longer := buffer + separator + (copied + suffix);
        names := tracked + [name];
      }
    }
  }

  /** The fields of one line. */
  method ParseLine(line: string) returns (records: seq<Record>)
    ensures records == RecordOf(line)
  {
    var p := ScanBlank(line, 0);
    var space := ScanField(line, p);
    if p == |line| || space == |line| {
      return [];
    }
    var name := ScanBlank(line, space);
    if name == |line| {
      return [];
    }
    var trimmed := TrimName(line[name..]);
    return [Record(line[p..space], trimmed)];
  }

  method TrimName(s: string) returns (t: string)
    ensures t == TrimEnd(s)
  {
    var end := |s|;
    assert s[..end] == s;
    while end > 0 && IsBlank(s[end - 1])
      invariant end <= |s| && TrimEnd(s) == TrimEnd(s[..end])
    {
      assert s[..end][..end - 1] == s[..end - 1];
      end := end - 1;
    }
    return s[..end];
  }

  method FindLine(text: string, start: nat) returns (end: nat, next: nat)
    requires start <= |text|
    ensures end == start + LineEnd(text[start..], 0)
    ensures next == start + SkipBreaks(text[start..], end - start)
  {
    ghost var rest := text[start..];
    end := start;
    while end < |text| && !IsBreak(text[end])
      invariant start <= end <= |text| && LineEnd(rest, 0) == LineEnd(rest, end - start)
    {
      end := end + 1;
    }
    next := end;
    while next < |text| && IsBreak(text[next])
      invariant end <= next <= |text| && SkipBreaks(rest, end - start) == SkipBreaks(rest, next - start)
    {
      next := next + 1;
    }
  }

  // The whole list.

  function Clamp(maxNames: nat): (n: nat) {
    if maxNames > TRACK_MAX then TRACK_MAX else maxNames
  }

  /** What the end of the list says about the records that are not in it. */
  function Tail(total: nat, emitted: nat): (s: string)
    requires emitted <= total
  {
    if total == emitted then ""
    else if emitted > 0 then " (and " + Dec(total - emitted) + " more)"
    else Dec(total) + " " + (if total == 1 then "item" else "items") + ", none fit"
  }

  /** What one line adds. */
  method EmitLine(found: seq<Record>, buffer: string, tracked: seq<string>, total: nat, limit: nat, maxNames: nat,
                  maxChars: nat, ghost seen: seq<Record>, ghost e: Emitted)
    returns (longer: string, names: seq<string>, count: nat, ghost more: seq<Record>, ghost e': Emitted)
    requires |found| <= 1 && total == |seen| && e == Emit(seen, limit, maxNames, maxChars)
    requires buffer == Join(e.labels, ", ") && tracked == e.tracked
    ensures more == seen + found && count == |more| && e' == Emit(more, limit, maxNames, maxChars)
    ensures longer == Join(e'.labels, ", ") && names == e'.tracked
  {
    longer, names, count, more, e' := buffer, tracked, total, seen + found, e;
    if |found| > 0 {
      count := total + 1;
      EmitSnoc(seen, found[0], limit, maxNames, maxChars);
      assert seen + found == seen + [found[0]];
      longer, names := EmitRecord(found[0], buffer, tracked, limit, maxNames, maxChars, e);
      e' := TakeRecord(e, found[0], limit, maxNames, maxChars);
    } else {
      assert seen + found == seen;
    }
  }

  /** The loop over the lines: the labels in the buffer and the number of records seen. */
  method EmitLines(text: string, limit: nat, maxNames: nat, maxChars: nat)
    returns (buffer: string, tracked: seq<string>, total: nat, ghost e: Emitted)
    ensures e == Emit(Records(text), limit, maxNames, maxChars) && total == |Records(text)|
    ensures buffer == Join(e.labels, ", ") && tracked == e.tracked
  {
    buffer, tracked, total := "", [], 0;
    var cursor := 0;
    ghost var seen: seq<Record>, rest, all := [], Records(text), Records(text);
    e := Emit(seen, limit, maxNames, maxChars);
    assert text[0..] == text;
    while cursor < |text|
      invariant cursor <= |text|
      invariant rest == Records(text[cursor..]) && seen + rest == all && total == |seen|
      invariant e == Emit(seen, limit, maxNames, maxChars)
      invariant buffer == Join(e.labels, ", ") && tracked == e.tracked
    {
      var end, next := FindLine(text, cursor);
      var found := ParseLine(text[cursor..end]);
      rest := LineStep(text, cursor, end, next, found, seen, rest);
      buffer, tracked, total, seen, e := EmitLine(found, buffer, tracked, total, limit, maxNames, maxChars, seen, e);
      cursor := next;
    }
    assert seen == all;
  }

  lemma EmitSnoc(records: seq<Record>, r: Record, limit: nat, maxNames: nat, maxChars: nat)
    ensures Emit(records + [r], limit, maxNames, maxChars)
            == TakeRecord(Emit(records, limit, maxNames, maxChars), r, limit, maxNames, maxChars)
  {
    assert (records + [r])[..|records|] == records;
  }

  lemma LineStep(text: string, cursor: nat, end: nat, next: nat, found: seq<Record>, seen: seq<Record>,
                 rest: seq<Record>)
    returns (less: seq<Record>)
    requires cursor < |text| && rest == Records(text[cursor..])
    requires end == cursor + LineEnd(text[cursor..], 0) && found == RecordOf(text[cursor..end])
    requires next == cursor + SkipBreaks(text[cursor..], end - cursor)
    ensures cursor < next <= |text| && less == Records(text[next..])
    ensures (seen + found) + less == seen + rest
  {
    var here, later := text[cursor..], text[next..];
    assert here[..end - cursor] == text[cursor..end] && here[next - cursor..] == later;
    less := RecordsUnfold(here, later, found, end - cursor, next - cursor);
    Assoc(seen, found, less);
  }

  lemma RecordsUnfold(text: string, later: string, found: seq<Record>, end: nat, next: nat) returns (less: seq<Record>)
    requires |text| > 0 && end == LineEnd(text, 0) && found == RecordOf(text[..end])
    requires next == SkipBreaks(text, end) && later == text[next..]
    ensures next > 0 && less == Records(later) && Records(text) == found + less
  {
    less := Records(later);
  }

  /** The tail as far as the buffer takes it: behind a label always, alone when it fits. */
  function Ending(size: nat, total: nat, emitted: nat): (s: string)
    requires emitted <= total
  {
    if emitted > 0 || |Tail(total, emitted)| + 1 < size then Tail(total, emitted) else ""
  }

  /** The tail: behind at least one label the reserve holds it for every count. */
  method AppendTail(buffer: string, size: nat, total: nat, emitted: nat) returns (longer: string)
    requires emitted <= total < SIZE_LIMIT && |buffer| < size
    requires if emitted > 0 then |buffer| + 1 + TAIL_RESERVE < size else buffer == ""
    ensures longer == buffer + Ending(size, total, emitted) && |longer| < size
  {
    if total == emitted {
      assert buffer + "" == buffer;
      return buffer;
    }
    var tail := if emitted > 0 then " (and " + Dec(total - emitted) + " more)"
                else Dec(total) + " " + (if total == 1 then "item" else "items") + ", none fit";
    SizeDecLength(total - emitted);
    SizeDecLength(total);
    assert |tail| < 48 && (emitted > 0 ==> |tail| <= TAIL_RESERVE);
    if |buffer| + |tail| + 1 < size {
      return buffer + tail;
    }
    return buffer;
  }

  /** What stands behind the labels, read from its text: the number of records that are not among
      them, or of all records when there is no label; alone it may be missing, for want of room. */
  ghost predicate TailReads(behind: string, size: nat, total: nat, emitted: nat)
    requires emitted <= total
  {
    if emitted == total then behind == ""
    else if emitted > 0 then exists d :: Number(d, total - emitted) && behind == " (and " + d + " more)"
    else
      exists d, whole ::
        && Number(d, total) && whole == d + " " + (if total == 1 then "item" else "items") + ", none fit"
        && behind == if |whole| + 1 < size then whole else ""
  }

  lemma {:induction false} EndingReads(size: nat, total: nat, emitted: nat)
    requires emitted <= total
    ensures TailReads(Ending(size, total, emitted), size, total, emitted)
  {
    NumberOfDec(total - emitted);
    NumberOfDec(total);
  }

  /** The buffer holds the labels, then the number of records that are not among them. */
  ghost predicate Filled(buffer: string, labels: seq<string>, size: nat, total: nat) {
    var list := Join(labels, ", ");
    && |buffer| < size && |labels| <= total
    && (|labels| > 0 ==> |list| + 33 < size)
    && list <= buffer && TailReads(buffer[|list|..], size, total, |labels|)
  }

  lemma {:induction false} EndingFills(buffer: string, labels: seq<string>, size: nat, total: nat)
    requires |buffer| < size && |labels| <= total && (|labels| > 0 ==> |Join(labels, ", ")| + 33 < size)
    requires buffer == Join(labels, ", ") + Ending(size, total, |labels|)
    ensures Filled(buffer, labels, size, total)
  {
    EndingReads(size, total, |labels|);
    Behind(Join(labels, ", "), Ending(size, total, |labels|));
  }

  /** The list and its tail, in a buffer larger than the reserve. */
  method FillBuffer(text: string, size: nat, maxNames: nat, maxChars: nat)
    returns (total: nat, buffer: string, ghost labels: seq<string>)
    requires |text| < SIZE_LIMIT && size > TAIL_RESERVE
    ensures labels == Emit(Records(text), size - TAIL_RESERVE, maxNames, maxChars).labels
    ensures total == |Records(text)| && Filled(buffer, labels, size, total)
  {
    var tracked, list;
    ghost var e;
    list, tracked, total, e := EmitLines(text, size - TAIL_RESERVE, maxNames, maxChars);
    labels := e.labels;
    EmitBounds(text, size - TAIL_RESERVE, maxNames, maxChars, e);
    buffer := AppendTail(list, size, total, |tracked|);
    EndingFills(buffer, labels, size, total);
  }

  lemma EmitBounds(text: string, limit: nat, maxNames: nat, maxChars: nat, e: Emitted)
    requires |text| < SIZE_LIMIT && e == Emit(Records(text), limit, maxNames, maxChars)
    ensures |e.labels| == |e.tracked| <= |Records(text)| < SIZE_LIMIT
    ensures if |e.labels| > 0 then |Join(e.labels, ", ")| + 1 < limit else Join(e.labels, ", ") == ""
  {
    RecordsBound(text);
    EmitFits(Records(text), limit, maxNames, maxChars);
  }

  /** `bythos_join_short_list_names`: the buffer holds the labels in order and a tail that states
      exactly how many records are not among them. Only when no label fits can the tail be too
      long for the buffer. */
  method JoinShortListNames(text: string, before: string, size: nat, maxNames: nat, maxChars: nat)
    returns (total: nat, buffer: string, ghost labels: seq<string>)
    requires |text| < SIZE_LIMIT
    ensures size == 0 || maxNames == 0 || maxChars == 0 ==> total == 0 && buffer == before
    ensures size > 0 && maxNames > 0 && maxChars > 0 && size <= TAIL_RESERVE ==> total == 0 && buffer == ""
    ensures size > TAIL_RESERVE && maxNames > 0 && maxChars > 0 ==>
              && labels == Emit(Records(text), size - TAIL_RESERVE, Clamp(maxNames), maxChars).labels
              && total == |Records(text)| && |labels| <= maxNames && |labels| <= 16
              && Filled(buffer, labels, size, total)
  {
    labels := [];
    if size == 0 || maxNames == 0 || maxChars == 0 {
      return 0, before, labels;
    }
    var clamped := if maxNames > TRACK_MAX then TRACK_MAX else maxNames;
    if size <= TAIL_RESERVE {
      return 0, "", labels;
    }
    total, buffer, labels := FillBuffer(text, size, clamped, maxChars);
  }

  lemma {:induction false} Behind(list: string, tail: string)
    ensures list <= list + tail && (list + tail)[|list|..] == tail
  {
  }

  lemma {:induction false} EmitFits(records: seq<Record>, limit: nat, maxNames: nat, maxChars: nat)
    ensures var e := Emit(records, limit, maxNames, maxChars);
            if |e.labels| > 0 then |Join(e.labels, ", ")| + 1 < limit else Join(e.labels, ", ") == ""
  {
    if |records| > 0 {
      var before := Emit(records[..|records| - 1], limit, maxNames, maxChars);
      EmitFits(records[..|records| - 1], limit, maxNames, maxChars);
      JoinSnoc(before.labels, ", ", Label(records[|records| - 1], before.tracked, maxChars));
    }
  }

  lemma {:induction false} RecordsBound(text: string)
    ensures |Records(text)| <= |text|
    decreases |text|
  {
    if |text| > 0 {
      RecordsBound(text[SkipBreaks(text, LineEnd(text, 0))..]);
    }
  }

  // Which records the labels stand for.

  /** The records that found room. */
  function Chosen(records: seq<Record>, limit: nat, maxNames: nat, maxChars: nat): (chosen: seq<Record>) {
    if |records| == 0 then []
    else
      var before := records[..|records| - 1];
      if |Emit(records, limit, maxNames, maxChars).labels| > |Emit(before, limit, maxNames, maxChars).labels|
      then Chosen(before, limit, maxNames, maxChars) + [records[|records| - 1]]
      else Chosen(before, limit, maxNames, maxChars)
  }

  /** Label `i` stands for record `i` of the chosen ones, and carries the start of its hash exactly
      when an earlier label has the same tracked name. */
  predicate Stands(e: Emitted, chosen: seq<Record>, maxChars: nat) {
    && |chosen| == |e.labels| == |e.tracked|
    && forall i :: 0 <= i < |chosen| ==>
         && e.tracked[i] == Prefix(Prefix(chosen[i].name, maxChars), 64)
         && e.labels[i] == Prefix(chosen[i].name, maxChars)
                           + if e.tracked[i] in e.tracked[..i] then " [" + Prefix(chosen[i].hash, 8) + "]" else ""
  }

  lemma StandsSnoc(e: Emitted, chosen: seq<Record>, maxChars: nat, r: Record, e': Emitted)
    requires Stands(e, chosen, maxChars)
    requires e'.labels == e.labels + [Label(r, e.tracked, maxChars)] && e'.tracked == e.tracked + [Tracked(r, maxChars)]
    ensures Stands(e', chosen + [r], maxChars)
  {
    forall i | 0 <= i <= |chosen|
      ensures e'.tracked[..i] == e.tracked[..i]
    {
    }
    assert e.tracked[..|chosen|] == e.tracked;
  }

  /** A record is left out only when there are as many labels as are allowed, or when its label
      with its separator would reach the limit. */
  lemma {:induction false} LeftOutNoRoom(records: seq<Record>, r: Record, limit: nat, maxNames: nat, maxChars: nat)
    ensures var e, e' := Emit(records, limit, maxNames, maxChars), Emit(records + [r], limit, maxNames, maxChars);
            e' == e <==> |e.labels| >= maxNames
                         || |Join(e.labels + [Label(r, e.tracked, maxChars)], ", ")| + 1 >= limit
  {
    var e := Emit(records, limit, maxNames, maxChars);
    EmitSnoc(records, r, limit, maxNames, maxChars);
    JoinSnoc(e.labels, ", ", Label(r, e.tracked, maxChars));
    EmitFits(records, limit, maxNames, maxChars);
  }

  /** The labels are those of some of the records, in order. */
  lemma {:induction false} LabelsOfChosen(records: seq<Record>, limit: nat, maxNames: nat, maxChars: nat)
    ensures Stands(Emit(records, limit, maxNames, maxChars), Chosen(records, limit, maxNames, maxChars), maxChars)
    ensures Subsequence(Chosen(records, limit, maxNames, maxChars), records)
  {
    if |records| > 0 {
      var before, r := records[..|records| - 1], records[|records| - 1];
      LabelsOfChosen(before, limit, maxNames, maxChars);
      var e, chosen := Emit(before, limit, maxNames, maxChars), Chosen(before, limit, maxNames, maxChars);
      var e' := TakeRecord(e, r, limit, maxNames, maxChars);
      if |e'.labels| > |e.labels| {
        StandsSnoc(e, chosen, maxChars, r, e');
        assert (chosen + [r])[..|chosen|] == chosen;
      }
    }
  }

  // Lists as the tool prints them.

  predicate AllBlank(s: string) {
    forall i :: 0 <= i < |s| ==> IsBlank(s[i])
  }

  /** A hash and a name with blanks before, between and behind them. */
  datatype KeyLine = KeyLine(indent: string, record: Record, gap: string, trail: string) {
    predicate Valid() {
      && AllBlank(indent) && AllBlank(gap) && AllBlank(trail) && |gap| > 0
      && |record.hash| > 0 && (forall i :: 0 <= i < |record.hash| ==> !IsBlank(record.hash[i]))
      && |record.name| > 0 && !IsBlank(record.name[0]) && !IsBlank(record.name[|record.name| - 1])
      && forall i :: 0 <= i < |Text()| ==> !IsBreak(Text()[i])
    }

    function Text(): (s: string) {
      indent + (record.hash + (gap + (record.name + trail)))
    }
  }

  function ListText(lines: seq<KeyLine>): (s: string) {
    if |lines| == 0 then "" else lines[0].Text() + ("\n" + ListText(lines[1..]))
  }

  /** The records that the lines were printed for. */
  function RecordsIn(lines: seq<KeyLine>): (records: seq<Record>) {
    if |lines| == 0 then [] else [lines[0].record] + RecordsIn(lines[1..])
  }

  lemma {:induction false} TrimmedEnd(s: string, trail: string)
    requires |s| > 0 && !IsBlank(s[|s| - 1]) && AllBlank(trail)
    ensures TrimEnd(s + trail) == s
  {
    if |trail| == 0 {
      assert s + trail == s;
    } else {
      TrimmedEnd(s, trail[..|trail| - 1]);
      assert (s + trail)[..|s + trail| - 1] == s + trail[..|trail| - 1];
    }
  }

  /** A printed line is the record it was printed for. */
  lemma {:induction false} LineRecord(l: KeyLine)
    requires l.Valid()
    ensures RecordOf(l.Text()) == [l.record]
  {
    var s, hash := l.Text(), l.record.hash;
    var p := |l.indent|;
    var space := p + |hash|;
    var name := space + |l.gap|;
    SkipBlankAt(s, 0, p);
    assert forall k :: p <= k < space ==> s[k] == hash[k - p];
    FieldEndAt(s, p, space);
    assert forall k :: space <= k < name ==> s[k] == l.gap[k - space];
    SkipBlankAt(s, space, name);
    assert s[p..space] == hash && s[name..] == l.record.name + l.trail;
    TrimmedEnd(l.record.name, l.trail);
  }

  lemma {:induction false} LineEndAt(s: string, i: nat, j: nat)
    requires i <= j <= |s| && (j < |s| ==> IsBreak(s[j])) && forall k :: i <= k < j ==> !IsBreak(s[k])
    ensures LineEnd(s, i) == j
    decreases j - i
  {
    if i < j {
      LineEndAt(s, i + 1, j);
    }
  }

  /** Reading a printed list gives back its records, in order. */
  lemma {:induction false} ListRecords(lines: seq<KeyLine>)
    requires forall l <- lines :: l.Valid()
    ensures Records(ListText(lines)) == RecordsIn(lines)
  {
    if |lines| > 0 {
      assert lines[0] in lines && forall l <- lines[1..] :: l in lines;
      ListRecords(lines[1..]);
      FirstUnbroken(lines[1..]);
      FirstRecord(lines[0], ListText(lines[1..]));
    }
  }

  lemma FirstRecord(l: KeyLine, rest: string)
    requires l.Valid() && (|rest| > 0 ==> !IsBreak(rest[0]))
    ensures Records(l.Text() + ("\n" + rest)) == [l.record] + Records(rest)
  {
    LineRecord(l);
    FirstLine(l.Text(), rest);
  }

  lemma FirstUnbroken(lines: seq<KeyLine>)
    requires forall l <- lines :: l.Valid()
    ensures |ListText(lines)| > 0 ==> !IsBreak(ListText(lines)[0])
  {
    if |lines| > 0 {
      assert lines[0] in lines;
      assert ListText(lines)[0] == lines[0].Text()[0];
    }
  }

  lemma FirstLine(line: string, rest: string)
    requires |line| > 0 && (forall i :: 0 <= i < |line| ==> !IsBreak(line[i]))
    requires |rest| > 0 ==> !IsBreak(rest[0])
    ensures Records(line + ("\n" + rest)) == RecordOf(line) + Records(rest)
  {
    var text, end := line + ("\n" + rest), |line|;
    LineEndAt(text, 0, end);
    assert SkipBreaks(text, end + 1) == end + 1 && SkipBreaks(text, end) == end + 1;
    assert text[..end] == line && text[end + 1..] == rest;
  }

  // The independent count of nonempty lines.

  /** The lines with anything but blanks, when the current one has it already or not. */
  function NonemptyLines(text: string, inLine: bool): (n: nat) {
    if |text| == 0 then if inLine then 1 else 0
    else if IsBreak(text[0]) then (if inLine then 1 else 0) + NonemptyLines(text[1..], false)
    else NonemptyLines(text[1..], inLine || !IsBlank(text[0]))
  }

  /** `bythos_count_nonempty_lines`. */
  method CountNonemptyLines(text: string) returns (count: nat)
    ensures count == NonemptyLines(text, false)
  {
    count := 0;
    var inLine := false;
    var p := 0;
    while p < |text|
      invariant p <= |text|
      invariant count + NonemptyLines(text[p..], inLine) == NonemptyLines(text, false)
    {
      assert text[p..][1..] == text[p + 1..];
      if text[p] == '\n' || text[p] == '\r' {
        if inLine {
          count := count + 1;
          inLine := false;
        }
      } else if text[p] != ' ' && text[p] != '\t' {
        inLine := true;
      }
      p := p + 1;
    }
    if inLine {
      count := count + 1;
    }
  }

  /** Lines joined by line ends, with one behind each. */
  function TextOf(lines: seq<string>): (s: string) {
    if |lines| == 0 then "" else lines[0] + ("\n" + TextOf(lines[1..]))
  }

  function Inked(lines: seq<string>): (n: nat) {
    if |lines| == 0 then 0 else (if HasInk(lines[0]) then 1 else 0) + Inked(lines[1..])
  }

  /** The count of a text is that of its lines with anything but blanks. */
  lemma {:induction false} LinesCounted(lines: seq<string>)
    requires forall l <- lines :: forall i :: 0 <= i < |l| ==> !IsBreak(l[i])
    ensures NonemptyLines(TextOf(lines), false) == Inked(lines)
  {
    if |lines| > 0 {
      var line, rest := lines[0], "\n" + TextOf(lines[1..]);
      assert line in lines && forall l <- lines[1..] :: l in lines;
      LinesCounted(lines[1..]);
      LineCounted(line, rest, false);
      assert rest[1..] == TextOf(lines[1..]);
    }
  }

  predicate HasInk(line: string) {
    exists i :: 0 <= i < |line| && !IsBlank(line[i])
  }

  lemma {:induction false} LineCounted(line: string, rest: string, inLine: bool)
    requires forall i :: 0 <= i < |line| ==> !IsBreak(line[i])
    ensures NonemptyLines(line + rest, inLine) == NonemptyLines(rest, inLine || HasInk(line))
  {
    if |line| == 0 {
      assert line + rest == rest;
    } else {
      LineCounted(line[1..], rest, inLine || !IsBlank(line[0]));
      assert (line + rest)[1..] == line[1..] + rest;
      InkSplit(line);
    }
  }

  lemma InkSplit(line: string)
    requires |line| > 0
    ensures HasInk(line) <==> !IsBlank(line[0]) || HasInk(line[1..])
  {
    if i :| 0 <= i < |line| && !IsBlank(line[i]) {
      assert i > 0 ==> line[1..][i - 1] == line[i];
    }
    if i :| 0 <= i < |line| - 1 && !IsBlank(line[1..][i]) {
      assert line[i + 1] == line[1..][i];
    }
  }

  /** A line end closes the line, and further line ends count nothing. */
  lemma {:induction false} BreaksSkipped(text: string, i: nat, inLine: bool)
    requires i <= |text| && (i < |text| ==> IsBreak(text[i]))
    ensures NonemptyLines(text[i..], inLine)
            == (if inLine then 1 else 0) + NonemptyLines(text[SkipBreaks(text, i)..], false)
    decreases |text| - i
  {
    if i < |text| {
      assert text[i..][1..] == text[i + 1..];
      if i + 1 < |text| && IsBreak(text[i + 1]) {
        BreaksSkipped(text, i + 1, false);
      }
    }
  }

  lemma {:induction false} LineEndFirst(text: string, i: nat)
    requires i <= |text|
    ensures forall j :: i <= j < LineEnd(text, i) ==> !IsBreak(text[j])
    decreases |text| - i
  {
    if i < |text| && !IsBreak(text[i]) {
      LineEndFirst(text, i + 1);
    }
  }

  lemma RecordHasInk(line: string)
    requires |RecordOf(line)| > 0
    ensures HasInk(line)
  {
    var p := SkipBlank(line, 0);
    assert p < |line| && !IsBlank(line[p]);
  }

  /** The returned total never exceeds the independent count of nonempty lines. */
  lemma {:induction false} RecordsWithinLines(text: string)
    ensures |Records(text)| <= NonemptyLines(text, false)
    decreases |text|
  {
    if |text| > 0 {
      var e := LineEnd(text, 0);
      var line, next := text[..e], SkipBreaks(text, e);
      RecordsWithinLines(text[next..]);
      FirstCounted(text, e, line, next);
      if |RecordOf(line)| > 0 {
        RecordHasInk(line);
      }
      var less := RecordsUnfold(text, text[next..], RecordOf(line), e, next);
    }
  }

  /** The first line is counted when it has ink. */
  lemma {:induction false} FirstCounted(text: string, e: nat, line: string, next: nat)
    requires e == LineEnd(text, 0) && line == text[..e] && next == SkipBreaks(text, e)
    ensures NonemptyLines(text, false) == (if HasInk(line) then 1 else 0) + NonemptyLines(text[next..], false)
  {
    LineEndFirst(text, 0);
    assert line + text[e..] == text;
    LineCounted(line, text[e..], false);
    BreaksSkipped(text, e, HasInk(line));
  }
}
