/** Looking up a mount point in the mount table (src/runtime.c): of several mounts over one another
    the last is the one in force. */
module MountTable {
  import opened CText

  /** The second, third and fourth field of a line. */
  datatype Mount = Mount(point: string, fstype: string, options: string)

  /** Where the field after the one at `i` begins. */
  function NextField(s: string, i: nat): (j: nat)
    requires i <= |s|
    ensures i <= j <= |s|
  {
    SkipBlank(s, FieldEnd(s, i))
  }

  function FieldAt(s: string, i: nat): (f: string)
    requires i <= |s|
  {
    s[i..FieldEnd(s, i)]
  }

  function MountOf(line: string): (m: Mount) {
    var point := NextField(line, 0);
    var fstype := NextField(line, point);
    var options := NextField(line, fstype);
    Mount(FieldAt(line, point), FieldAt(line, fstype), FieldAt(line, options))
  }

  function LineEnd(s: string, i: nat): (j: nat)
    requires i <= |s|
    ensures i <= j <= |s| && (j < |s| ==> s[j] == '\n')
    decreases |s| - i
  {
    if i == |s| || s[i] == '\n' then i else LineEnd(s, i + 1)
  }

  function SkipBreaks(s: string, i: nat): (j: nat)
    requires i <= |s|
    ensures i <= j <= |s| && (i < |s| && s[i] == '\n' ==> i < j)
    decreases |s| - i
  {
    if i < |s| && (s[i] == '\n' || s[i] == '\r') then SkipBreaks(s, i + 1) else i
  }

  /** The mount found after the rest of a table. */
  function LastFrom(text: string, point: string, found: Option<Mount>): (m: Option<Mount>) {
    if |text| == 0 then found
    else
      var e := LineEnd(text, 0);
      var mount := MountOf(text[..e]);
      LastFrom(text[SkipBreaks(text, e)..], point, if mount.point == point then Some(mount) else found)
  }

  /** The walk over the fields of one line. */
  method ParseMount(line: string) returns (m: Mount)
    ensures m == MountOf(line)
  {
    var deviceEnd := ScanField(line, 0);
    var point := ScanBlank(line, deviceEnd);
    var pointEnd := ScanField(line, point);
    var fstype := ScanBlank(line, pointEnd);
    var fstypeEnd := ScanField(line, fstype);
    var options := ScanBlank(line, fstypeEnd);
    var optionsEnd := ScanField(line, options);
    return Mount(line[point..pointEnd], line[fstype..fstypeEnd], line[options..optionsEnd]);
  }

  method FindLine(text: string, start: nat) returns (end: nat, next: nat)
    requires start <= |text|
    ensures end == start + LineEnd(text[start..], 0)
    ensures next == start + SkipBreaks(text[start..], end - start)
  {
    ghost var rest := text[start..];
    end := start;
    while end < |text| && text[end] != '\n'
      invariant start <= end <= |text| && LineEnd(rest, 0) == LineEnd(rest, end - start)
    {
      end := end + 1;
    }
    next := end;
    while next < |text| && (text[next] == '\n' || text[next] == '\r')
      invariant end <= next <= |text| && SkipBreaks(rest, end - start) == SkipBreaks(rest, next - start)
    {
      next := next + 1;
    }
  }

  /** One line: its mount replaces the one found before when the point matches. */
  method TakeLine(mounts: string, cursor: nat, point: string, found: Option<Mount>, ghost rest: string)
    returns (next: nat, now: Option<Mount>, ghost later: string)
    requires cursor < |mounts| && rest == mounts[cursor..]
    ensures cursor < next <= |mounts| && later == mounts[next..]
    ensures LastFrom(later, point, now) == LastFrom(rest, point, found)
  {
    var end;
    end, next := FindLine(mounts, cursor);
    var mount := ParseMount(mounts[cursor..end]);
    now := if mount.point == point then Some(mount) else found;
    later := LineRest(mounts, rest, cursor, end, next);
    LineStep(rest, later, end - cursor, next - cursor, mount, point, found, now);
  }

  /** The loop over the lines. */
  method FindLast(mounts: string, point: string) returns (found: Option<Mount>)
    ensures found == LastFrom(mounts, point, None)
  {
    found := None;
    var cursor := 0;
    ghost var rest := mounts;
    while cursor < |mounts|
      invariant cursor <= |mounts| && rest == mounts[cursor..]
      invariant LastFrom(rest, point, found) == LastFrom(mounts, point, None)
    {
      cursor, found, rest := TakeLine(mounts, cursor, point, found, rest);
    }
  }

  lemma LineRest(text: string, rest: string, cursor: nat, end: nat, next: nat) returns (later: string)
    requires cursor <= end <= next <= |text| && rest == text[cursor..]
    ensures rest[..end - cursor] == text[cursor..end] && later == text[next..] && rest[next - cursor..] == later
  {
    later := text[next..];
  }

  lemma LineStep(
      text: string, later: string, end: nat, next: nat, mount: Mount, point: string,
      found: Option<Mount>, now: Option<Mount>)
    requires |text| > 0 && end == LineEnd(text, 0) && next == SkipBreaks(text, end)
    requires later == text[next..] && mount == MountOf(text[..end])
    requires now == if mount.point == point then Some(mount) else found
    ensures next > 0 && LastFrom(text, point, found) == LastFrom(later, point, now)
  {
  }

  /** A field and its terminator, in a caller's buffer; the rest of the buffer stays. */
  method CopyField(field: string, out: array<char>)
    requires |field| < out.Length
    modifies out
    ensures out[..] == field + ['\0'] + old(out[|field| + 1..])
  {
    for i := 0 to |field|
      invariant out[..i] == field[..i]
      invariant out[i..] == old(out[i..])
    {
      out[i] := field[i];
    }
    out[|field|] := '\0';
  }

  predicate Fits(field: string, out: array?<char>) {
    out != null ==> 0 < |field| < out.Length
  }

  /** `bythos_find_mount_entry`: on failure neither buffer is touched. A null pointer to the table
      is the empty table. */
  method FindMountEntry(mounts: string, point: string, fstype: array?<char>, options: array?<char>) returns (ok: bool)
    requires fstype != null ==> fstype != options
    modifies if fstype != null then {fstype} else {}
    modifies if options != null then {options} else {}
    ensures var m := LastFrom(mounts, point, None);
            && ok == (point != "" && m.Some? && Fits(m.value.fstype, fstype) && Fits(m.value.options, options))
            && (ok && fstype != null ==>
                  fstype[..] == m.value.fstype + ['\0'] + old(fstype[|m.value.fstype| + 1..]))
            && (ok && options != null ==>
                  options[..] == m.value.options + ['\0'] + old(options[|m.value.options| + 1..]))
    ensures !ok && fstype != null ==> fstype[..] == old(fstype[..])
    ensures !ok && options != null ==> options[..] == old(options[..])
  {
    if point == "" {
      return false;
    }
    var found := FindLast(mounts, point);
    if found.None? {
      return false;
    }
    var m := found.value;
    if fstype != null && (|m.fstype| == 0 || |m.fstype| >= fstype.Length) {
      return false;
    }
    if options != null && (|m.options| == 0 || |m.options| >= options.Length) {
      return false;
    }
    if fstype != null {
      CopyField(m.fstype, fstype);
    }
    if options != null {
      CopyField(m.options, options);
    }
    return true;
  }

  // Tables as the kernel prints them.

  predicate IsField(s: string) {
    |s| > 0 && forall i :: 0 <= i < |s| ==> !IsBlank(s[i]) && s[i] != '\n'
  }

  datatype Line = Line(device: string, mount: Mount, trailer: string) {
    predicate Valid() {
      && IsField(device) && device[0] != '\r' && IsField(mount.point) && IsField(mount.fstype) && IsField(mount.options)
      && forall i :: 0 <= i < |trailer| ==> trailer[i] != '\n' && trailer[i] != '\r'
    }

    function Text(): (s: string) {
      device + (" " + (mount.point + (" " + (mount.fstype + (" " + (mount.options + (" " + trailer)))))))
    }
  }

  predicate AllValid(lines: seq<Line>) {
    |lines| == 0 || (lines[0].Valid() && AllValid(lines[1..]))
  }

  function TableText(lines: seq<Line>): (s: string) {
    if |lines| == 0 then "" else lines[0].Text() + ("\n" + TableText(lines[1..]))
  }

  /** The mount in force: the last one over the point. */
  function InForce(lines: seq<Line>, point: string, found: Option<Mount>): (m: Option<Mount>) {
    if |lines| == 0 then found
    else InForce(lines[1..], point, if lines[0].mount.point == point then Some(lines[0].mount) else found)
  }

  /** A field with a blank behind it. */
  lemma FieldRead(s: string, i: nat, field: string, rest: string)
    requires i <= |s| && s[i..] == field + (" " + rest) && IsField(field)
    ensures FieldEnd(s, i) == i + |field| < |s| && FieldAt(s, i) == field && s[i + |field| + 1..] == rest
  {
    var end := i + |field|;
    forall k | i <= k < end
      ensures !IsBlank(s[k])
    {
      assert s[k] == s[i..][k - i];
    }
    assert s[end] == s[i..][|field|];
    FieldEndAt(s, i, end);
    assert s[i..end] == s[i..][..|field|];
    assert s[end + 1..] == s[i..][|field| + 1..];
  }

  /** ... and another field behind the blank. */
  lemma FieldNext(s: string, i: nat, field: string, next: string, rest: string)
    requires i <= |s| && s[i..] == field + (" " + (next + rest)) && IsField(field) && IsField(next)
    ensures FieldAt(s, i) == field && NextField(s, i) == i + |field| + 1 && s[i + |field| + 1..] == next + rest
  {
    FieldRead(s, i, field, next + rest);
    var end := i + |field|;
    assert s[end] == s[i..][|field|] == ' ';
    assert s[end + 1] == s[end + 1..][0] == next[0];
    assert SkipBlank(s, end + 1) == end + 1;
  }

  /** The fields of a printed line. */
  lemma MountRead(line: Line)
    requires line.Valid()
    ensures MountOf(line.Text()) == line.mount
  {
    var s, m := line.Text(), line.mount;
    var behind := " " + line.trailer;
    FieldNext(s, 0, line.device, m.point, " " + (m.fstype + (" " + (m.options + behind))));
    var point := NextField(s, 0);
    FieldNext(s, point, m.point, m.fstype, " " + (m.options + behind));
    var fstype := NextField(s, point);
    FieldNext(s, fstype, m.fstype, m.options, behind);
    FieldRead(s, NextField(s, fstype), m.options, line.trailer);
  }

  lemma {:induction false} LineEndAt(s: string, i: nat, j: nat)
    requires i <= j <= |s| && (j < |s| ==> s[j] == '\n') && forall k :: i <= k < j ==> s[k] != '\n'
    ensures LineEnd(s, i) == j
    decreases j - i
  {
    if i < j {
      LineEndAt(s, i + 1, j);
    }
  }

  lemma TextUnbroken(line: Line)
    requires line.Valid()
    ensures forall k :: 0 <= k < |line.Text()| ==> line.Text()[k] != '\n'
  {
    Unbroken(line.mount.options, line.trailer);
    Unbroken(line.mount.fstype, line.mount.options + (" " + line.trailer));
    Unbroken(line.mount.point, line.mount.fstype + (" " + (line.mount.options + (" " + line.trailer))));
    Unbroken(line.device,
             line.mount.point + (" " + (line.mount.fstype + (" " + (line.mount.options + (" " + line.trailer))))));
  }

  lemma Unbroken(field: string, rest: string)
    requires IsField(field) && forall k :: 0 <= k < |rest| ==> rest[k] != '\n'
    ensures var s := field + (" " + rest); forall k :: 0 <= k < |s| ==> s[k] != '\n'
  {
  }

  /** Looking up a point in a printed table gives the last mount over it: earlier ones, other
      points and points that only begin the same way do not matter. */
  lemma {:induction false} LookupExact(lines: seq<Line>, point: string, found: Option<Mount>)
    requires AllValid(lines)
    ensures LastFrom(TableText(lines), point, found) == InForce(lines, point, found)
  {
    if |lines| > 0 {
      var line, later := lines[0], lines[1..];
      var text := TableText(lines);
      TextUnbroken(line);
      MountRead(line);
      LineEndAt(text, 0, |line.Text()|);
      TableStart(later);
      assert text[..|line.Text()|] == line.Text();
      assert text[|line.Text()| + 1..] == TableText(later);
      assert |later| > 0 ==> text[|line.Text()| + 1] == TableText(later)[0];
      assert SkipBreaks(text, |line.Text()|) == |line.Text()| + 1;
      LookupExact(later, point, if line.mount.point == point then Some(line.mount) else found);
    }
  }

  lemma TableStart(lines: seq<Line>)
    requires AllValid(lines)
    ensures |TableText(lines)| > 0 <==> |lines| > 0
    ensures |lines| > 0 ==> TableText(lines)[0] != '\r' && TableText(lines)[0] != '\n'
  {
  }

  predicate Over(lines: seq<Line>, point: string) {
    |lines| > 0 && (lines[0].mount.point == point || Over(lines[1..], point))
  }

  lemma {:induction false} NothingOver(lines: seq<Line>, point: string, found: Option<Mount>)
    requires !Over(lines, point)
    ensures InForce(lines, point, found) == found
  {
    if |lines| > 0 {
      NothingOver(lines[1..], point, found);
    }
  }

  /** The mount behind which no other follows over the point is the one in force. */
  lemma {:induction false} LastInForce(
      before: seq<Line>, l: Line, after: seq<Line>, point: string, found: Option<Mount>)
    requires l.mount.point == point && !Over(after, point)
    ensures InForce(before + ([l] + after), point, found) == Some(l.mount)
  {
    var lines := before + ([l] + after);
    if |before| == 0 {
      assert lines[1..] == after;
      NothingOver(after, point, Some(l.mount));
    } else {
      var first := before[0];
      assert lines[1..] == before[1..] + ([l] + after);
      LastInForce(before[1..], l, after, point, if first.mount.point == point then Some(first.mount) else found);
    }
  }
}
