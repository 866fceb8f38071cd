/** The SBAT CSV parser (src/firmware_parsers.c): one `component,generation,...` entry a line. */
module SbatCsv {
  import opened CText
  import opened Decimal

  const COMPONENT_MAX: nat := 64
  const GENERATION_CHARS: nat := 16
  const UINT_MAX: nat := 0xFFFF_FFFF
  const NUL: char := '\0'

  /** `bythos_sbat_entry_t`. */
  datatype Entry = Entry(component: string, generation: nat)

  // Generations, read by `strtoul` (section 7.22.1.4 of ISO C11).

  predicate IsSpace(c: char) {
    c == ' ' || c == '\t' || c == '\n' || c == '\U{0B}' || c == '\U{0C}' || c == '\r'
  }

  function SkipSpace(s: string, i: nat): (j: nat)
    requires i <= |s|
    ensures i <= j <= |s|
    decreases |s| - i
  {
    if i < |s| && IsSpace(s[i]) then SkipSpace(s, i + 1) else i
  }

  /** `unsigned long` values saturate, and a minus sign negates modulo 2^64. */
  function Signed(magnitude: nat, negative: bool): (n: nat)
    ensures n < SIZE_LIMIT
  {
    if magnitude >= SIZE_LIMIT then SIZE_LIMIT - 1
    else if negative && magnitude > 0 then SIZE_LIMIT - magnitude
    else magnitude
  }

  /** The value that `strtoul(s, &end, 10)` returns, and `end`. */
  function Strtoul(s: string): (r: (nat, nat))
    ensures r.1 <= |s|
  {
    var i := SkipSpace(s, 0);
    var j := if i < |s| && (s[i] == '-' || s[i] == '+') then i + 1 else i;
    var k := DigitsEnd(s, j);
    if k == j then (0, 0) else (Signed(Value(s[j..k]), s[i] == '-'), k)
  }

  /** The generation that a field denotes. */
  function Generation(field: string): (g: Option<nat>)
    ensures g.Some? ==> g.value <= UINT_MAX
  {
    if |field| == 0 || |field| > GENERATION_CHARS then None
    else if field[0] == '-' || field[0] == '+' then None
    else if Strtoul(field).1 != |field| || Strtoul(field).0 > UINT_MAX then None
    else Some(Strtoul(field).0)
  }

  /** A field read character by character: white space, a sign that may only stand behind some, and
      digits. */
  ghost predicate FieldReads(field: string, spaces: string, sign: string, digits: string, n: nat) {
    && field == spaces + (sign + digits)
    && (forall i :: 0 <= i < |spaces| ==> IsSpace(spaces[i]))
    && (sign == "" || sign == "+" || sign == "-") && (spaces == "" ==> sign == "")
    && Number(digits, n) && (sign == "-" ==> n == 0)
  }

  lemma {:induction false} SkipSpaceAt(s: string, i: nat, j: nat)
    requires i <= j <= |s| && (j < |s| ==> !IsSpace(s[j])) && forall k :: i <= k < j ==> IsSpace(s[k])
    ensures SkipSpace(s, i) == j
    decreases j - i
  {
    if i < j {
      SkipSpaceAt(s, i + 1, j);
    }
  }

  lemma {:induction false} SpaceSkipped(s: string, i: nat)
    requires i <= |s|
    ensures forall k :: i <= k < SkipSpace(s, i) ==> IsSpace(s[k])
    decreases |s| - i
  {
    if i < |s| && IsSpace(s[i]) {
      SpaceSkipped(s, i + 1);
    }
  }

  /** White space up to `i`, a sign or nothing up to `j`, and digits. */
  ghost predicate Shape(s: string, i: nat, j: nat) {
    && i <= j < |s| && (forall k :: 0 <= k < i ==> IsSpace(s[k]))
    && j == (if s[i] == '-' || s[i] == '+' then i + 1 else i)
    && forall k :: j <= k < |s| ==> IsDigit(s[k])
  }

  /** What `strtoul` makes of such a text. */
  lemma {:induction false} ShapeParsed(s: string, i: nat, j: nat)
    requires Shape(s, i, j)
    ensures Strtoul(s) == (Signed(Value(s[j..]), s[i] == '-'), |s|)
  {
    SkipSpaceAt(s, 0, i);
    DigitsEndAt(s, j, |s|);
    assert s[j..|s|] == s[j..];
  }

  lemma {:induction false} ShapeFound(s: string) returns (i: nat, j: nat)
    requires Strtoul(s).1 == |s| > 0
    ensures Shape(s, i, j)
  {
    SpaceSkipped(s, 0);
    i := SkipSpace(s, 0);
    j := if i < |s| && (s[i] == '-' || s[i] == '+') then i + 1 else i;
  }

  /** A field of three such parts has that shape. */
  lemma {:induction false} FieldShape(field: string, spaces: string, sign: string, digits: string, n: nat)
    returns (i: nat, j: nat)
    requires FieldReads(field, spaces, sign, digits, n)
    ensures Shape(field, i, j) && field[j..] == digits && (field[i] == '-' ==> n == 0)
  {
    i, j := |spaces|, |spaces| + |sign|;
    var signed := sign + digits;
    assert field[..i] == spaces && field[i..] == signed;
    assert signed[|sign|..] == digits && signed[0] == if sign == "" then digits[0] else sign[0];
    assert field[i] == signed[0];
    assert field[j..] == digits;
  }

  lemma {:induction false} ShapeValue(s: string, i: nat, j: nat, n: nat)
    requires Shape(s, i, j) && Value(s[j..]) == n <= UINT_MAX && (s[i] == '-' ==> n == 0)
    ensures Strtoul(s) == (n, |s|)
  {
    ShapeParsed(s, i, j);
  }

  /** Sixteen digits are too few for a negated number to come out small. */
  lemma {:induction false} ShortValue(digits: string, negative: bool)
    requires |digits| <= 16 && forall i :: 0 <= i < |digits| ==> IsDigit(digits[i])
    requires Signed(Value(digits), negative) <= UINT_MAX
    ensures Signed(Value(digits), negative) == Value(digits) && (negative ==> Value(digits) == 0)
  {
    ValueBound(digits);
    Pow10Grows(|digits|, 16);
    SixteenDigits();
  }

  /** The parts of a text of that shape. */
  lemma {:induction false} ShapeSplit(s: string, i: nat, j: nat)
    requires Shape(s, i, j)
    ensures FieldReads(s, s[..i], s[i..j], s[j..], Value(s[j..]))
            <==> (i == 0 ==> j == 0) && (s[i] == '-' ==> Value(s[j..]) == 0)
  {
    assert s == s[..i] + (s[i..j] + s[j..]);
    assert s[i..j] == if j == i then "" else [s[i]];
  }

  /** The parts of a field that denotes a generation. */
  lemma {:induction false} FieldParts(field: string) returns (spaces: string, sign: string, digits: string)
    requires Generation(field).Some?
    ensures FieldReads(field, spaces, sign, digits, Generation(field).value)
  {
    var i, j := ShapeFound(field);
    spaces, sign, digits := field[..i], field[i..j], field[j..];
    ShapeParsed(field, i, j);
    ShortValue(digits, field[i] == '-');
    ShapeSplit(field, i, j);
  }

  lemma {:induction false} SixteenDigits()
    ensures Pow10(16) < SIZE_LIMIT - UINT_MAX
  {
    assert Pow10(4) == 10000 by { assert Pow10(2) == 100; }
    assert Pow10(8) == 1_0000_0000 by { assert Pow10(6) == 100_0000; }
    assert Pow10(12) == 1_0000_0000_0000 by { assert Pow10(10) == 100_0000_0000; }
    assert Pow10(16) == 1_0000_0000_0000_0000 by { assert Pow10(14) == 100_0000_0000_0000; }
  }

  lemma {:induction false} FieldStarts(field: string, spaces: string, sign: string, digits: string, n: nat)
    requires FieldReads(field, spaces, sign, digits, n)
    ensures |field| > 0 && field[0] != '-' && field[0] != '+'
  {
    if spaces == "" {
      assert field == digits;
    } else {
      assert field[0] == spaces[0];
    }
  }

  lemma {:induction false} FieldDenotes(field: string, spaces: string, sign: string, digits: string, n: nat)
    requires FieldReads(field, spaces, sign, digits, n) && |field| <= 16 && n <= UINT_MAX
    ensures Generation(field) == Some(n)
  {
    FieldStarts(field, spaces, sign, digits, n);
    var i, j := FieldShape(field, spaces, sign, digits, n);
    ShapeValue(field, i, j, n);
  }

  /** A field denotes a generation exactly when it has at most sixteen characters and reads as white
      space, a sign behind it and digits, of a value that an `unsigned int` holds. */
  lemma {:induction false} GenerationExact(field: string, n: nat)
    ensures Generation(field) == Some(n)
            <==> |field| <= 16 && n <= 0xFFFF_FFFF
                 && exists spaces, sign, digits :: FieldReads(field, spaces, sign, digits, n)
  {
    if Generation(field) == Some(n) {
      var spaces, sign, digits := FieldParts(field);
    }
    if spaces, sign, digits :| FieldReads(field, spaces, sign, digits, n) && |field| <= 16 && n <= 0xFFFF_FFFF {
      FieldDenotes(field, spaces, sign, digits, n);
    }
  }

  // Lines.

  predicate EndsLine(c: char) { c == '\n' || c == '\r' || c == NUL }

  function LineEnd(text: string, i: nat): (e: nat)
    requires i <= |text|
    ensures i <= e <= |text|
    decreases |text| - i
  {
    if i == |text| || EndsLine(text[i]) then i else LineEnd(text, i + 1)
  }

  function Comma(line: string, i: nat): (e: nat)
    requires i <= |line|
    ensures i <= e <= |line|
    decreases |line| - i
  {
    if i == |line| || line[i] == ',' then i else Comma(line, i + 1)
  }

  /** The entry of a line, or nothing when the line is not one. */
  function LineEntry(line: string): (entries: seq<Entry>)
    ensures |entries| <= 1
  {
    var comma := Comma(line, 0);
    if comma == |line| || comma == 0 || comma >= COMPONENT_MAX then []
    else
      var generation := Generation(line[comma + 1..Comma(line, comma + 1)]);
      if generation.None? then [] else [Entry(line[..comma], generation.value)]
  }

  /** Where the next line begins. */
  function NextLine(text: string): (next: nat)
    requires |text| > 0 && text[0] != NUL
    ensures 0 < next <= |text|
  {
    var e := LineEnd(text, 0);
    if e < |text| && text[e] != NUL then e + 1 else e
  }

  /** The entries of a text, up to its first NUL. */
  function Entries(text: string): (entries: seq<Entry>)
    decreases |text|
  {
    if |text| == 0 || text[0] == NUL then []
    else LineEntry(text[..LineEnd(text, 0)]) + Entries(text[NextLine(text)..])
  }

  method FindLineEnd(text: string, start: nat) returns (e: nat)
    requires start <= |text|
    ensures start <= e <= |text| && e == start + LineEnd(text[start..], 0)
    ensures e < |text| ==> EndsLine(text[e])
  {
    e := start;
    ghost var rest := text[start..];
    while e < |text| && text[e] != '\n' && text[e] != '\r' && text[e] != NUL
      invariant start <= e <= |text|
      invariant LineEnd(rest, 0) == LineEnd(rest, e - start)
    {
      e := e + 1;
    }
  }

  method FindComma(line: string, start: nat) returns (e: nat)
    requires start <= |line|
    ensures e == Comma(line, start)
  {
    e := start;
    while e < |line| && line[e] != ','
      invariant start <= e <= |line|
      invariant Comma(line, start) == Comma(line, e)
    {
      e := e + 1;
    }
  }

  /** The tests on one line. */
  method ParseLine(line: string) returns (entries: seq<Entry>)
    ensures entries == LineEntry(line)
  {
    if |line| == 0 {
      return [];
    }
    var comma := FindComma(line, 0);
    if comma == |line| || comma == 0 || comma >= COMPONENT_MAX {
      return [];
    }
    var end := FindComma(line, comma + 1);
    var length: nat := end - (comma + 1);
    if length == 0 || length > GENERATION_CHARS {
      return [];
    }
    var field := line[comma + 1..end];
    if field[0] == '-' || field[0] == '+' {
      return [];
    }
    var parsed := Strtoul(field);
    if parsed.1 != |field| || parsed.0 > UINT_MAX {
      return [];
    }
    return [Entry(line[..comma], parsed.0)];
  }

  /** `bythos_parse_sbat_csv`: a capped parse is a prefix of the uncapped one. */
  method ParseCsv(text: string, max: nat) returns (entries: seq<Entry>)
    ensures entries == Prefix(Entries(text), max)
  {
    entries := [];
    if max == 0 {
      return;
    }
    var cursor := 0;
    ghost var rest, all := Entries(text), Entries(text);
    assert text[0..] == text;
    while cursor < |text| && |entries| < max
      invariant cursor <= |text| && |entries| <= max
      invariant rest == Entries(text[cursor..])
      invariant entries + rest == all
    {
      if text[cursor] == NUL {
        break;
      }
      var end := FindLineEnd(text, cursor);
      var next := if end < |text| && (text[end] == '\n' || text[end] == '\r') then end + 1 else end;
      var found := ParseLine(text[cursor..end]);
      rest := LineStep(text, cursor, end, next, found, entries, rest);
      entries := entries + found;
      cursor := next;
    }
  }

  lemma {:induction false} LineStep(text: string, cursor: nat, end: nat, next: nat, found: seq<Entry>,
                                    entries: seq<Entry>, rest: seq<Entry>)
    returns (less: seq<Entry>)
    requires cursor < |text| && text[cursor] != NUL && rest == Entries(text[cursor..])
    requires end == cursor + LineEnd(text[cursor..], 0) && found == LineEntry(text[cursor..end])
    requires next == if end < |text| && text[end] != NUL then end + 1 else end
    ensures cursor < next <= |text| && less == Entries(text[next..])
    ensures (entries + found) + less == entries + rest
  {
    var here, later := SliceWithin(text, cursor, end, next);
    less := EntriesStep(here, later, found, end - cursor, next - cursor, entries, rest);
  }

  lemma {:induction false} EntriesStep(here: string, later: string, found: seq<Entry>, end: nat, next: nat,
                                       entries: seq<Entry>, rest: seq<Entry>)
    returns (less: seq<Entry>)
    requires |here| > 0 && here[0] != NUL && rest == Entries(here)
    requires end == LineEnd(here, 0) && found == LineEntry(here[..end])
    requires next == (if end < |here| && here[end] != NUL then end + 1 else end) && later == here[next..]
    ensures next > 0 && less == Entries(later) && (entries + found) + less == entries + rest
  {
    less := EntriesUnfold(here, later, found, end, next);
    Assoc(entries, found, less);
  }

  lemma {:induction false} SliceWithin(text: string, cursor: nat, end: nat, next: nat)
    returns (here: string, later: string)
    requires cursor < |text| && cursor <= end <= next <= |text|
    ensures here == text[cursor..] && later == text[next..]
    ensures |here| == |text| - cursor && here[0] == text[cursor]
    ensures here[..end - cursor] == text[cursor..end] && here[next - cursor..] == later
    ensures end < |text| ==> here[end - cursor] == text[end]
  {
    here, later := text[cursor..], text[next..];
  }

  lemma {:induction false} EntriesUnfold(text: string, later: string, found: seq<Entry>, end: nat, next: nat)
    returns (less: seq<Entry>)
    requires |text| > 0 && text[0] != NUL && end == LineEnd(text, 0) && found == LineEntry(text[..end])
    requires next == (if end < |text| && text[end] != NUL then end + 1 else end) && later == text[next..]
    ensures next > 0 && less == Entries(later) && Entries(text) == found + less
  {
    less := Entries(later);
  }

  // Lines are parsed one by one.

  lemma {:induction false} LineEndAt(text: string, i: nat, e: nat)
    requires i <= e <= |text| && (e < |text| ==> EndsLine(text[e]))
    requires forall j :: i <= j < e ==> !EndsLine(text[j])
    ensures LineEnd(text, i) == e
    decreases e - i
  {
    if i < e {
      LineEndAt(text, i + 1, e);
    }
  }

  lemma {:induction false} LineEndFirst(text: string, i: nat)
    requires i <= |text|
    ensures var e := LineEnd(text, i);
            (e < |text| ==> EndsLine(text[e])) && forall j :: i <= j < e ==> !EndsLine(text[j])
    decreases |text| - i
  {
    if i < |text| && !EndsLine(text[i]) {
      LineEndFirst(text, i + 1);
    }
  }

  /** Text behind a line end does not move the first line end. */
  lemma LineEndAppend(a: string, tail: string)
    requires |tail| > 0 && EndsLine(tail[0])
    ensures LineEnd(a + tail, 0) == LineEnd(a, 0)
  {
    LineEndFirst(a, 0);
    LineEndAt(a + tail, 0, LineEnd(a, 0));
  }

  /** The first line of `a` is the first line of `a + tail`, when it ends inside `a`. */
  lemma FirstLine(a: string, tail: string, whole: string) returns (line: seq<Entry>, later: string)
    requires |tail| > 0 && EndsLine(tail[0]) && whole == a + tail
    requires |a| > 0 && a[0] != NUL && LineEnd(a, 0) < |a|
    ensures |later| < |a| && forall c <- later :: c in a
    ensures Entries(a) == line + Entries(later)
    ensures Entries(whole) == line + Entries(later + tail)
  {
    LineEndAppend(a, tail);
    var e, next := LineEnd(a, 0), NextLine(a);
    line, later := LineEntry(a[..e]), a[next..];
    assert whole[..e] == a[..e] && whole[next..] == later + tail;
    var inA := EntriesUnfold(a, later, line, e, next);
    var inWhole := EntriesUnfold(whole, later + tail, line, e, next);
  }

  /** Parsing is a homomorphism on lines. */
  lemma {:induction false} EntriesAppend(a: string, newline: char, b: string)
    requires NUL !in a && (newline == '\n' || newline == '\r')
    ensures Entries(a + ([newline] + b)) == Entries(a) + Entries(b)
    decreases |a|
  {
    var tail := [newline] + b;
    if |a| == 0 {
      EmptyLine(a + tail, b);
    } else if LineEnd(a, 0) < |a| {
      var line, later := FirstLine(a, tail, a + tail);
      EntriesAppend(later, newline, b);
      Assoc(line, Entries(later), Entries(b));
    } else {
      LineEndAppend(a, tail);
      LastLine(a, tail, b);
    }
  }

  lemma EmptyLine(text: string, b: string)
    requires |text| > 0 && (text[0] == '\n' || text[0] == '\r') && text[1..] == b
    ensures Entries(text) == Entries(b)
  {
    assert text[..0] == "" && LineEnd(text, 0) == 0;
  }

  lemma LastLine(a: string, tail: string, b: string)
    requires |a| > 0 && a[0] != NUL && LineEnd(a, 0) == |a| == LineEnd(a + tail, 0)
    requires |tail| > 0 && tail[0] != NUL && b == tail[1..]
    ensures Entries(a + tail) == Entries(a) + Entries(b)
  {
    assert a[..|a|] == a && a[|a|..] == [];
    assert (a + tail)[..|a|] == a && (a + tail)[|a| + 1..] == b;
    assert Entries(a) == LineEntry(a);
  }

  /** What stands behind a NUL is not read. */
  lemma {:induction false} EntriesUntilNul(a: string, b: string)
    requires NUL !in a
    ensures Entries(a + ([NUL] + b)) == Entries(a)
    decreases |a|
  {
    var tail := [NUL] + b;
    if |a| > 0 && LineEnd(a, 0) < |a| {
      var line, later := FirstLine(a, tail, a + tail);
      EntriesUntilNul(later, b);
    } else if |a| > 0 {
      LineEndAppend(a, tail);
      assert (a + tail)[..|a|] == a[..|a|] && (a + tail)[|a|..] == tail;
    }
  }

  // Printing entries and reading them back.

  /** A line: its entry and further columns, with their commas. */
  datatype Line = Line(entry: Entry, columns: string) {
    predicate Valid() {
      && 0 < |entry.component| < COMPONENT_MAX
      && entry.generation <= UINT_MAX
      && (forall c <- entry.component :: c != ',' && !EndsLine(c))
      && (forall c <- columns :: !EndsLine(c))
      && (|columns| > 0 ==> columns[0] == ',')
    }

    function Text(): (s: string) {
      entry.component + ("," + (Dec(entry.generation) + columns))
    }
  }

  lemma {:induction false} CommaAt(line: string, i: nat, k: nat)
    requires i <= k <= |line| && (k < |line| ==> line[k] == ',')
    requires forall j :: i <= j < k ==> line[j] != ','
    ensures Comma(line, i) == k
    decreases k - i
  {
    if i < k {
      CommaAt(line, i + 1, k);
    }
  }

  /** Every generation reads back from its decimal form. */
  lemma GenerationOfDec(n: nat)
    requires n <= UINT_MAX
    ensures Generation(Dec(n)) == Some(n)
  {
    var s := Dec(n);
    assert Pow10(4) == 10000 by { assert Pow10(2) == 100; }
    assert Pow10(8) == 1_0000_0000 by { assert Pow10(6) == 100_0000; }
    assert Pow10(10) == 100_0000_0000;
    DecLength(n, 10);
    assert IsDigit(s[0]);
    DigitsEndAt(s, 0, |s|);
    ValueOfDec(n);
    assert s[0..|s|] == s;
  }

  /** A printed line holds its entry, whatever its further columns say. */
  lemma {:induction false} LineRoundTrip(line: Line)
    requires line.Valid()
    ensures LineEntry(line.Text()) == [line.entry]
  {
    var name, digits := line.entry.component, Dec(line.entry.generation);
    FieldPositions(name, digits, line.columns);
    FieldTexts(name, digits, line.columns);
    GenerationOfDec(line.entry.generation);
    EntryFromFields(line.Text(), name, digits, line.entry.generation);
  }

  lemma {:induction false} EntryFromFields(text: string, name: string, digits: string, generation: nat)
    requires 0 < |name| < COMPONENT_MAX && |name| + 1 + |digits| <= |text|
    requires Comma(text, 0) == |name| && Comma(text, |name| + 1) == |name| + 1 + |digits|
    requires text[..|name|] == name && text[|name| + 1..|name| + 1 + |digits|] == digits
    requires Generation(digits) == Some(generation)
    ensures LineEntry(text) == [Entry(name, generation)]
  {
  }

  lemma {:induction false} FieldTexts(name: string, digits: string, columns: string)
    ensures var text := name + ("," + (digits + columns));
            text[..|name|] == name && text[|name| + 1..|name| + 1 + |digits|] == digits
  {
  }

  lemma {:induction false} FieldPositions(name: string, digits: string, columns: string)
    requires ',' !in name && (forall i :: 0 <= i < |digits| ==> IsDigit(digits[i]))
    requires |columns| > 0 ==> columns[0] == ','
    ensures var text := name + ("," + (digits + columns));
            Comma(text, 0) == |name| && Comma(text, |name| + 1) == |name| + 1 + |digits|
  {
    var text := name + ("," + (digits + columns));
    CommaAt(text, 0, |name|);
    forall j | |name| + 1 <= j < |name| + 1 + |digits|
      ensures text[j] != ','
    {
      assert text[j] == digits[j - |name| - 1];
    }
    CommaAt(text, |name| + 1, |name| + 1 + |digits|);
  }

  predicate AllValid(lines: seq<Line>) {
    |lines| == 0 || (lines[0].Valid() && AllValid(lines[1..]))
  }

  function Print(lines: seq<Line>): (s: string) {
    if |lines| == 0 then "" else lines[0].Text() + ("\n" + Print(lines[1..]))
  }

  function Contents(lines: seq<Line>): (entries: seq<Entry>) {
    if |lines| == 0 then [] else [lines[0].entry] + Contents(lines[1..])
  }

  lemma WholeLine(line: Line)
    requires line.Valid()
    ensures NUL !in line.Text() && Entries(line.Text()) == [line.entry]
  {
    var text, name, digits := line.Text(), line.entry.component, Dec(line.entry.generation);
    forall j | 0 <= j < |text|
      ensures !EndsLine(text[j])
    {
      if j < |name| {
        assert text[j] == name[j];
      } else if j > |name| + |digits| {
        assert text[j] == line.columns[j - |name| - 1 - |digits|];
      } else if j > |name| {
        assert text[j] == digits[j - |name| - 1];
      }
    }
    LineEndAt(text, 0, |text|);
    assert text[..|text|] == text && text[|text|..] == [];
    LineRoundTrip(line);
  }

  /** Printing lines and parsing the text gives back the entries, in order. */
  lemma {:induction false} CsvRoundTrip(lines: seq<Line>)
    requires AllValid(lines)
    ensures Entries(Print(lines)) == Contents(lines)
  {
    if |lines| > 0 {
      WholeLine(lines[0]);
      CsvRoundTrip(lines[1..]);
      EntriesAppend(lines[0].Text(), '\n', Print(lines[1..]));
    }
  }
}
