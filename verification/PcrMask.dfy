/** PCR masks: the printer of a row (src/check_luks.c) and the scanner of `cryptsetup luksDump`
    text (src/storage_parsers.c). A 32-bit mask is the set of its bit numbers. */
module PcrMask {
  import opened CText
  import opened Decimal

  const BITS: nat := 32
  const WINDOW: nat := 512
  const TOKEN: string := "systemd-tpm2"

  type Mask = set<nat>

  // The printer.

  function NumbersBelow(mask: Mask, k: nat): (parts: seq<string>) {
    if k == 0 then []
    else if k - 1 in mask then NumbersBelow(mask, k - 1) + [Dec(k - 1)]
    else NumbersBelow(mask, k - 1)
  }

  /** The bits below `k`, in order. */
  function Rendered(mask: Mask, k: nat): (s: string) {
    Join(NumbersBelow(mask, k), " ")
  }

  function Below(mask: Mask, k: nat): (m: Mask) {
    set i | i in mask && i < k
  }

  /** The bit at which the printer stops: with fewer than seven bytes left, or past the last bit. */
  function StopAt(mask: Mask, size: nat, i: nat): (k: nat)
    requires i <= BITS
    ensures i <= k <= BITS && (k < BITS ==> |Rendered(mask, k)| + 6 >= size)
    decreases BITS - i
  {
    if i == BITS || |Rendered(mask, i)| + 6 >= size then i else StopAt(mask, size, i + 1)
  }

  /** The printer stops at the first bit before which at least 58 of the 64 bytes are used. */
  lemma {:induction false} StopExactly(mask: Mask, i: nat, k: nat)
    requires i <= k <= BITS && (forall j :: i <= j < k ==> |Rendered(mask, j)| < 58)
    requires k < BITS ==> |Rendered(mask, k)| >= 58
    ensures StopAt(mask, 64, i) == k
    decreases k - i
  {
    if i < k {
      StopExactly(mask, i + 1, k);
    }
  }

  function PcrText(mask: Mask, size: nat): (s: string) {
    Rendered(mask, StopAt(mask, size, 0))
  }

  /** `pcr_mask_to_str`. */
  method PcrMaskToStr(mask: Mask, size: nat) returns (out: string)
    ensures out == PcrText(mask, size)
    ensures if size > 6 then |out| + 3 < size else out == ""
  {
    out := "";
    var first := true;
    var i := 0;
    while i < BITS && |out| + 6 < size
      invariant i <= BITS && (if size > 6 then |out| + 3 < size else out == "")
      invariant out == Rendered(mask, i)
      invariant first == (|NumbersBelow(mask, i)| == 0)
      invariant StopAt(mask, size, 0) == StopAt(mask, size, i)
    {
      if i in mask {
        DecLength(i, 2);
        JoinSnoc(NumbersBelow(mask, i), " ", Dec(i));
        if !first {
          out := out + " ";
        }
        out := out + Dec(i);
        first := false;
      }
      i := i + 1;
    }
  }

  // Reading numbers.

  /** The number of a run of digits: its first three count. */
  function RunValue(run: string): (n: nat)
    requires forall k :: 0 <= k < |run| ==> IsDigit(run[k])
  {
    Value(if |run| < 3 then run else run[..3])
  }

  function Bit(n: nat): (m: Mask) {
    if n < BITS then {n} else {}
  }

  /** The bits that the numbers of a text set. */
  function NumbersIn(s: string): (m: Mask) {
    if |s| == 0 then {}
    else if IsDigit(s[0]) then Bit(RunValue(s[..DigitsEnd(s, 0)])) + NumbersIn(s[DigitsEnd(s, 0)..])
    else NumbersIn(s[1..])
  }

  /** The inner loop over one run of digits. */
  method ReadRun(s: string, start: nat) returns (n: nat, q: nat)
    requires start < |s| && IsDigit(s[start])
    ensures start < q == DigitsEnd(s, start) <= |s|
    ensures n == RunValue(s[start..q])
  {
    q := start;
    n := 0;
    var kept := 0;
    while q < |s| && IsDigit(s[q])
      invariant start <= q <= |s| && (q == start ==> q < |s|)
      invariant DigitsEnd(s, start) == DigitsEnd(s, q)
      invariant forall k :: start <= k < q ==> IsDigit(s[k])
      invariant kept == if q - start < 3 then q - start else 3
      invariant n == Value(s[start..start + kept])
    {
      if kept < 3 {
        assert s[start..q + 1][..kept] == s[start..q];
        n := n * 10 + DigitValue(s[q]);
        kept := kept + 1;
      }
      q := q + 1;
    }
    assert s[start..q][..kept] == s[start..start + kept];
  }

  /** The loop over the text behind the colon. */
  method ReadNumbers(s: string) returns (mask: Mask)
    ensures mask == NumbersIn(s)
  {
    mask := {};
    var q := 0;
    while q < |s|
      invariant q <= |s|
      invariant mask + NumbersIn(s[q..]) == NumbersIn(s)
    {
      if IsDigit(s[q]) {
        var n, next := ReadRun(s, q);
        RunStep(s, q, next, n);
        mask := mask + Bit(n);
        q := next;
      } else {
        assert s[q..][1..] == s[q + 1..];
        q := q + 1;
      }
    }
  }

  lemma RunStep(s: string, q: nat, next: nat, n: nat)
    requires q < |s| && IsDigit(s[q]) && next == DigitsEnd(s, q) && n == RunValue(s[q..next])
    ensures q < next && NumbersIn(s[q..]) == Bit(n) + NumbersIn(s[next..])
  {
    var rest, run, later := s[q..], s[q..next], s[next..];
    DigitsEndAt(rest, 0, next - q);
    SplitAt(s, q, next);
    RunUnfold(rest, run, later, n);
  }

  lemma SplitAt(s: string, q: nat, next: nat)
    requires q <= next <= |s|
    ensures s[q..][..next - q] == s[q..next] && s[q..][next - q..] == s[next..]
  {
  }

  lemma RunUnfold(rest: string, run: string, later: string, n: nat)
    requires |rest| > 0 && IsDigit(rest[0]) && |run| == DigitsEnd(rest, 0)
    requires run == rest[..|run|] && later == rest[|run|..] && n == RunValue(run)
    ensures NumbersIn(rest) == Bit(n) + NumbersIn(later)
  {
  }

  /** Numbers are separated by any other character. */
  lemma {:induction false} NumbersSplit(a: string, c: char, b: string)
    requires !IsDigit(c)
    ensures NumbersIn(a + ([c] + b)) == NumbersIn(a) + NumbersIn(b)
    decreases |a|
  {
    var s := a + ([c] + b);
    if |a| == 0 {
      assert s[1..] == b;
    } else if IsDigit(a[0]) {
      var j := DigitsEnd(a, 0);
      DigitsEndAt(s, 0, j);
      NumbersSplit(a[j..], c, b);
      assert s[..j] == a[..j] && s[j..] == a[j..] + ([c] + b);
    } else {
      NumbersSplit(a[1..], c, b);
      assert s[1..] == a[1..] + ([c] + b);
    }
  }

  lemma NumberAlone(n: nat)
    requires n < BITS
    ensures NumbersIn(Dec(n)) == {n}
  {
    var s := Dec(n);
    assert Pow10(2) == 100;
    DecLength(n, 2);
    DigitsEndAt(s, 0, |s|);
    ValueOfDec(n);
    assert s[..|s|] == s && s[|s|..] == [];
  }

  /** The printed mask reads back as the bits printed. */
  lemma {:induction false} RenderedNumbers(mask: Mask, k: nat)
    requires k <= BITS
    ensures NumbersIn(Rendered(mask, k)) == Below(mask, k)
  {
    if k > 0 {
      RenderedNumbers(mask, k - 1);
      if k - 1 in mask {
        var parts := NumbersBelow(mask, k - 1);
        JoinSnoc(parts, " ", Dec(k - 1));
        NumberAlone(k - 1);
        if |parts| > 0 {
          NumbersSplit(Join(parts, " "), ' ', Dec(k - 1));
          Assoc(Join(parts, " "), " ", Dec(k - 1));
        }
      }
    }
  }

  // Scanning one line.

  predicate At(line: string, i: nat, word: string) {
    i + |word| <= |line| && line[i..i + |word|] == word
  }

  predicate Mentions(line: string, word: string) {
    exists i :: 0 <= i <= |line| && At(line, i, word)
  }

  /** The character `ahead` places behind the start of the line; `after` is the one that follows it. */
  function CharAt(line: string, after: char, i: nat): (c: char)
    requires i <= |line|
  {
    if i < |line| then line[i] else after
  }

  /** The first `pcrs` from `p` on that does not go on as `pcrs-`, or the end of the line. */
  function KeyAt(line: string, after: char, p: nat): (k: nat)
    requires p <= |line|
    ensures p <= k <= |line| && (k < |line| ==> k + 4 <= |line|)
    decreases |line| - p
  {
    if p + 4 > |line| then |line|
    else if line[p..p + 4] == "pcrs" && CharAt(line, after, p + 4) != '-' then p
    else KeyAt(line, after, p + 1)
  }

  function ColonAt(line: string, i: nat): (j: nat)
    requires i <= |line|
    ensures i <= j <= |line|
    decreases |line| - i
  {
    if i == |line| || line[i] == ':' then i else ColonAt(line, i + 1)
  }

  /** The bits of the PCR list of a line. */
  function ListOf(line: string, after: char): (m: Mask) {
    var key := KeyAt(line, after, 0);
    if key == |line| then {}
    else
      var colon := ColonAt(line, key + 4);
      if colon == |line| then {} else NumbersIn(line[colon + 1..])
  }

  /** What a line gives the reader of pubkey lines, or the reader of the others. */
  function LineMask(line: string, after: char, pubkey: bool): (m: Mask) {
    if Mentions(line, "pubkey") == pubkey then ListOf(line, after) else {}
  }

  method HasPubkey(line: string) returns (found: bool)
    ensures found == Mentions(line, "pubkey")
  {
    var s := 0;
    while s + 6 <= |line|
      invariant forall i :: 0 <= i < s ==> !At(line, i, "pubkey")
    {
      if line[s..s + 6] == "pubkey" {
        assert At(line, s, "pubkey");
        return true;
      }
      s := s + 1;
    }
    return false;
  }

  method FindColon(line: string, start: nat) returns (colon: nat)
    requires start <= |line|
    ensures colon == ColonAt(line, start)
  {
    colon := start;
    while colon < |line| && line[colon] != ':'
      invariant start <= colon <= |line|
      invariant ColonAt(line, start) == ColonAt(line, colon)
    {
      colon := colon + 1;
    }
  }

  /** The search of the PCR list in one line. */
  method ScanLine(line: string, after: char, pubkey: bool) returns (mask: Mask)
    ensures mask == LineMask(line, after, pubkey)
  {
    var hasPubkey := HasPubkey(line);
    if hasPubkey != pubkey {
      return {};
    }
    var p := 0;
    while p + 4 <= |line|
      invariant p <= |line|
      invariant KeyAt(line, after, 0) == KeyAt(line, after, p)
    {
      var next := if p + 4 < |line| then line[p + 4] else after;
      if line[p..p + 4] == "pcrs" && next != '-' {
        var colon := FindColon(line, p + 4);
        if colon >= |line| {
          return {};
        }
        mask := ReadNumbers(line[colon + 1..]);
        return;
      }
      p := p + 1;
    }
    return {};
  }

  // Scanning the window.

  function LineEnd(t: string, i: nat, end: nat): (e: nat)
    requires i <= end <= |t|
    ensures i <= e <= end
    decreases end - i
  {
    if i == end || IsBreak(t[i]) then i else LineEnd(t, i + 1, end)
  }

  function After(t: string, i: nat): (c: char)
    requires i <= |t|
  {
    if i < |t| then t[i] else '\0'
  }

  /** The first line at or after `line` that sets a bit. */
  function ScanFrom(t: string, line: nat, end: nat, pubkey: bool): (m: Mask)
    requires line <= end <= |t|
    decreases end - line
  {
    if line == end then {}
    else
      var eol := LineEnd(t, line, end);
      var mask := LineMask(t[line..eol], After(t, eol), pubkey);
      if mask != {} then mask
      else if eol < end then ScanFrom(t, eol + 1, end, pubkey)
      else {}
  }

  function WindowEnd(t: string, pos: nat): (end: nat)
    requires pos <= |t|
    ensures pos <= end <= |t|
  {
    if |t| - pos > WINDOW then pos + WINDOW else |t|
  }

  /** The mask that the scanner finds in a dump. */
  ghost function Scanned(text: string, pubkey: bool): (m: Mask) {
    var pos := IndexOf(text, TOKEN, 0);
    ScanFrom(text, pos, WindowEnd(text, pos), pubkey)
  }

  method FindLineEnd(t: string, start: nat, end: nat) returns (e: nat)
    requires start <= end <= |t|
    ensures e == LineEnd(t, start, end)
  {
    e := start;
    while e < end && t[e] != '\n' && t[e] != '\r'
      invariant start <= e <= end
      invariant LineEnd(t, start, end) == LineEnd(t, e, end)
    {
      e := e + 1;
    }
  }

  /** `luks_scan_pcrs`: it reports the mask found, and success exactly when a bit is set. */
  method ScanPcrs(text: string, pubkey: bool) returns (found: bool, mask: Mask)
    ensures mask == Scanned(text, pubkey) && found == (mask != {})
  {
    var pos := Search(text, TOKEN, 0);
    if pos == |text| {
      return false, {};
    }
    var end := if |text| - pos > WINDOW then pos + WINDOW else |text|;
    mask := ScanWindow(text, pos, end, pubkey);
    return mask != {}, mask;
  }

  /** The loop over the lines of the window. */
  method ScanWindow(text: string, start: nat, end: nat, pubkey: bool) returns (mask: Mask)
    requires start <= end <= |text|
    ensures mask == ScanFrom(text, start, end, pubkey)
  {
    var line := start;
    while line < end
      invariant start <= line <= end
      invariant ScanFrom(text, start, end, pubkey) == ScanFrom(text, line, end, pubkey)
    {
      var eol := FindLineEnd(text, line, end);
      mask := ScanLine(text[line..eol], if eol < |text| then text[eol] else '\0', pubkey);
      if mask != {} {
        return;
      }
      line := if eol < end then eol + 1 else end;
    }
    return {};
  }

  // Dumps that hold printed masks.

  predicate Unbroken(line: string) {
    forall i :: 0 <= i < |line| ==> !IsBreak(line[i])
  }

  predicate AllUnbroken(lines: seq<string>) {
    |lines| == 0 || (Unbroken(lines[0]) && AllUnbroken(lines[1..]))
  }

  function LinesText(lines: seq<string>): (s: string) {
    if |lines| == 0 then "" else lines[0] + ("\n" + LinesText(lines[1..]))
  }

  lemma {:induction false} LineEndAt(t: string, i: nat, e: nat, end: nat)
    requires i <= e <= end <= |t| && (e < end ==> IsBreak(t[e]))
    requires forall j :: i <= j < e ==> !IsBreak(t[j])
    ensures LineEnd(t, i, end) == e
    decreases e - i
  {
    if i < e {
      LineEndAt(t, i + 1, e, end);
    }
  }

  /** The scanner takes one line and goes on behind its end. */
  lemma LineStep(t: string, from: nat, next: nat, end: nat, line: string, rest: string, pubkey: bool)
    requires next == from + |line| + 1 <= end <= |t| && t[from..] == line + ("\n" + rest) && Unbroken(line)
    ensures t[next..] == rest
    ensures ScanFrom(t, from, end, pubkey)
            == if LineMask(line, '\n', pubkey) != {} then LineMask(line, '\n', pubkey)
               else ScanFrom(t, next, end, pubkey)
  {
    var eol := from + |line|;
    forall j | from <= j < eol
      ensures !IsBreak(t[j])
    {
      assert t[j] == t[from..][j - from];
    }
    assert t[eol] == t[from..][|line|];
    LineEndAt(t, from, eol, end);
    assert t[from..eol] == t[from..][..|line|];
    assert t[eol + 1..] == t[from..][|line| + 1..];
    ScanUnfold(t, from, eol, next, end, line, pubkey);
  }

  lemma ScanUnfold(t: string, from: nat, eol: nat, next: nat, end: nat, line: string, pubkey: bool)
    requires from <= eol < end <= |t| && next == eol + 1
    requires eol == LineEnd(t, from, end) && line == t[from..eol] && t[eol] == '\n'
    ensures ScanFrom(t, from, end, pubkey)
            == if LineMask(line, '\n', pubkey) != {} then LineMask(line, '\n', pubkey)
               else ScanFrom(t, next, end, pubkey)
  {
  }

  /** The scanner answers the first line of the window that sets a bit. */
  lemma {:induction false} ScanReaches(
      t: string, from: nat, end: nat, lines: seq<string>, tail: string, pubkey: bool, i: nat)
    requires from <= end <= |t| && t[from..] == LinesText(lines) + tail && from + |LinesText(lines)| <= end
    requires AllUnbroken(lines) && i < |lines|
    requires forall j :: 0 <= j < i ==> LineMask(lines[j], '\n', pubkey) == {}
    requires LineMask(lines[i], '\n', pubkey) != {}
    ensures ScanFrom(t, from, end, pubkey) == LineMask(lines[i], '\n', pubkey)
    decreases i
  {
    var line, later := lines[0], lines[1..];
    var rest := LinesText(later) + tail;
    assert LinesText(lines) + tail == line + ("\n" + rest);
    var next := from + |line| + 1;
    LineStep(t, from, next, end, line, rest, pubkey);
    if i > 0 {
      ScanReaches(t, next, end, later, tail, pubkey, i - 1);
    }
  }

  lemma {:induction false} KeyAtIs(line: string, after: char, p: nat, k: nat)
    requires p <= k <= |line| && forall i :: p <= i < k ==> !At(line, i, "pcrs")
    requires if k + 4 <= |line| then At(line, k, "pcrs") && CharAt(line, after, k + 4) != '-' else k == |line|
    ensures KeyAt(line, after, p) == k
    decreases k - p
  {
    assert |"pcrs"| == 4;
    if p + 4 > |line| {
      assert k + 4 > |line|;
    } else if p < k {
      assert line[p..p + 4] != "pcrs" by { assert !At(line, p, "pcrs"); }
      KeyAtIs(line, after, p + 1, k);
    }
  }

  /** A line without `pcrs` sets nothing. */
  lemma PlainLine(line: string, after: char, pubkey: bool)
    requires !Mentions(line, "pcrs")
    ensures LineMask(line, after, pubkey) == {}
  {
    KeyAtIs(line, after, 0, |line|);
  }

  /** What stands before `pcrs:` in a line of PCR numbers. */
  predicate IsTitle(title: string) {
    forall i :: 0 <= i < |title| ==> !At(title + "pcrs", i, "pcrs")
  }

  predicate IsPad(pad: string) {
    forall i :: 0 <= i < |pad| ==> pad[i] == ' ' || pad[i] == '\t'
  }

  predicate IsNumbers(numbers: string) {
    forall i :: 0 <= i < |numbers| ==> IsDigit(numbers[i]) || numbers[i] == ' '
  }

  function PcrLine(title: string, pad: string, numbers: string): (line: string) {
    title + ("pcrs" + (":" + (pad + numbers)))
  }

  lemma {:induction false} PadSkipped(pad: string, s: string)
    requires IsPad(pad)
    ensures NumbersIn(pad + s) == NumbersIn(s)
  {
    if |pad| > 0 {
      PadSkipped(pad[1..], s);
      assert (pad + s)[1..] == pad[1..] + s;
    } else {
      assert pad + s == s;
    }
  }

  lemma PcrLineList(title: string, pad: string, numbers: string, after: char)
    requires IsTitle(title) && IsPad(pad)
    ensures ListOf(PcrLine(title, pad, numbers), after) == NumbersIn(numbers)
  {
    var line := PcrLine(title, pad, numbers);
    var start := title + "pcrs";
    assert line == start + (":" + (pad + numbers)) && |"pcrs"| == 4;
    forall i | 0 <= i < |title|
      ensures !At(line, i, "pcrs")
    {
      assert !At(start, i, "pcrs") && start[i..i + 4] == line[i..i + 4];
    }
    assert At(line, |title|, "pcrs");
    KeyAtIs(line, after, 0, |title|);
    assert line[|title| + 4] == ':' && ColonAt(line, |title| + 4) == |title| + 4;
    assert line[|title| + 5..] == pad + numbers;
    PadSkipped(pad, numbers);
  }

  /** The word `pubkey` can only stand in the title. */
  lemma PcrLinePubkey(title: string, pad: string, numbers: string)
    requires IsPad(pad) && IsNumbers(numbers)
    ensures Mentions(PcrLine(title, pad, numbers), "pubkey") == Mentions(title, "pubkey")
  {
    var line := PcrLine(title, pad, numbers);
    if i :| 0 <= i <= |title| && At(title, i, "pubkey") {
      assert line[i..i + 6] == title[i..i + 6];
      assert At(line, i, "pubkey");
    }
    if i :| 0 <= i <= |line| && At(line, i, "pubkey") {
      PubkeyInTitle(title, pad, numbers, i);
    }
  }

  lemma PubkeyInTitle(title: string, pad: string, numbers: string, i: nat)
    requires IsPad(pad) && IsNumbers(numbers) && At(PcrLine(title, pad, numbers), i, "pubkey")
    ensures At(title, i, "pubkey")
  {
    var line, word := PcrLine(title, pad, numbers), "pubkey";
    assert forall j :: i <= j < i + 6 ==> line[j] == line[i..i + 6][j - i] == word[j - i];
    assert line[i] == 'p' && line[i + 1] == 'u' && forall j :: i < j < i + 6 ==> line[j] != 'p';
    assert line[|title|] == 'p' && line[|title| + 1] == 'c';
    forall j | |title| < j < |line|
      ensures line[j] != 'p'
    {
      if j >= |title| + 5 + |pad| {
        assert line[j] == numbers[j - |title| - 5 - |pad|];
      } else if j >= |title| + 5 {
        assert line[j] == pad[j - |title| - 5];
      }
    }
    assert i + 6 <= |title|;
    assert title[i..i + 6] == line[i..i + 6];
  }

  const ROW_SIZE: nat := 64

  /** The bits of a mask that a row shows. */
  function Shown(mask: Mask): (m: Mask) {
    Below(mask, StopAt(mask, ROW_SIZE, 0))
  }

  lemma {:induction false} NothingBelow(mask: Mask, k: nat)
    requires Below(mask, k) == {}
    ensures NumbersBelow(mask, k) == []
  {
    if k > 0 {
      assert k - 1 in mask ==> k - 1 in Below(mask, k);
      assert Below(mask, k - 1) <= Below(mask, k);
      NothingBelow(mask, k - 1);
    }
  }

  /** Stopping early loses only the bits above; a nonzero mask never prints as nothing. */
  lemma PrintedBits(mask: Mask)
    requires mask != {} && forall i <- mask :: i < BITS
    ensures Shown(mask) != {} && (StopAt(mask, ROW_SIZE, 0) == BITS ==> Shown(mask) == mask)
  {
    var k := StopAt(mask, ROW_SIZE, 0);
    if k == BITS {
      assert Below(mask, k) == mask;
    } else if Below(mask, k) == {} {
      NothingBelow(mask, k);
      assert false;
    }
  }

  lemma {:induction false} NumbersText(mask: Mask, k: nat)
    requires k <= BITS
    ensures IsNumbers(Rendered(mask, k))
  {
    if k > 0 {
      NumbersText(mask, k - 1);
      if k - 1 in mask {
        JoinSnoc(NumbersBelow(mask, k - 1), " ", Dec(k - 1));
      }
    }
  }

  lemma PrintedLine(title: string, pad: string, mask: Mask, after: char, pubkey: bool)
    requires IsTitle(title) && IsPad(pad)
    ensures LineMask(PcrLine(title, pad, PcrText(mask, ROW_SIZE)), after, pubkey)
            == if Mentions(title, "pubkey") == pubkey then Shown(mask) else {}
  {
    var k := StopAt(mask, ROW_SIZE, 0);
    NumbersText(mask, k);
    PcrLineList(title, pad, Rendered(mask, k), after);
    PcrLinePubkey(title, pad, Rendered(mask, k));
    RenderedNumbers(mask, k);
  }

  /** A line of a dump that lists a printed mask. */
  datatype Listing = Listing(title: string, pad: string, mask: Mask) {
    ghost predicate Valid() {
      IsTitle(title) && IsPad(pad) && mask != {} && forall i <- mask :: i < BITS
    }

    function Text(): (line: string) { PcrLine(title, pad, PcrText(mask, ROW_SIZE)) }
  }

  /** A dump: text before the token, lines of which one lists the hash policy, one lists the signed
      policy and no other names PCRs, and any text behind them. */
  datatype Dump = Dump(
    head: string, lines: seq<string>, tail: string, hashLine: nat, hash: Listing, signedLine: nat, signed: Listing)
  {
    ghost predicate Valid() {
      && AllUnbroken(lines) && |LinesText(lines)| <= WINDOW
      && hashLine < |lines| && signedLine < |lines| && hashLine != signedLine
      && hash.Valid() && !Mentions(hash.title, "pubkey") && lines[hashLine] == hash.Text()
      && signed.Valid() && Mentions(signed.title, "pubkey") && lines[signedLine] == signed.Text()
      && (forall i :: 0 <= i < |lines| && i != hashLine && i != signedLine ==> !Mentions(lines[i], "pcrs"))
    }

    function Text(): (s: string) { head + (LinesText(lines) + tail) }
  }

  lemma DumpLines(d: Dump, i: nat, pubkey: bool)
    requires d.Valid() && i < |d.lines|
    ensures LineMask(d.lines[i], '\n', pubkey)
            == if i == d.hashLine && !pubkey then Shown(d.hash.mask)
               else if i == d.signedLine && pubkey then Shown(d.signed.mask)
               else {}
  {
    if i == d.hashLine {
      PrintedLine(d.hash.title, d.hash.pad, d.hash.mask, '\n', pubkey);
    } else if i == d.signedLine {
      PrintedLine(d.signed.title, d.signed.pad, d.signed.mask, '\n', pubkey);
    } else {
      PlainLine(d.lines[i], '\n', pubkey);
    }
  }

  /** Each reader returns its own mask, as far as it was printed, and never the other's. */
  lemma DumpRoundTrip(d: Dump)
    requires d.Valid() && IndexOf(d.Text(), TOKEN, 0) == |d.head|
    ensures Scanned(d.Text(), false) == Shown(d.hash.mask) != {}
    ensures Scanned(d.Text(), true) == Shown(d.signed.mask) != {}
  {
    PrintedBits(d.hash.mask);
    PrintedBits(d.signed.mask);
    DumpScanned(d, false, d.hashLine, Shown(d.hash.mask));
    DumpScanned(d, true, d.signedLine, Shown(d.signed.mask));
  }

  lemma DumpScanned(d: Dump, pubkey: bool, i: nat, m: Mask)
    requires d.Valid() && IndexOf(d.Text(), TOKEN, 0) == |d.head|
    requires i == (if pubkey then d.signedLine else d.hashLine) && m != {}
    requires m == Shown(if pubkey then d.signed.mask else d.hash.mask)
    ensures Scanned(d.Text(), pubkey) == m
  {
    forall j | 0 <= j < i
      ensures LineMask(d.lines[j], '\n', pubkey) == {}
    {
      DumpLines(d, j, pubkey);
    }
    DumpLines(d, i, pubkey);
    var t, from := d.Text(), |d.head|;
    assert t[from..] == LinesText(d.lines) + d.tail;
    ScanReaches(t, from, WindowEnd(t, from), d.lines, d.tail, pubkey, i);
  }

  /** The scanner answers nothing when no line of the rest sets a bit. */
  lemma {:induction false} ScanNone(t: string, from: nat, lines: seq<string>, pubkey: bool)
    requires from <= |t| && t[from..] == LinesText(lines) && AllUnbroken(lines)
    requires forall j :: 0 <= j < |lines| ==> LineMask(lines[j], '\n', pubkey) == {}
    ensures ScanFrom(t, from, |t|, pubkey) == {}
    decreases |lines|
  {
    if |lines| > 0 {
      var next := from + |lines[0]| + 1;
      LineStep(t, from, next, |t|, lines[0], LinesText(lines[1..]), pubkey);
      ScanNone(t, next, lines[1..], pubkey);
    }
  }

  /** A dump whose only list of PCRs is that of a signed policy, with every bit of its mask. */
  datatype SignedDump = SignedDump(
    head: string, lines: seq<string>, line: nat, title: string, pad: string, mask: Mask)
  {
    ghost predicate Valid() {
      && AllUnbroken(lines) && |LinesText(lines)| <= WINDOW && line < |lines|
      && IsTitle(title) && Mentions(title, "pubkey") && IsPad(pad)
      && mask != {} && (forall i <- mask :: i < BITS)
      && lines[line] == PcrLine(title, pad, Rendered(mask, BITS))
      && (forall i :: 0 <= i < |lines| && i != line ==> !Mentions(lines[i], "pcrs"))
    }

    function Text(): (s: string) { head + LinesText(lines) }
  }

  lemma SignedLine(d: SignedDump, i: nat, pubkey: bool)
    requires d.Valid() && i < |d.lines|
    ensures LineMask(d.lines[i], '\n', pubkey) == if i == d.line && pubkey then d.mask else {}
  {
    if i == d.line {
      NumbersText(d.mask, BITS);
      PcrLineList(d.title, d.pad, Rendered(d.mask, BITS), '\n');
      PcrLinePubkey(d.title, d.pad, Rendered(d.mask, BITS));
      RenderedNumbers(d.mask, BITS);
      assert Below(d.mask, BITS) == d.mask;
    } else {
      PlainLine(d.lines[i], '\n', pubkey);
    }
  }

  /** The reader of signed policies returns the mask of such a dump, the other reader nothing. */
  lemma SignedScanned(d: SignedDump)
    requires d.Valid() && IndexOf(d.Text(), TOKEN, 0) == |d.head|
    ensures Contains(d.Text(), TOKEN)
    ensures Scanned(d.Text(), false) == {} && Scanned(d.Text(), true) == d.mask
  {
    var t, from := d.Text(), |d.head|;
    forall j, pubkey | 0 <= j < |d.lines|
      ensures LineMask(d.lines[j], '\n', pubkey) == if j == d.line && pubkey then d.mask else {}
    {
      SignedLine(d, j, pubkey);
    }
    assert t[from..] == LinesText(d.lines) && WindowEnd(t, from) == |t|;
    assert LinesText(d.lines) + "" == LinesText(d.lines);
    ScanNone(t, from, d.lines, false);
    ScanReaches(t, from, |t|, d.lines, "", true, d.line);
  }
}
