/** C text as the parsers see it: the characters before the terminating NUL.

    A `char` stands for one byte of the buffer. A pointer into the text is an index, and a
    search that fails answers the index of the terminator, so that the C test
    `p != NULL && p < bound` reads `p < bound`. */
module CText {

  datatype Option<+T> = None | Some(value: T)

  function Least(a: nat, b: nat): (m: nat) {
    if a < b then a else b
  }

  /** The first `n` elements, or all when there are fewer. */
  function Prefix<T>(s: seq<T>, n: nat): (p: seq<T>)
    ensures p <= s && |p| == if |s| < n then |s| else n
  {
    if |s| < n then s else s[..n]
  }

  lemma Assoc<T>(a: seq<T>, b: seq<T>, c: seq<T>)
    ensures a + (b + c) == (a + b) + c
  {
  }

  /** The images of the elements, one after the other. */
  function FlatMap<A, B>(f: A -> seq<B>, xs: seq<A>): (ys: seq<B>) {
    if |xs| == 0 then [] else f(xs[0]) + FlatMap(f, xs[1..])
  }

  lemma {:induction false} FlatMapConcat<A, B>(f: A -> seq<B>, a: seq<A>, b: seq<A>)
    ensures FlatMap(f, a + b) == FlatMap(f, a) + FlatMap(f, b)
  {
    if |a| == 0 {
      assert a + b == b;
    } else {
      FlatMapConcat(f, a[1..], b);
      assert (a + b)[1..] == a[1..] + b;
      Assoc(f(a[0]), FlatMap(f, a[1..]), FlatMap(f, b));
    }
  }

  /** The image of element `i` between the images of its neighbours. */
  lemma FlatMapSplit<A, B>(f: A -> seq<B>, xs: seq<A>, i: nat)
    requires i < |xs|
    ensures FlatMap(f, xs) == FlatMap(f, xs[..i]) + (f(xs[i]) + FlatMap(f, xs[i + 1..]))
  {
    FlatMapConcat(f, xs[..i], xs[i..]);
    assert xs[..i] + xs[i..] == xs;
    assert xs[i..][1..] == xs[i + 1..];
  }

  /** `a` is `b` without some of its elements. */
  predicate Subsequence<T(==)>(a: seq<T>, b: seq<T>) {
    |a| == 0
    || (|b| > 0 && a[|a| - 1] == b[|b| - 1] && Subsequence(a[..|a| - 1], b[..|b| - 1]))
    || (|b| > 0 && Subsequence(a, b[..|b| - 1]))
  }

  ghost predicate OccursAt(hay: string, needle: string, i: nat) {
    i + |needle| <= |hay| && hay[i..i + |needle|] == needle
  }

  /** `i` is the first place at or after `from` where the needle occurs, or the end. */
  ghost predicate FirstOccurrence(hay: string, needle: string, from: nat, i: nat) {
    && from <= i <= |hay|
    && (i < |hay| ==> OccursAt(hay, needle, i))
    && forall j :: from <= j < i ==> !OccursAt(hay, needle, j)
  }

  /** `strstr(hay + from, needle)`, and `strchr` when the needle is one character. */
  ghost function IndexOf(hay: string, needle: string, from: nat): (i: nat)
    requires from <= |hay| && needle != []
    ensures FirstOccurrence(hay, needle, from, i)
  {
    HasFirstOccurrence(hay, needle, from);
    var i: nat :| FirstOccurrence(hay, needle, from, i);
    i
  }

  lemma {:induction false} HasFirstOccurrence(hay: string, needle: string, from: nat)
    requires from <= |hay| && needle != []
    ensures exists i: nat :: FirstOccurrence(hay, needle, from, i)
    decreases |hay| - from
  {
    if from == |hay| || OccursAt(hay, needle, from) {
      assert FirstOccurrence(hay, needle, from, from);
    } else {
      HasFirstOccurrence(hay, needle, from + 1);
      var i: nat :| FirstOccurrence(hay, needle, from + 1, i);
      assert FirstOccurrence(hay, needle, from, i);
    }
  }

  method Search(hay: string, needle: string, from: nat) returns (i: nat)
    requires from <= |hay| && needle != []
    ensures i == IndexOf(hay, needle, from)
  {
    i := from;
    while i < |hay| && !(i + |needle| <= |hay| && hay[i..i + |needle|] == needle)
      invariant from <= i <= |hay|
      invariant forall j :: from <= j < i ==> !OccursAt(hay, needle, j)
    {
      i := i + 1;
    }
    IndexOfUnique(hay, needle, from, i);
  }

  /** Whether `strstr(hay, needle)` finds anything. */
  ghost predicate Contains(hay: string, needle: string)
    requires needle != []
  {
    IndexOf(hay, needle, 0) < |hay|
  }

  lemma IndexOfUnique(hay: string, needle: string, from: nat, i: nat)
    requires needle != [] && FirstOccurrence(hay, needle, from, i)
    ensures IndexOf(hay, needle, from) == i
  {
  }

  /** A search that starts in the second part of a text sees only that part. */
  lemma IndexOfShift(pre: string, hay: string, needle: string, from: nat)
    requires needle != [] && from <= |hay|
    ensures IndexOf(pre + hay, needle, |pre| + from) == |pre| + IndexOf(hay, needle, from)
  {
    var i := IndexOf(hay, needle, from);
    forall j | from <= j <= |hay|
      ensures OccursAt(pre + hay, needle, |pre| + j) <==> OccursAt(hay, needle, j)
    {
      OccursShift(pre, hay, needle, j);
    }
    forall j | |pre| + from <= j < |pre| + i
      ensures !OccursAt(pre + hay, needle, j)
    {
      assert !OccursAt(hay, needle, j - |pre|);
      OccursShift(pre, hay, needle, j - |pre|);
    }
    IndexOfUnique(pre + hay, needle, |pre| + from, |pre| + i);
  }

  lemma OccursShift(pre: string, hay: string, needle: string, j: nat)
    ensures OccursAt(pre + hay, needle, |pre| + j) <==> OccursAt(hay, needle, j)
  {
    if j + |needle| <= |hay| {
      assert (pre + hay)[|pre| + j..|pre| + j + |needle|] == hay[j..j + |needle|];
    }
  }

  /** The first characters decide an occurrence. */
  lemma OccursHead(hay: string, needle: string, i: nat)
    requires needle != [] && OccursAt(hay, needle, i)
    ensures hay[i] == needle[0]
  {
    assert hay[i..i + |needle|][0] == needle[0];
  }

  /** Searching for one character. */
  lemma CharIndex(hay: string, c: char, from: nat, i: nat)
    requires from <= i < |hay| && hay[i] == c
    requires forall j :: from <= j < i ==> hay[j] != c
    ensures IndexOf(hay, [c], from) == i
  {
    assert OccursAt(hay, [c], i);
    forall j | from <= j < i
      ensures !OccursAt(hay, [c], j)
    {
      if OccursAt(hay, [c], j) {
        OccursHead(hay, [c], j);
      }
    }
    IndexOfUnique(hay, [c], from, i);
  }

  function Quoted(key: string): (s: string)
    ensures |s| == |key| + 2 && s[0] == '"'
  {
    "\"" + key + "\""
  }

  predicate IsWs(c: char) { c == ' ' || c == '\t' || c == '\n' || c == '\r' }

  predicate IsDigit(c: char) { '0' <= c <= '9' }

  /** The text `snprintf` stores when it formats `full` into a buffer of `size` bytes. */
  function Stored(full: string, size: nat): (s: string)
    requires size > 0
    ensures s <= full && |s| == if |full| < size then |full| else size - 1
  {
    if |full| < size then full else full[..size - 1]
  }

  /** The parts in order with a separator between neighbours. */
  function Join(parts: seq<string>, sep: string): (s: string) {
    if |parts| == 0 then ""
    else if |parts| == 1 then parts[0]
    else Join(parts[..|parts| - 1], sep) + sep + parts[|parts| - 1]
  }

  lemma JoinSnoc(parts: seq<string>, sep: string, p: string)
    ensures Join(parts + [p], sep) == if |parts| == 0 then p else Join(parts, sep) + sep + p
  {
    assert (parts + [p])[..|parts|] == parts;
  }

  predicate IsBreak(c: char) { c == '\r' || c == '\n' }

  predicate IsBlank(c: char) { c == ' ' || c == '\t' }

  function SkipBlank(s: string, i: nat): (j: nat)
    requires i <= |s|
    ensures i <= j <= |s| && (j < |s| ==> !IsBlank(s[j]))
    decreases |s| - i
  {
    if i < |s| && IsBlank(s[i]) then SkipBlank(s, i + 1) else i
  }

  function FieldEnd(s: string, i: nat): (j: nat)
    requires i <= |s|
    ensures i <= j <= |s| && (j < |s| ==> IsBlank(s[j]))
    ensures i < |s| && !IsBlank(s[i]) ==> i < j
    decreases |s| - i
  {
    if i == |s| || IsBlank(s[i]) then i else FieldEnd(s, i + 1)
  }

  lemma {:induction false} FieldEndAt(s: string, i: nat, j: nat)
    requires i <= j <= |s| && (j < |s| ==> IsBlank(s[j])) && forall k :: i <= k < j ==> !IsBlank(s[k])
    ensures FieldEnd(s, i) == j
    decreases j - i
  {
    if i < j {
      FieldEndAt(s, i + 1, j);
    }
  }

  lemma {:induction false} SkipBlankAt(s: string, i: nat, j: nat)
    requires i <= j <= |s| && (j < |s| ==> !IsBlank(s[j])) && forall k :: i <= k < j ==> IsBlank(s[k])
    ensures SkipBlank(s, i) == j
    decreases j - i
  {
    if i < j {
      SkipBlankAt(s, i + 1, j);
    }
  }

  /** The loop over blanks that the line parsers share. */
  method ScanBlank(s: string, start: nat) returns (i: nat)
    requires start <= |s|
    ensures i == SkipBlank(s, start)
  {
    i := start;
    while i < |s| && IsBlank(s[i])
      invariant start <= i <= |s| && SkipBlank(s, start) == SkipBlank(s, i)
    {
      i := i + 1;
    }
  }

  /** The loop over the characters of a field. */
  method ScanField(s: string, start: nat) returns (i: nat)
    requires start <= |s|
    ensures i == FieldEnd(s, start)
  {
    i := start;
    while i < |s| && !IsBlank(s[i])
      invariant start <= i <= |s| && FieldEnd(s, start) == FieldEnd(s, i)
    {
      i := i + 1;
    }
  }
}
