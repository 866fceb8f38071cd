/** The flags of an attribute in a well-formed fwupd report, and the action they name. */
module FwupdFlags {
  import opened CText
  import opened QuotedTokens
  import opened HsiReaders
  import opened FwupdReport

  const OEM_FLAG := "action-contact-oem"
  const FIRMWARE_FLAG := "action-config-fw"
  const OS_FLAG := "action-config-os"

  ghost predicate Holds(hay: string, word: string) {
    exists i: nat :: OccursAt(hay, word, i)
  }

  ghost predicate AnyHolds(items: seq<Tok>, word: string) {
    exists j :: 0 <= j < |items| && Holds(items[j].str, word)
  }

  /** The action that the flags name: the vendor's before the firmware's before the system's. */
  ghost function ActionAmong(items: seq<Tok>): (a: Action) {
    if AnyHolds(items, OEM_FLAG) then OEM_ACTION
    else if AnyHolds(items, FIRMWARE_FLAG) then FIRMWARE_ACTION
    else if AnyHolds(items, OS_FLAG) then OS_ACTION
    else NO_ACTION
  }

  /** A word of the flags. */
  predicate IsFlagWord(word: string) {
    |word| > 0 && word[0] == 'a' && '"' !in word && ']' !in word
  }

  lemma ContainsHolds(hay: string, word: string)
    requires word != []
    ensures Contains(hay, word) <==> Holds(hay, word)
  {
    if i: nat :| OccursAt(hay, word, i) {
      assert IndexOf(hay, word, 0) <= i;
    }
  }

  /** One different character rules an occurrence out. */
  lemma Differs(hay: string, word: string, i: nat, k: nat)
    requires k < |word| && i + k < |hay| && hay[i + k] != word[k]
    ensures !OccursAt(hay, word, i)
  {
    if i + |word| <= |hay| {
      assert hay[i..i + |word|][k] == hay[i + k];
    }
  }

  lemma OccursInside(pre: string, mid: string, post: string, word: string, i: nat)
    requires |pre| <= i && i + |word| <= |pre| + |mid|
    ensures OccursAt(pre + (mid + post), word, i) <==> OccursAt(mid, word, i - |pre|)
  {
    assert (pre + (mid + post))[i..i + |word|] == mid[i - |pre|..i - |pre| + |word|];
  }

  /** Around a middle part that holds every `a`, and before a character that no flag has, only the
      middle part matters. */
  lemma HoldsInside(pre: string, mid: string, end: char, post: string, word: string)
    requires IsFlagWord(word) && 'a' !in pre && 'a' !in post && end != 'a' && end !in word
    ensures Holds(pre + (mid + ([end] + post)), word) <==> Holds(mid, word)
  {
    var hay := pre + (mid + ([end] + post));
    if i: nat :| OccursAt(mid, word, i) {
      OccursInside(pre, mid, [end] + post, word, |pre| + i);
    }
    if i: nat :| OccursAt(hay, word, i) {
      OccursWithin(pre, mid, end, post, word, i);
      OccursInside(pre, mid, [end] + post, word, i);
    }
  }

  lemma OccursWithin(pre: string, mid: string, end: char, post: string, word: string, i: nat)
    requires IsFlagWord(word) && 'a' !in pre && 'a' !in post && end != 'a' && end !in word
    ensures OccursAt(pre + (mid + ([end] + post)), word, i) ==> |pre| <= i && i + |word| <= |pre| + |mid|
  {
    var hay, close := pre + (mid + ([end] + post)), |pre| + |mid|;
    assert hay[close] == end;
    if i < |pre| {
      assert hay[i] == pre[i];
      Differs(hay, word, i, 0);
    } else if close <= i < |hay| {
      assert hay[i] == if i == close then end else post[i - close - 1];
      Differs(hay, word, i, 0);
    } else if close < i + |word| <= |hay| {
      Differs(hay, word, i, close - i);
    }
  }

  /** No flag goes across a quote. */
  lemma OccursSplit(s: string, rest: string, word: string, i: nat)
    requires IsFlagWord(word)
    ensures OccursAt(s + ("\"" + rest), word, i)
            <==> OccursAt(s, word, i) || (i > |s| && OccursAt(rest, word, i - |s| - 1))
  {
    if i > |s| {
      OccursAfter(s, rest, word, i);
    } else {
      OccursUpTo(s, rest, word, i);
    }
  }

  lemma OccursAfter(s: string, rest: string, word: string, i: nat)
    requires i > |s|
    ensures OccursAt(s + ("\"" + rest), word, i) <==> OccursAt(rest, word, i - |s| - 1)
    ensures !OccursAt(s, word, i) || word == []
  {
    OccursShift(s + "\"", rest, word, i - |s| - 1);
    Assoc(s, "\"", rest);
  }

  lemma OccursUpTo(s: string, rest: string, word: string, i: nat)
    requires IsFlagWord(word) && i <= |s|
    ensures OccursAt(s + ("\"" + rest), word, i) <==> OccursAt(s, word, i)
  {
    var hay := s + ("\"" + rest);
    if i + |word| <= |s| {
      assert hay[i..i + |word|] == s[i..i + |word|];
    } else {
      assert hay[i + (|s| - i)] == '"';
      Differs(hay, word, i, |s| - i);
    }
  }

  lemma HoldsSplit(s: string, rest: string, word: string)
    requires IsFlagWord(word)
    ensures Holds(s + ("\"" + rest), word) <==> Holds(s, word) || Holds(rest, word)
  {
    var hay := s + ("\"" + rest);
    if i: nat :| OccursAt(s, word, i) {
      OccursSplit(s, rest, word, i);
    }
    if i: nat :| OccursAt(rest, word, i) {
      OccursSplit(s, rest, word, |s| + 1 + i);
      assert OccursAt(hay, word, |s| + 1 + i);
    }
    if i: nat :| OccursAt(hay, word, i) {
      OccursSplit(s, rest, word, i);
    }
  }

  lemma NotHeld(gap: string, word: string)
    requires IsFlagWord(word) && 'a' !in gap
    ensures !Holds(gap, word)
  {
    forall i: nat | i < |gap|
      ensures !OccursAt(gap, word, i)
    {
      Differs(gap, word, i, 0);
    }
  }

  ghost predicate PlainGaps(items: seq<Tok>) {
    forall j :: 0 <= j < |items| ==> 'a' !in items[j].gap
  }

  /** The text of a list holds a flag exactly when one of its strings does. */
  lemma {:induction false} HoldsInItems(gap: string, items: seq<Tok>, word: string)
    requires IsFlagWord(word) && 'a' !in gap && PlainGaps(items)
    ensures Holds(gap + Doc(items), word) <==> AnyHolds(items, word)
    decreases |items|
  {
    NotHeld(gap, word);
    if |items| == 0 {
      assert gap + Doc(items) == gap;
    } else {
      var t, rest := items[0], items[1..];
      var tail := t.gap + Doc(rest);
      assert gap + Doc(items) == gap + ("\"" + (t.str + ("\"" + tail)));
      HoldsSplit(gap, t.str + ("\"" + tail), word);
      HoldsSplit(t.str, tail, word);
      HoldsInItems(t.gap, rest, word);
      AnyHoldsCons(items, word);
    }
  }

  lemma AnyHoldsCons(items: seq<Tok>, word: string)
    requires |items| > 0
    ensures AnyHolds(items, word) <==> Holds(items[0].str, word) || AnyHolds(items[1..], word)
  {
    if j :| 0 <= j < |items| && Holds(items[j].str, word) {
      assert j > 0 ==> items[1..][j - 1] == items[j];
    }
    if j :| 0 <= j < |items| - 1 && Holds(items[1..][j].str, word) {
      assert items[j + 1] == items[1..][j];
    }
  }

  /** The list of a field whose layout spells no flag. */
  ghost predicate PlainList(f: Field, pre: string, inner: string, post: string) {
    && ListInner(f, pre, inner, post) && 'a' !in pre && 'a' !in post && 'a' !in f.sep && PlainGaps(f.items)
  }

  lemma WordNamed(f: Field, pre: string, inner: string, post: string, word: string)
    requires PlainList(f, pre, inner, post) && IsFlagWord(word)
    ensures Contains("[" + inner, word) <==> AnyHolds(f.items, word)
  {
    HoldsInItems(f.sep, f.items, word);
    HoldsInside(pre, "[" + inner, ']', post, word);
    Assoc("[", inner, "]" + post);
    ContainsHolds("[" + inner, word);
  }

  /** The action that a list of flags names is the one among its strings. */
  lemma ActionOfItems(f: Field, pre: string, inner: string, post: string)
    requires PlainList(f, pre, inner, post)
    ensures ActionNamed("[" + inner) == ActionAmong(f.items)
  {
    WordNamed(f, pre, inner, post, OEM_FLAG);
    WordNamed(f, pre, inner, post, FIRMWARE_FLAG);
    WordNamed(f, pre, inner, post, OS_FLAG);
  }
}
