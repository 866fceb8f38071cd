/** Text that alternates quoted strings and the gaps between them, and what a search for a
    quoted key finds in it. */
module QuotedTokens {
  import opened CText

  /** One quoted string and the text up to the next quote. */
  datatype Tok = Tok(str: string, gap: string)

  function TokText(t: Tok): (s: string)
    ensures |s| == |t.str| + |t.gap| + 2
  {
    Quoted(t.str) + t.gap
  }

  function Doc(ts: seq<Tok>): (s: string) {
    if |ts| == 0 then "" else TokText(ts[0]) + Doc(ts[1..])
  }

  /** The index at which token `k` begins, after a lead; the end of the text when there is none. */
  function Pos(lead: string, ts: seq<Tok>, k: nat): (p: nat)
    requires k <= |ts|
  {
    |lead| + |Doc(ts[..k])|
  }

  /** The first token at or after `from` that spells `key`, or the number of tokens. */
  function KeyIndex(ts: seq<Tok>, key: string, from: nat): (k: nat)
    requires from <= |ts|
    ensures from <= k <= |ts|
    ensures k < |ts| ==> ts[k].str == key
    ensures forall j :: from <= j < k ==> ts[j].str != key
    decreases |ts| - from
  {
    if from == |ts| || ts[from].str == key then from else KeyIndex(ts, key, from + 1)
  }

  /** No quote inside a string or a gap, and no gap that reads like the key. */
  predicate CleanTok(t: Tok, key: string) {
    '"' !in t.str && '"' !in t.gap && t.gap != key
  }

  ghost predicate CleanFor(ts: seq<Tok>, key: string) {
    '"' !in key && forall i :: 0 <= i < |ts| ==> CleanTok(ts[i], key)
  }

  lemma {:induction false} DocConcat(a: seq<Tok>, b: seq<Tok>)
    ensures Doc(a + b) == Doc(a) + Doc(b)
  {
    if |a| == 0 {
      assert a + b == b;
    } else {
      DocConcat(a[1..], b);
      assert (a + b)[1..] == a[1..] + b;
      Assoc(TokText(a[0]), Doc(a[1..]), Doc(b));
    }
  }

  lemma {:induction false} DocSplit(ts: seq<Tok>, k: nat)
    requires k <= |ts|
    ensures Doc(ts) == Doc(ts[..k]) + Doc(ts[k..])
  {
    DocConcat(ts[..k], ts[k..]);
    assert ts[..k] + ts[k..] == ts;
  }

  lemma PosNext(lead: string, ts: seq<Tok>, k: nat)
    requires k < |ts|
    ensures Pos(lead, ts, k + 1) == Pos(lead, ts, k) + |TokText(ts[k])|
  {
    DocConcat(ts[..k], [ts[k]]);
    assert ts[..k + 1] == ts[..k] + [ts[k]];
    assert Doc([ts[k]]) == TokText(ts[k]) + Doc([]);
  }

  /** Token order is text order. */
  lemma {:induction false} PosMonotone(lead: string, ts: seq<Tok>, j: nat, k: nat)
    requires j <= k <= |ts|
    ensures Pos(lead, ts, j) + 2 * (k - j) <= Pos(lead, ts, k)
    decreases k - j
  {
    if j < k {
      PosNext(lead, ts, j);
      PosMonotone(lead, ts, j + 1, k);
    }
  }

  lemma PosEnd(lead: string, ts: seq<Tok>)
    ensures Pos(lead, ts, |ts|) == |lead + Doc(ts)|
  {
    assert ts[..|ts|] == ts;
  }

  /** A quoted key begins at a quote exactly when the text up to the next quote is the key. */
  lemma QuoteMatch(x: string, s: string, y: string, key: string)
    requires '"' !in s && '"' !in key
    ensures OccursAt(x + Quoted(s) + y, Quoted(key), |x|) <==> s == key
  {
    var hay := x + Quoted(s) + y;
    var needle := Quoted(key);
    if s == key {
      assert hay[|x|..|x| + |needle|] == needle;
    }
    if OccursAt(hay, needle, |x|) {
      var start := |x| + 1;
      assert forall i :: 0 <= i < |needle| ==> hay[|x| + i] == hay[|x|..|x| + |needle|][i] == needle[i];
      forall j | start <= j < start + |s|
        ensures hay[j] == s[j - start] != '"'
      {
      }
      forall j | start <= j < start + |key|
        ensures hay[j] == key[j - start] != '"'
      {
        assert hay[|x| + (j - |x|)] == needle[j - |x|];
      }
      CharIndex(hay, '"', start, start + |s|);
      assert hay[|x| + (|key| + 1)] == needle[|key| + 1];
      CharIndex(hay, '"', start, start + |key|);
      assert s == hay[start..start + |s|] == key;
    }
  }

  /** Nothing that begins with a quote occurs where there is none. */
  lemma NoQuoteNoMatch(hay: string, key: string, j: nat)
    requires j < |hay| && hay[j] != '"'
    ensures !OccursAt(hay, Quoted(key), j)
  {
    if OccursAt(hay, Quoted(key), j) {
      OccursHead(hay, Quoted(key), j);
    }
  }

  lemma NoSecondQuote(hay: string, key: string, i: nat)
    requires forall j :: i < j < |hay| ==> hay[j] != '"'
    ensures !OccursAt(hay, Quoted(key), i)
  {
    var end := i + |key| + 1;
    if end < |hay| {
      assert hay[end] != '"' && Quoted(key)[|key| + 1] == '"';
      assert hay[i..i + |Quoted(key)|][|key| + 1] == hay[end];
    }
  }

  /** A closing quote does not begin an occurrence of the key either. */
  lemma ClosingQuote(x: string, gap: string, ts: seq<Tok>, key: string)
    requires '"' !in gap && '"' !in key && gap != key
    ensures !OccursAt(x + "\"" + gap + Doc(ts), Quoted(key), |x|)
  {
    var hay := x + "\"" + gap + Doc(ts);
    if |ts| == 0 {
      forall j | |x| < j < |hay|
        ensures hay[j] != '"'
      {
        assert hay[j] == gap[j - |x| - 1];
      }
      NoSecondQuote(hay, key, |x|);
    } else {
      var rest := ts[0].str + "\"" + ts[0].gap + Doc(ts[1..]);
      assert hay == x + Quoted(gap) + rest;
      QuoteMatch(x, gap, rest, key);
    }
  }

  /** The search from inside a gap finds the next token that spells the key. */
  lemma {:induction false} FindFromGap(gap: string, ts: seq<Tok>, key: string)
    requires '"' !in gap && CleanFor(ts, key)
    ensures IndexOf(gap + Doc(ts), Quoted(key), 0) == Pos(gap, ts, KeyIndex(ts, key, 0))
    decreases |ts|
  {
    var hay := gap + Doc(ts);
    forall j | 0 <= j < |gap|
      ensures !OccursAt(hay, Quoted(key), j)
    {
      NoQuoteNoMatch(hay, key, j);
    }
    if |ts| == 0 {
      IndexOfUnique(hay, Quoted(key), 0, |hay|);
    } else {
      var t, rest := ts[0], ts[1..];
      assert CleanTok(t, key);
      var tail := t.gap + Doc(rest);
      assert hay == gap + Quoted(t.str) + tail;
      QuoteMatch(gap, t.str, tail, key);
      if t.str == key {
        IndexOfUnique(hay, Quoted(key), 0, |gap|);
        assert ts[..0] == [];
      } else {
        var pre := gap + Quoted(t.str);
        forall j | 0 <= j < |pre|
          ensures !OccursAt(hay, Quoted(key), j)
        {
          NoMatchInToken(gap, t, rest, key, j);
        }
        FindFromGap(t.gap, rest, key);
        SkipPrefix(pre, tail, Quoted(key));
        KeyIndexTail(ts, key);
        PosTail(gap, ts, KeyIndex(ts, key, 0));
      }
    }
  }

  lemma NoMatchInToken(gap: string, t: Tok, rest: seq<Tok>, key: string, j: nat)
    requires '"' !in gap && CleanTok(t, key) && '"' !in key && t.str != key
    requires j < |gap + Quoted(t.str)|
    ensures !OccursAt(gap + Quoted(t.str) + (t.gap + Doc(rest)), Quoted(key), j)
  {
    var hay := gap + Quoted(t.str) + (t.gap + Doc(rest));
    if j == |gap| {
      QuoteMatch(gap, t.str, t.gap + Doc(rest), key);
    } else if j == |gap| + 1 + |t.str| {
      var x := gap + "\"" + t.str;
      assert hay == x + "\"" + t.gap + Doc(rest);
      ClosingQuote(x, t.gap, rest, key);
    } else {
      assert hay[j] == if j < |gap| then gap[j] else t.str[j - |gap| - 1];
      NoQuoteNoMatch(hay, key, j);
    }
  }

  lemma SkipPrefix(pre: string, tail: string, needle: string)
    requires needle != []
    requires forall j :: 0 <= j < |pre| ==> !OccursAt(pre + tail, needle, j)
    ensures IndexOf(pre + tail, needle, 0) == |pre| + IndexOf(tail, needle, 0)
  {
    IndexOfShift(pre, tail, needle, 0);
    IndexOfUnique(pre + tail, needle, 0, |pre| + IndexOf(tail, needle, 0));
  }

  lemma {:induction false} KeyIndexShift(pre: seq<Tok>, ts: seq<Tok>, key: string, from: nat)
    requires from <= |ts|
    ensures KeyIndex(pre + ts, key, |pre| + from) == |pre| + KeyIndex(ts, key, from)
    decreases |ts| - from
  {
    if from < |ts| && ts[from].str != key {
      KeyIndexShift(pre, ts, key, from + 1);
    }
  }

  lemma KeyIndexTail(ts: seq<Tok>, key: string)
    requires ts != [] && ts[0].str != key
    ensures KeyIndex(ts, key, 0) == 1 + KeyIndex(ts[1..], key, 0)
  {
    KeyIndexShift([ts[0]], ts[1..], key, 0);
    assert [ts[0]] + ts[1..] == ts;
  }

  lemma PosTail(gap: string, ts: seq<Tok>, k: nat)
    requires 0 < k <= |ts|
    ensures Pos(gap, ts, k) == |gap| + |Quoted(ts[0].str)| + Pos(ts[0].gap, ts[1..], k - 1)
  {
    assert ts[..k][1..] == ts[1..][..k - 1];
  }

  /** Searching from the start of token `j`. */
  lemma FindFromToken(lead: string, ts: seq<Tok>, key: string, j: nat)
    requires j <= |ts| && CleanFor(ts, key)
    ensures Pos(lead, ts, j) <= |lead + Doc(ts)|
    ensures IndexOf(lead + Doc(ts), Quoted(key), Pos(lead, ts, j)) == Pos(lead, ts, KeyIndex(ts, key, j))
  {
    var pre := lead + Doc(ts[..j]);
    DocSplit(ts, j);
    assert lead + Doc(ts) == pre + Doc(ts[j..]);
    IndexOfShift(pre, Doc(ts[j..]), Quoted(key), 0);
    FindFromGap("", ts[j..], key);
    assert "" + Doc(ts[j..]) == Doc(ts[j..]);
    AbsolutePos(lead, ts, key, j);
  }

  /** Searching from just behind the string of token `j`. */
  lemma FindAfterToken(lead: string, ts: seq<Tok>, key: string, j: nat)
    requires j < |ts| && CleanFor(ts, key)
    ensures Pos(lead, ts, j) + |Quoted(ts[j].str)| <= |lead + Doc(ts)|
    ensures IndexOf(lead + Doc(ts), Quoted(key), Pos(lead, ts, j) + |Quoted(ts[j].str)|)
            == Pos(lead, ts, KeyIndex(ts, key, j + 1))
  {
    var pre := lead + Doc(ts[..j]) + Quoted(ts[j].str);
    var tail := ts[j].gap + Doc(ts[j + 1..]);
    SplitAfter(lead, ts, j);
    assert CleanTok(ts[j], key);
    FindFromGap(ts[j].gap, ts[j + 1..], key);
    IndexOfShift(pre, tail, Quoted(key), 0);
    AbsolutePos(lead, ts, key, j + 1);
    PosNext(lead, ts, j);
  }

  lemma SplitAfter(lead: string, ts: seq<Tok>, j: nat)
    requires j < |ts|
    ensures lead + Doc(ts) == (lead + Doc(ts[..j]) + Quoted(ts[j].str)) + (ts[j].gap + Doc(ts[j + 1..]))
  {
    DocSplit(ts, j);
    assert ts[j..][1..] == ts[j + 1..];
    Assoc(lead, Doc(ts[..j]), Quoted(ts[j].str) + (ts[j].gap + Doc(ts[j + 1..])));
    Assoc(Quoted(ts[j].str), ts[j].gap, Doc(ts[j + 1..]));
    Assoc(lead + Doc(ts[..j]), Quoted(ts[j].str), ts[j].gap + Doc(ts[j + 1..]));
  }

  lemma AbsolutePos(lead: string, ts: seq<Tok>, key: string, j: nat)
    requires j <= |ts|
    ensures var k := KeyIndex(ts[j..], key, 0);
      KeyIndex(ts, key, j) == j + k && Pos(lead, ts, j + k) == Pos(lead, ts, j) + |Doc(ts[j..][..k])|
  {
    var k := KeyIndex(ts[j..], key, 0);
    KeyIndexShift(ts[..j], ts[j..], key, 0);
    assert ts[..j] + ts[j..] == ts;
    DocConcat(ts[..j], ts[j..][..k]);
    assert ts[..j] + ts[j..][..k] == ts[..j + k];
  }
}
