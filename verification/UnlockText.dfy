/** The clause of a LUKS row that names what breaks unlocking (src/check_luks.c): it is composed in
    bounded buffers and appended whole or not at all. */
module UnlockText {
  import opened PcrMask

  /** The PCRs whose change has a known cause. */
  const UPDATE_KINDS: seq<(nat, string)> :=
    [(0, "firmware"), (4, "bootloader"), (7, "Secure Boot key"), (9, "kernel/initramfs"), (11, "UKI")]

  const LIST_SIZE: nat := 128
  const CLAUSE_SIZE: nat := 256

  /** The updates that a mask is bound to, among the first `n` kinds. */
  function UpdatesIn(mask: Mask, n: nat): (names: seq<string>)
    requires n <= |UPDATE_KINDS|
    ensures |names| <= n
  {
    if n == 0 then []
    else UpdatesIn(mask, n - 1) + if UPDATE_KINDS[n - 1].0 in mask then [UPDATE_KINDS[n - 1].1] else []
  }

  function KnownIn(mask: Mask, n: nat): (known: Mask)
    requires n <= |UPDATE_KINDS|
  {
    if n == 0 then {}
    else KnownIn(mask, n - 1) + if UPDATE_KINDS[n - 1].0 in mask then {UPDATE_KINDS[n - 1].0} else {}
  }

  function Separator(i: nat, count: nat): (s: string)
    ensures |s| <= 5 && (i == 0 ==> s == "") && (0 < i && i + 1 < count ==> |s| == 2)
  {
    if i == 0 then "" else if i + 1 < count then ", " else if count == 2 then " or " else ", or "
  }

  /** The first `k` of the names, as a list in a sentence. */
  function ListText(names: seq<string>, k: nat): (s: string)
    requires k <= |names|
  {
    if k == 0 then "" else ListText(names, k - 1) + (Separator(k - 1, |names|) + names[k - 1])
  }

  function Qualifier(signedPolicy: bool): (s: string)
    ensures |s| <= 30
  {
    if signedPolicy then " without a fresh signed policy" else ""
  }

  /** The clause that a mask calls for. */
  function Consequence(mask: Mask, signedPolicy: bool): (clause: string) {
    var names := UpdatesIn(mask, 5);
    if |names| == 0 then "no bound PCR has a known update consequence"
    else "unlock breaks on " + ListText(names, |names|) + " update" + Qualifier(signedPolicy)
         + (if mask - KnownIn(mask, 5) != {} then "; consequence of other bound PCRs unknown" else "")
  }

  /** `append_clause`: the whole clause, or the detail as it was. */
  method AppendClause(detail: string, size: nat, clause: string) returns (ok: bool, longer: string)
    ensures ok == (|detail| + 2 + |clause| < size)
    ensures longer == if ok then detail + "; " + clause else detail
  {
    if |detail| >= size {
      return false, detail;
    }
    var addition := "; " + clause;
    if |addition| >= size - |detail| {
      return false, detail;
    }
    assert detail + "; " + clause == detail + addition;
    return true, detail + addition;
  }

  /** The loop over the kinds. */
  method KnownUpdates(mask: Mask) returns (names: seq<string>, known: Mask)
    ensures names == UpdatesIn(mask, 5) && known == KnownIn(mask, 5)
  {
    names, known := [], {};
    for i := 0 to |UPDATE_KINDS|
      invariant names == UpdatesIn(mask, i) && known == KnownIn(mask, i)
    {
      var kind := UPDATE_KINDS[i];
      if kind.0 in mask {
        known := known + {kind.0};
        names := names + [kind.1];
      }
    }
  }

  function TotalLength(names: seq<string>): (n: nat) {
    if |names| == 0 then 0 else TotalLength(names[..|names| - 1]) + |names[|names| - 1]|
  }

  lemma TotalSnoc(names: seq<string>, s: string)
    ensures TotalLength(names + [s]) == TotalLength(names) + |s|
  {
    assert (names + [s])[..|names|] == names;
  }

  /** The names and the separators of any mask together have at most 63 characters. */
  lemma {:induction false} UpdatesLength(mask: Mask, n: nat)
    requires n <= |UPDATE_KINDS|
    ensures TotalLength(UpdatesIn(mask, n))
            <= if n == 0 then 0 else if n == 1 then 8 else if n == 2 then 18 else if n == 3 then 33
               else if n == 4 then 49 else 52
  {
    if n > 0 {
      UpdatesLength(mask, n - 1);
      TotalSnoc(UpdatesIn(mask, n - 1), UPDATE_KINDS[n - 1].1);
      assert UpdatesIn(mask, n - 1) + [] == UpdatesIn(mask, n - 1);
    }
  }

  /** The text of the first names with their separators. */
  lemma {:induction false} ListLength(names: seq<string>, k: nat)
    requires k <= |names|
    ensures |ListText(names, k)|
            <= TotalLength(names[..k]) + if k == 0 then 0 else if k < |names| then 2 * (k - 1) else 2 * k + 1
  {
    if k > 0 {
      ListLength(names, k - 1);
      assert names[..k][..k - 1] == names[..k - 1];
    }
  }

  /** The loop that joins the names; the buffer takes any prefix of them. */
  method ComposeList(names: seq<string>) returns (list: string, complete: bool)
    requires forall k :: 0 <= k <= |names| ==> |ListText(names, k)| < LIST_SIZE
    ensures complete && list == ListText(names, |names|)
  {
    list, complete := "", true;
    for i := 0 to |names|
      invariant complete && list == ListText(names, i)
    {
      var piece := Separator(i, |names|) + names[i];
      assert |ListText(names, i + 1)| < LIST_SIZE;
      if |piece| >= LIST_SIZE - |list| {
        complete := false;
        break;
      }
      list := list + piece;
    }
  }

  lemma ListFits(mask: Mask, k: nat)
    requires k <= |UpdatesIn(mask, 5)|
    ensures |ListText(UpdatesIn(mask, 5), k)| <= 63
  {
    var names := UpdatesIn(mask, 5);
    UpdatesLength(mask, 5);
    TotalPrefix(names, k);
    ListLength(names, k);
  }

  lemma {:induction false} TotalPrefix(names: seq<string>, k: nat)
    requires k <= |names|
    ensures TotalLength(names[..k]) <= TotalLength(names)
  {
    if k < |names| {
      TotalPrefix(names[..|names| - 1], k);
      assert names[..|names| - 1][..k] == names[..k];
    } else {
      assert names[..k] == names;
    }
  }

  lemma ConsequenceLength(mask: Mask, signedPolicy: bool)
    ensures |Consequence(mask, signedPolicy)| <= if signedPolicy then 158 else 128
  {
    var names := UpdatesIn(mask, 5);
    ListFits(mask, |names|);
    ClauseLength(ListText(names, |names|), Qualifier(signedPolicy), mask - KnownIn(mask, 5) != {});
  }

  lemma ClauseLength(list: string, qualifier: string, others: bool)
    ensures |"unlock breaks on " + list + " update" + qualifier
             + (if others then "; consequence of other bound PCRs unknown" else "")| <= 65 + |list| + |qualifier|
    ensures |"no bound PCR has a known update consequence"| <= 128
  {
  }

  /** The detail with its consequence: the clause that the mask calls for, else a general one, else
      nothing; never a part of one. */
  function WithConsequence(detail: string, size: nat, mask: Mask, signedPolicy: bool): (s: string) {
    var clause := Consequence(mask, signedPolicy);
    var general := "any change to a bound PCR breaks unlock" + Qualifier(signedPolicy);
    if |detail| + 2 + |clause| < size then detail + "; " + clause
    else if |UpdatesIn(mask, 5)| > 0 && |detail| + 2 + |general| < size then detail + "; " + general
    else detail
  }

  /** `append_unlock_consequences`. */
  method AppendUnlockConsequences(detail: string, size: nat, mask: Mask, signedPolicy: bool) returns (longer: string)
    ensures longer == WithConsequence(detail, size, mask, signedPolicy)
  {
    var names, known := KnownUpdates(mask);
    var ok;
    if |names| == 0 {
      ok, longer := AppendClause(detail, size, "no bound PCR has a known update consequence");
      return;
    }
    forall k | 0 <= k <= |names|
      ensures |ListText(names, k)| < LIST_SIZE
    {
      ListFits(mask, k);
    }
    var list, complete := ComposeList(names);
    var clause := "unlock breaks on " + list + " update" + Qualifier(signedPolicy)
                  + (if mask - known != {} then "; consequence of other bound PCRs unknown" else "");
    ConsequenceLength(mask, signedPolicy);
    complete := |clause| < CLAUSE_SIZE;
    if complete {
      ok, longer := AppendClause(detail, size, clause);
      if ok {
        return;
      }
    }
    ok, longer := AppendClause(detail, size, "any change to a bound PCR breaks unlock" + Qualifier(signedPolicy));
  }

  /** In a row the clause is always the one that the mask calls for. */
  lemma ConsequenceWhole(detail: string, size: nat, mask: Mask, signedPolicy: bool)
    requires |detail| + (if signedPolicy then 160 else 130) < size
    ensures WithConsequence(detail, size, mask, signedPolicy) == detail + "; " + Consequence(mask, signedPolicy)
  {
    ConsequenceLength(mask, signedPolicy);
  }

  // What the clause names.

  /** The updates that break a policy, by PCR. */
  lemma {:induction false} UpdatesNamed(mask: Mask)
    ensures UpdatesIn(mask, 5)
            == (if 0 in mask then ["firmware"] else []) + (if 4 in mask then ["bootloader"] else [])
               + (if 7 in mask then ["Secure Boot key"] else []) + (if 9 in mask then ["kernel/initramfs"] else [])
               + (if 11 in mask then ["UKI"] else [])
  {
    assert UpdatesIn(mask, 1) == if 0 in mask then ["firmware"] else [];
    assert UpdatesIn(mask, 2) == UpdatesIn(mask, 1) + if 4 in mask then ["bootloader"] else [];
    assert UpdatesIn(mask, 3) == UpdatesIn(mask, 2) + if 7 in mask then ["Secure Boot key"] else [];
    assert UpdatesIn(mask, 4) == UpdatesIn(mask, 3) + if 9 in mask then ["kernel/initramfs"] else [];
  }

  /** The names of a list in a sentence, with commas and a last "or". */
  lemma {:induction false} ListWords(names: seq<string>)
    ensures |names| == 1 ==> ListText(names, 1) == names[0]
    ensures |names| == 2 ==> ListText(names, 2) == names[0] + (" or " + names[1])
    ensures |names| == 3 ==> ListText(names, 3) == names[0] + (", " + names[1]) + (", or " + names[2])
    ensures |names| == 4 ==>
              ListText(names, 4) == names[0] + (", " + names[1]) + (", " + names[2]) + (", or " + names[3])
    ensures |names| == 5 ==>
              ListText(names, 5)
              == names[0] + (", " + names[1]) + (", " + names[2]) + (", " + names[3]) + (", or " + names[4])
  {
    if |names| > 0 {
      assert ListText(names, 1) == names[0];
    }
    if |names| > 1 {
      assert ListText(names, 2) == ListText(names, 1) + (Separator(1, |names|) + names[1]);
    }
    if |names| > 2 {
      assert ListText(names, 3) == ListText(names, 2) + (Separator(2, |names|) + names[2]);
    }
    if |names| > 3 {
      assert ListText(names, 4) == ListText(names, 3) + (Separator(3, |names|) + names[3]);
    }
  }

  /** The whole clause: it names the updates, asks for a fresh signature under a signed policy, and
      admits other PCRs exactly when one is bound. */
  lemma {:induction false} ConsequenceWords(mask: Mask, signedPolicy: bool, list: string)
    requires list == ListText(UpdatesIn(mask, 5), |UpdatesIn(mask, 5)|)
    ensures mask !! {0, 4, 7, 9, 11} <==>
              Consequence(mask, signedPolicy) == "no bound PCR has a known update consequence"
    ensures !(mask !! {0, 4, 7, 9, 11}) ==>
              Consequence(mask, signedPolicy)
              == "unlock breaks on " + list + " update"
                 + (if signedPolicy then " without a fresh signed policy" else "")
                 + (if mask <= {0, 4, 7, 9, 11} then "" else "; consequence of other bound PCRs unknown")
  {
    UpdatesNamed(mask);
    KnownNamed(mask);
    var clause := Consequence(mask, signedPolicy);
    if |UpdatesIn(mask, 5)| > 0 {
      assert clause[0] == 'u';
    }
  }

  lemma {:induction false} KnownNamed(mask: Mask)
    ensures KnownIn(mask, 5) == mask * {0, 4, 7, 9, 11}
  {
    assert KnownIn(mask, 1) == mask * {0};
    assert KnownIn(mask, 2) == mask * {0, 4};
    assert KnownIn(mask, 3) == mask * {0, 4, 7};
    assert KnownIn(mask, 4) == mask * {0, 4, 7, 9};
  }
}
