/** The counter of Secure Boot signature lists (src/efi_boot_parsers.c) against an encoder of
    EFI_SIGNATURE_LIST chains (section 32.4.1 of the UEFI Specification 2.10). */
module EfiSigDb {
  import opened CText
  import opened Bytes

  const VARIABLE_ATTRIBUTES: nat := 4
  const LIST_HEADER: nat := 28

  /** One EFI_SIGNATURE_LIST: its type, its header and its signatures, all of one size. */
  datatype SignatureList = SignatureList(
    kind: seq<Byte>, header: seq<Byte>, signatureSize: nat, signatures: seq<seq<Byte>>)
  {
    /** A signature is an owner of sixteen bytes and at least one byte of data. */
    ghost predicate Valid() {
      && |kind| == 16
      && signatureSize > 16
      && |signatures| > 0
      && AllSized(signatures, signatureSize)
      && Size() < LIMIT32
    }

    function Size(): (n: nat)
    {
      LIST_HEADER + |header| + |Concat(signatures)|
    }

    ghost function Encode(): (b: seq<Byte>)
      requires Valid()
    {
      SizeBounds(this);
      kind + Enc32(Size()) + Enc32(|header|) + Enc32(signatureSize) + header + Concat(signatures)
    }
  }

  function Concat(parts: seq<seq<Byte>>): (b: seq<Byte>) {
    if |parts| == 0 then [] else parts[0] + Concat(parts[1..])
  }

  predicate AllSized(parts: seq<seq<Byte>>, size: nat) {
    |parts| == 0 || (|parts[0]| == size && AllSized(parts[1..], size))
  }

  ghost predicate AllValid(lists: seq<SignatureList>) {
    |lists| == 0 || (lists[0].Valid() && AllValid(lists[1..]))
  }

  /** A database: its lists one after the other. */
  ghost function EncodeAll(lists: seq<SignatureList>): (b: seq<Byte>)
    requires AllValid(lists)
  {
    if |lists| == 0 then [] else lists[0].Encode() + EncodeAll(lists[1..])
  }

  ghost predicate Decomposes(p: seq<Byte>, lists: seq<SignatureList>) {
    AllValid(lists) && EncodeAll(lists) == p
  }

  lemma SizeBounds(l: SignatureList)
    requires l.Valid()
    ensures |l.header| < LIMIT32 && l.signatureSize < LIMIT32
    ensures l.signatureSize <= |Concat(l.signatures)|
  {
  }

  lemma {:induction false} ConcatLength(parts: seq<seq<Byte>>, size: nat)
    requires size > 0 && AllSized(parts, size)
    ensures |Concat(parts)| % size == 0
  {
    if |parts| > 0 {
      var later := parts[1..];
      ConcatLength(later, size);
      var n := |Concat(later)|;
      OneMore(n, size);
      assert |Concat(parts)| == n + size;
    }
  }

  lemma OneMore(n: nat, size: nat)
    requires size > 0
    ensures (n + size) % size == n % size
  {
    SameRemainder(size, n / size + 1, n % size, (n + size) / size, (n + size) % size);
  }

  lemma SameRemainder(size: nat, q: nat, r: nat, k: nat, t: nat)
    requires r < size && t < size && q * size + r == k * size + t
    ensures r == t
  {
    if q < k {
      Distribute(q, k - q, size);
    } else if k < q {
      Distribute(k, q - k, size);
    }
  }

  lemma Distribute(a: nat, b: nat, size: nat)
    ensures (a + b) * size == a * size + b * size && (b > 0 ==> b * size >= size)
  {
  }

  /** What the counter asks of the bytes at its cursor. */
  predicate HeadAccepted(p: seq<Byte>) {
    && |p| >= LIST_HEADER
    && LIST_HEADER <= Le32(p, 16) <= |p|
    && Le32(p, 20) <= Le32(p, 16) - LIST_HEADER
    && var payload := Le32(p, 16) - LIST_HEADER - Le32(p, 20);
       Le32(p, 24) > 16 && payload >= Le32(p, 24) && payload % Le32(p, 24) == 0
  }

  /** The counter as a function of the bytes left and the lists already counted. */
  function Counted(p: seq<Byte>, count: nat): (n: nat) {
    if |p| == 0 then count
    else if !HeadAccepted(p) then 0
    else Counted(p[Le32(p, 16)..], count + 1)
  }

  /** The tests on one list. The C subtractions are on `size_t`; here each difference is a `nat`,
      so none of them wraps. */
  method AcceptList(data: seq<Byte>, p: nat, remaining: nat) returns (accepted: bool, listSize: nat)
    requires p + remaining == |data|
    ensures accepted == HeadAccepted(data[p..])
    ensures accepted ==> listSize == Le32(data[p..], 16)
  {
    if remaining < LIST_HEADER {
      return false, 0;
    }
    listSize := Le32(data, p + 16);
    var headerSize := Le32(data, p + 20);
    var signatureSize := Le32(data, p + 24);
    ghost var rest := data[p..];
    assert listSize == Le32(rest, 16) && headerSize == Le32(rest, 20) && signatureSize == Le32(rest, 24);
    if listSize < LIST_HEADER || listSize > remaining {
      return false, listSize;
    }
    var bodySize: nat := listSize - LIST_HEADER;
    if headerSize > bodySize {
      return false, listSize;
    }
    var payloadSize: nat := bodySize - headerSize;
    accepted := signatureSize > 16 && payloadSize >= signatureSize && payloadSize % signatureSize == 0;
  }

  /** `bythos_count_efi_sigdb_lists`. A null pointer is the empty variable. */
  method CountLists(data: seq<Byte>) returns (n: nat)
    ensures n == if |data| <= VARIABLE_ATTRIBUTES then 0 else Counted(data[VARIABLE_ATTRIBUTES..], 0)
    ensures forall lists :: IsDatabase(data, lists) ==> n == |lists|
    ensures n > 0 && IsBytes(data) ==> exists lists :: IsDatabase(data, lists) && |lists| == n
  {
    n := CountFrom(data);
    CountedVariable(data, n);
  }

  /** The loop over the lists. */
  method CountFrom(data: seq<Byte>) returns (n: nat)
    ensures n == if |data| <= VARIABLE_ATTRIBUTES then 0 else Counted(data[VARIABLE_ATTRIBUTES..], 0)
  {
    if |data| <= VARIABLE_ATTRIBUTES {
      return 0;
    }
    var p: nat := VARIABLE_ATTRIBUTES;
    var remaining: nat := |data| - VARIABLE_ATTRIBUTES;
    n := 0;
    while remaining > 0
      invariant p + remaining == |data|
      invariant Counted(data[VARIABLE_ATTRIBUTES..], 0) == Counted(data[p..], n)
    {
      var accepted, listSize := AcceptList(data, p, remaining);
      if !accepted {
        return 0;
      }
      assert data[p..][listSize..] == data[p + listSize..];
      n := n + 1;
      p := p + listSize;
      remaining := remaining - listSize;
    }
  }

  /** The fields of an encoded list stand where the counter reads them, whatever follows. */
  lemma EncodedFields(l: SignatureList, rest: seq<Byte>)
    requires l.Valid()
    ensures |l.Encode()| == l.Size()
    ensures Le32(l.Encode() + rest, 16) == l.Size()
    ensures Le32(l.Encode() + rest, 20) == |l.header|
    ensures Le32(l.Encode() + rest, 24) == l.signatureSize
    ensures (l.Encode() + rest)[..16] == l.kind
    ensures (l.Encode() + rest)[28..28 + |l.header|] == l.header
    ensures (l.Encode() + rest)[28 + |l.header|..l.Size()] == Concat(l.signatures)
  {
    SizeBounds(l);
    ConcatLength(l.signatures, l.signatureSize);
    Layout(l.kind, Enc32(l.Size()), Enc32(|l.header|), Enc32(l.signatureSize), l.header, Concat(l.signatures), rest);
  }

  lemma Layout(kind: seq<Byte>, a: seq<Byte>, b: seq<Byte>, c: seq<Byte>, header: seq<Byte>, body: seq<Byte>,
               rest: seq<Byte>)
    requires |kind| == 16 && |a| == |b| == |c| == 4
    ensures var p := kind + a + b + c + header + body + rest;
            && Le32(p, 16) == Le32(a, 0) && Le32(p, 20) == Le32(b, 0) && Le32(p, 24) == Le32(c, 0)
            && p[..16] == kind
            && p[28..28 + |header|] == header
            && p[28 + |header|..28 + |header| + |body|] == body
  {
  }

  lemma AcceptsEncoded(l: SignatureList, rest: seq<Byte>)
    requires l.Valid()
    ensures var p := l.Encode() + rest;
            HeadAccepted(p) && Le32(p, 16) == l.Size() && p[l.Size()..] == rest
  {
    EncodedFields(l, rest);
    SizeBounds(l);
    ConcatLength(l.signatures, l.signatureSize);
  }

  lemma CountsOne(l: SignatureList, rest: seq<Byte>, count: nat)
    requires l.Valid()
    ensures Counted(l.Encode() + rest, count) == Counted(rest, count + 1)
  {
    AcceptsEncoded(l, rest);
  }

  lemma AllValidSplit(lists: seq<SignatureList>)
    requires AllValid(lists) && |lists| > 0
    ensures lists[0].Valid() && AllValid(lists[1..])
    ensures EncodeAll(lists) == lists[0].Encode() + EncodeAll(lists[1..])
  {
  }

  lemma CountsFirst(lists: seq<SignatureList>, p: seq<Byte>, rest: seq<Byte>, whole: seq<Byte>, count: nat)
    returns (later: seq<SignatureList>, q: seq<Byte>, tail: seq<Byte>)
    requires Decomposes(p, lists) && |lists| > 0 && whole == p + rest
    ensures later == lists[1..] && Decomposes(q, later) && tail == q + rest
    ensures Counted(whole, count) == Counted(tail, count + 1)
  {
    AllValidSplit(lists);
    later := lists[1..];
    q := EncodeAll(later);
    tail := q + rest;
    Assoc(lists[0].Encode(), q, rest);
    CountsOne(lists[0], tail, count);
  }

  /** Every database the standard allows is counted, list by list, whatever follows it. */
  lemma {:induction false} CountsEncoded(
      lists: seq<SignatureList>, p: seq<Byte>, rest: seq<Byte>, whole: seq<Byte>, count: nat, total: nat)
    requires Decomposes(p, lists) && whole == p + rest && total == count + |lists|
    ensures Counted(whole, count) == Counted(rest, total)
  {
    if |lists| == 0 {
      NothingThere(p, rest);
    } else {
      var later, q, tail := CountsFirst(lists, p, rest, whole, count);
      CountsEncoded(later, q, rest, tail, count + 1, total);
    }
  }

  lemma NothingThere(p: seq<Byte>, rest: seq<Byte>)
    requires Decomposes(p, [])
    ensures p + rest == rest
  {
  }

  // The other direction: what the counter accepts is the encoding of the lists it holds.

  function Split(b: seq<Byte>, size: nat): (parts: seq<seq<Byte>>)
    requires size > 0
    decreases |b|
  {
    if |b| < size then [] else [b[..size]] + Split(b[size..], size)
  }

  lemma {:induction false} ConcatSplit(b: seq<Byte>, size: nat)
    requires size > 0 && |b| % size == 0
    ensures Concat(Split(b, size)) == b
    ensures AllSized(Split(b, size), size)
    ensures |b| >= size ==> |Split(b, size)| > 0
    decreases |b|
  {
    if |b| >= size {
      OneMore(|b| - size, size);
      ConcatSplit(b[size..], size);
      assert b == b[..size] + b[size..];
    } else {
      assert |b| == 0;
    }
  }

  lemma {:induction false} SplitConcat(parts: seq<seq<Byte>>, size: nat)
    requires size > 0 && AllSized(parts, size)
    ensures Split(Concat(parts), size) == parts
  {
    if |parts| > 0 {
      SplitConcat(parts[1..], size);
      assert Concat(parts)[size..] == Concat(parts[1..]);
      assert Concat(parts)[..size] == parts[0];
    }
  }

  /** The list at the head of accepted bytes. */
  ghost function DecodeOne(p: seq<Byte>): (l: SignatureList)
    requires HeadAccepted(p)
  {
    SignatureList(p[..16], p[LIST_HEADER..LIST_HEADER + Le32(p, 20)], Le32(p, 24), Split(Body(p), Le32(p, 24)))
  }

  function Body(p: seq<Byte>): (b: seq<Byte>)
    requires HeadAccepted(p)
    ensures Le32(p, 24) > 16 && |b| >= Le32(p, 24) && |b| % Le32(p, 24) == 0
    ensures LIST_HEADER + Le32(p, 20) + |b| == Le32(p, 16)
  {
    p[LIST_HEADER + Le32(p, 20)..Le32(p, 16)]
  }

  lemma DecodeOneValid(p: seq<Byte>)
    requires HeadAccepted(p)
    ensures DecodeOne(p).Valid() && DecodeOne(p).Size() == Le32(p, 16)
  {
    SplitValid(p[..16], p[LIST_HEADER..LIST_HEADER + Le32(p, 20)], Le32(p, 24), Body(p));
  }

  lemma SplitValid(kind: seq<Byte>, header: seq<Byte>, size: nat, body: seq<Byte>)
    requires |kind| == 16 && size > 16 && |body| >= size && |body| % size == 0
    requires LIST_HEADER + |header| + |body| < LIMIT32
    ensures var l := SignatureList(kind, header, size, Split(body, size));
            l.Valid() && l.Size() == LIST_HEADER + |header| + |body| && Concat(l.signatures) == body
  {
    ConcatSplit(body, size);
  }

  lemma DecodeOneEncodes(p: seq<Byte>)
    requires IsBytes(p) && HeadAccepted(p)
    ensures DecodeOne(p).Valid() && DecodeOne(p).Encode() == p[..Le32(p, 16)]
  {
    DecodeOneValid(p);
    ConcatSplit(Body(p), Le32(p, 24));
    WordBytes(p, 16);
    WordBytes(p, 20);
    WordBytes(p, 24);
    HeadSplit(p, Le32(p, 20), Le32(p, 16));
  }

  lemma WordBytes(p: seq<Byte>, i: nat)
    requires i + 4 <= |p| && IsBytes(p)
    ensures Enc32(Le32(p, i)) == p[i..i + 4]
  {
    Le32Slice(p, i);
    Enc32Of(p[i..i + 4]);
  }

  lemma HeadSplit(p: seq<Byte>, headerSize: nat, listSize: nat)
    requires 28 + headerSize <= listSize <= |p|
    ensures p[..16] + p[16..20] + p[20..24] + p[24..28] + p[28..28 + headerSize] + p[28 + headerSize..listSize]
            == p[..listSize]
  {
  }

  /** Encoding determines the list, whatever follows it. */
  lemma DecodeOneEncoded(l: SignatureList, rest: seq<Byte>)
    requires l.Valid()
    ensures HeadAccepted(l.Encode() + rest) && DecodeOne(l.Encode() + rest) == l
  {
    AcceptsEncoded(l, rest);
    EncodedFields(l, rest);
    SplitConcat(l.signatures, l.signatureSize);
  }

  ghost predicate Accepted(p: seq<Byte>) {
    |p| == 0 || (HeadAccepted(p) && Accepted(p[Le32(p, 16)..]))
  }

  ghost function Lists(p: seq<Byte>): (lists: seq<SignatureList>)
    requires Accepted(p)
  {
    if |p| == 0 then [] else [DecodeOne(p)] + Lists(p[Le32(p, 16)..])
  }

  lemma {:induction false} ListsDecode(p: seq<Byte>)
    requires IsBytes(p) && Accepted(p)
    ensures AllValid(Lists(p)) && EncodeAll(Lists(p)) == p
  {
    if |p| > 0 {
      var size := Le32(p, 16);
      ListsDecode(p[size..]);
      PrependDecoded(p, Lists(p[size..]));
    }
  }

  lemma PrependDecoded(p: seq<Byte>, lists: seq<SignatureList>)
    requires IsBytes(p) && HeadAccepted(p) && AllValid(lists) && EncodeAll(lists) == p[Le32(p, 16)..]
    ensures AllValid([DecodeOne(p)] + lists) && EncodeAll([DecodeOne(p)] + lists) == p
  {
    DecodeOneEncodes(p);
    PrependParts(DecodeOne(p), lists, p, Le32(p, 16));
  }

  lemma PrependParts(l: SignatureList, lists: seq<SignatureList>, p: seq<Byte>, k: nat)
    requires k <= |p| && l.Valid() && AllValid(lists)
    requires l.Encode() == p[..k] && EncodeAll(lists) == p[k..]
    ensures AllValid([l] + lists) && EncodeAll([l] + lists) == p
  {
    Prepend(l, lists);
    assert p[..k] + p[k..] == p;
  }

  lemma Prepend(l: SignatureList, lists: seq<SignatureList>)
    requires l.Valid() && AllValid(lists)
    ensures AllValid([l] + lists) && EncodeAll([l] + lists) == l.Encode() + EncodeAll(lists)
  {
    assert ([l] + lists)[1..] == lists;
  }

  lemma {:induction false} ListsEncoded(lists: seq<SignatureList>, p: seq<Byte>)
    requires Decomposes(p, lists)
    ensures Accepted(p) && Lists(p) == lists
  {
    if |lists| > 0 {
      var later := lists[1..];
      AllValidSplit(lists);
      var rest := EncodeAll(later);
      ListsEncoded(later, rest);
      FirstEncoded(lists[0], rest, p);
      assert [lists[0]] + later == lists;
    }
  }

  lemma FirstEncoded(l: SignatureList, rest: seq<Byte>, p: seq<Byte>)
    requires l.Valid() && Accepted(rest) && p == l.Encode() + rest
    ensures Accepted(p) && Lists(p) == [l] + Lists(rest)
  {
    AcceptsEncoded(l, rest);
    DecodeOneEncoded(l, rest);
  }

  lemma {:induction false} CountedLists(p: seq<Byte>, count: nat)
    ensures Counted(p, count) == if Accepted(p) then count + |Lists(p)| else 0
  {
    if |p| > 0 && HeadAccepted(p) {
      CountedLists(p[Le32(p, 16)..], count + 1);
    }
  }

  /** A variable: four bytes of attributes and a database. */
  ghost predicate IsDatabase(data: seq<Byte>, lists: seq<SignatureList>) {
    |data| >= 4 && Decomposes(data[4..], lists)
  }

  /** On a whole variable the counter is an exact recogniser: every database is counted list by list,
      and a count above zero is that of a database. */
  lemma {:induction false} CountedVariable(data: seq<Byte>, n: nat)
    requires n == if |data| <= VARIABLE_ATTRIBUTES then 0 else Counted(data[VARIABLE_ATTRIBUTES..], 0)
    ensures forall lists :: IsDatabase(data, lists) ==> n == |lists|
    ensures n > 0 && IsBytes(data) ==> exists lists :: IsDatabase(data, lists) && |lists| == n
  {
    forall lists | IsDatabase(data, lists)
      ensures n == |lists|
    {
      var p := data[4..];
      CountsEncoded(lists, p, [], p, 0, |lists|);
      assert p + [] == p;
      if |p| == 0 && |lists| > 0 {
        AllValidSplit(lists);
      }
    }
    if n > 0 && IsBytes(data) {
      CountedExactly(data[4..], n);
      var lists :| Decomposes(data[4..], lists) && |lists| == n;
      assert IsDatabase(data, lists);
    }
  }

  /** The counter is an exact recogniser of chains. */
  lemma CountedExactly(p: seq<Byte>, n: nat)
    requires n > 0 && IsBytes(p)
    ensures Counted(p, 0) == n <==> exists lists :: Decomposes(p, lists) && |lists| == n
  {
    if Counted(p, 0) == n {
      var lists := Decomposition(p);
      assert Decomposes(p, lists) && |lists| == n;
    }
    forall lists | Decomposes(p, lists) && |lists| == n
      ensures Counted(p, 0) == n
    {
      CountsEncoded(lists, p, [], p, 0, |lists|);
      assert p + [] == p;
    }
  }

  /** A database has one decomposition. */
  lemma UniqueDecomposition(p: seq<Byte>, a: seq<SignatureList>, b: seq<SignatureList>)
    requires Decomposes(p, a) && Decomposes(p, b)
    ensures a == b
  {
    ListsEncoded(a, p);
    ListsEncoded(b, p);
  }

  /** Counts add, and a malformed second part spoils the whole. */
  lemma CountsAdd(a: seq<Byte>, b: seq<Byte>)
    requires IsBytes(a) && Counted(a, 0) > 0
    ensures Counted(a + b, 0) ==
            if |b| == 0 then Counted(a, 0) else if Counted(b, 0) == 0 then 0 else Counted(a, 0) + Counted(b, 0)
  {
    CountedPrefix(a, b);
    CountedShift(b, Counted(a, 0));
  }

  lemma CountedPrefix(a: seq<Byte>, b: seq<Byte>)
    requires IsBytes(a) && Counted(a, 0) > 0
    ensures Counted(a + b, 0) == Counted(b, Counted(a, 0))
  {
    var lists := Decomposition(a);
    CountsEncoded(lists, a, b, a + b, 0, |lists|);
  }

  lemma Decomposition(p: seq<Byte>) returns (lists: seq<SignatureList>)
    requires IsBytes(p) && Counted(p, 0) > 0
    ensures Decomposes(p, lists) && |lists| == Counted(p, 0)
  {
    CountedLists(p, 0);
    ListsDecode(p);
    lists := Lists(p);
  }

  lemma CountedShift(b: seq<Byte>, count: nat)
    ensures Counted(b, count) == if |b| > 0 && Counted(b, 0) == 0 then 0 else count + Counted(b, 0)
  {
    CountedLists(b, count);
    CountedLists(b, 0);
    if Accepted(b) && |b| > 0 {
      assert |Lists(b)| > 0;
    }
  }
}
