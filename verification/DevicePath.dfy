/** The two walkers over EFI device paths (src/efi_boot_parsers.c; section 10.3 of the UEFI
    Specification 2.10): one decides the type of a boot entry, the other collects its file path. */
module DevicePath {
  import opened CText
  import opened Bytes

  datatype BootType = UNKNOWN | DISK | CD | USB | NETWORK

  const NODE_HEADER: nat := 4
  const END_TYPE: nat := 0x7F
  const END_SUBTYPE: nat := 0xFF
  const MSG_TYPE: nat := 0x03
  const MEDIA_TYPE: nat := 0x04
  const BBS_TYPE: nat := 0x05
  const MEDIA_FILEPATH: nat := 0x04
  const SEGMENT_SIZE: nat := 256

  // UTF-16 text. A unit is one of the codes of a string, so never the terminator.

  type Unit = x: int | 0 < x < 0x1_0000 witness 1

  function AsciiChar(code: nat): (c: char) {
    if code < 128 then code as char else '?'
  }

  function AsciiText(units: seq<Unit>): (s: string)
    ensures |s| == |units|
  {
    if |units| == 0 then [] else [AsciiChar(units[0])] + AsciiText(units[1..])
  }

  ghost function EncodeUnits(units: seq<Unit>): (b: seq<Byte>)
    ensures |b| == 2 * |units|
  {
    if |units| == 0 then [] else Enc16(units[0]) + EncodeUnits(units[1..])
  }

  /** The conversion of at most `room` units, up to a zero unit or the end of the bytes. */
  function Ascii(src: seq<Byte>, room: nat): (s: string)
    ensures |s| <= room && 2 * |s| <= |src|
  {
    if |src| < 2 || room == 0 || Le16(src, 0) == 0 then []
    else [AsciiChar(Le16(src, 0))] + Ascii(src[2..], room - 1)
  }

  lemma {:induction false} UnitAt(src: seq<Byte>, si: nat, room: nat, code: nat)
    requires si + 2 <= |src| && room > 0 && code == Le16(src, si) != 0
    ensures Ascii(src[si..], room) == [AsciiChar(code)] + Ascii(src[si + 2..], room - 1)
  {
    assert src[si..][2..] == src[si + 2..];
  }

  /** `utf16le_to_ascii`. */
  method Utf16ToAscii(src: seq<Byte>, dstSize: nat) returns (dst: string)
    requires dstSize > 0
    ensures dst == Ascii(src, dstSize - 1)
  {
    dst := "";
    var si := 0;
    while si + 1 < |src| && |dst| + 1 < dstSize
      invariant si <= |src| && |dst| < dstSize
      invariant dst + Ascii(src[si..], dstSize - 1 - |dst|) == Ascii(src, dstSize - 1)
    {
      var code := Le16(src, si);
      if code == 0 {
        break;
      }
      UnitAt(src, si, dstSize - 1 - |dst|, code);
      Assoc(dst, [AsciiChar(code)], Ascii(src[si + 2..], dstSize - 2 - |dst|));
      dst := dst + [AsciiChar(code)];
      si := si + 2;
    }
  }

  /** The units of a string come back as characters, up to the room there is. */
  lemma {:induction false} AsciiOfUnits(units: seq<Unit>, rest: seq<Byte>, room: nat)
    requires |rest| < 2 || Le16(rest, 0) == 0
    ensures Ascii(EncodeUnits(units) + rest, room) == Prefix(AsciiText(units), room)
  {
    if |units| == 0 {
      assert EncodeUnits(units) + rest == rest;
    } else if room > 0 {
      AsciiOfUnits(units[1..], rest, room - 1);
      UnitsTail(Enc16(units[0]), EncodeUnits(units[1..]), rest);
    }
  }

  lemma UnitsTail(u: seq<Byte>, us: seq<Byte>, rest: seq<Byte>)
    requires |u| == 2
    ensures Le16((u + us) + rest, 0) == Le16(u, 0) && ((u + us) + rest)[2..] == us + rest
  {
  }

  // Nodes of a path.

  datatype Node = Node(kind: Byte, sub: Byte, payload: seq<Byte>) {
    predicate Valid() {
      NODE_HEADER + |payload| < LIMIT16 && !(kind == END_TYPE && sub == END_SUBTYPE)
    }

    predicate IsFilePath() { kind == MEDIA_TYPE && sub == MEDIA_FILEPATH }

    ghost function Encode(): (b: seq<Byte>)
      requires Valid()
      ensures |b| == NODE_HEADER + |payload|
    {
      [kind, sub] + Enc16(NODE_HEADER + |payload|) + payload
    }
  }

  predicate IsEnd(dp: seq<Byte>)
    requires |dp| >= NODE_HEADER
  {
    dp[0] == END_TYPE && dp[1] == END_SUBTYPE
  }

  /** The boot device type of BIOS Boot Specification nodes. */
  function BbsType(code: nat): (t: BootType) {
    if code == 2 then DISK
    else if code == 3 then CD
    else if code == 5 || code == 0x80 then USB
    else if code == 6 then NETWORK
    else UNKNOWN
  }

  function MessagingType(sub: Byte): (t: BootType) {
    if sub == 0x05 || sub == 0x0F || sub == 0x10 then USB
    else if sub == 0x0C || sub == 0x0D || sub == 0x09 || sub == 0x0B || sub == 0x18 then NETWORK
    else UNKNOWN
  }

  function MediaType(sub: Byte): (t: BootType) {
    if sub == 0x01 || sub == MEDIA_FILEPATH then DISK
    else if sub == 0x02 then CD
    else UNKNOWN
  }

  /** What the classifier answers at the node the bytes begin with. */
  function TypeAt(dp: seq<Byte>): (t: BootType)
    requires |dp| >= NODE_HEADER
  {
    if dp[0] == BBS_TYPE && dp[1] == 1 && |dp| >= 6 then BbsType(Le16(dp, 4))
    else if dp[0] == MSG_TYPE then MessagingType(dp[1])
    else if dp[0] == MEDIA_TYPE then MediaType(dp[1])
    else UNKNOWN
  }

  predicate Looks(dp: seq<Byte>) {
    |dp| >= NODE_HEADER && Le16(dp, 2) >= NODE_HEADER && !IsEnd(dp)
  }

  /** The classifier as a function of the bytes from its offset on. */
  function Classify(dp: seq<Byte>): (t: BootType) {
    if !Looks(dp) then UNKNOWN
    else if TypeAt(dp) != UNKNOWN then TypeAt(dp)
    else if Le16(dp, 2) > |dp| then UNKNOWN
    else Classify(dp[Le16(dp, 2)..])
  }

  /** The switches of `classify_device_path`, at one offset. */
  method SwitchType(dp: seq<Byte>, offset: nat) returns (t: BootType)
    requires offset + NODE_HEADER <= |dp|
    ensures t == TypeAt(dp[offset..])
  {
    var kind, sub := dp[offset], dp[offset + 1];
    if kind == BBS_TYPE && sub == 1 {
      if offset + 6 <= |dp| {
        match Le16(dp, offset + 4) {
          case 2 => return DISK;
          case 3 => return CD;
          case 5 => return USB;
          case 0x80 => return USB;
          case 6 => return NETWORK;
          case _ =>
        }
      }
    }
    if kind == MSG_TYPE {
      return MessagingType(sub);
    }
    if kind == MEDIA_TYPE {
      return MediaType(sub);
    }
    return UNKNOWN;
  }

  /** `classify_device_path`. */
  method ClassifyDevicePath(dp: seq<Byte>) returns (t: BootType)
    ensures t == Classify(dp)
  {
    var offset := 0;
    while offset + NODE_HEADER <= |dp|
      invariant Classify(dp) == if offset <= |dp| then Classify(dp[offset..]) else UNKNOWN
    {
      var nodeLen := Le16(dp, offset + 2);
      if nodeLen < NODE_HEADER {
        break;
      }
      if dp[offset] == END_TYPE && dp[offset + 1] == END_SUBTYPE {
        break;
      }
      t := SwitchType(dp, offset);
      if t != UNKNOWN {
        return;
      }
      assert offset + nodeLen <= |dp| ==> dp[offset..][nodeLen..] == dp[offset + nodeLen..];
      offset := offset + nodeLen;
    }
    return UNKNOWN;
  }

  predicate Steps(dp: seq<Byte>) {
    Looks(dp) && Le16(dp, 2) <= |dp|
  }

  /** The text that the node the bytes begin with adds to the file path. */
  function SegmentAt(dp: seq<Byte>): (s: string)
    requires Steps(dp)
  {
    if dp[0] == MEDIA_TYPE && dp[1] == MEDIA_FILEPATH then Ascii(dp[4..Le16(dp, 2)], SEGMENT_SIZE - 1) else []
  }

  /** The text of the file path nodes from here to the end of the walk. */
  function Segments(dp: seq<Byte>): (s: string) {
    if Steps(dp) then SegmentAt(dp) + Segments(dp[Le16(dp, 2)..]) else []
  }

  lemma PrefixAppend(done: string, seg: string, n: nat)
    ensures Prefix(done + seg, n) == Prefix(done, n) + Prefix(seg, n - |Prefix(done, n)|)
  {
  }

  /** The copy of one segment behind the text already there. */
  method CopySegment(out: string, seg: string, outSize: nat) returns (longer: string)
    requires |out| < outSize
    ensures longer == out + Prefix(seg, outSize - 1 - |out|)
  {
    longer := out;
    var i := 0;
    while i < |seg| && |longer| + 1 < outSize
      invariant i <= |seg| && |out| + i < outSize
      invariant longer == out + seg[..i]
    {
      longer := longer + [seg[i]];
      i := i + 1;
    }
  }

  lemma SegmentWithin(dp: seq<Byte>, offset: nat, nodeLen: nat)
    requires offset <= |dp| && Steps(dp[offset..]) && nodeLen == Le16(dp[offset..], 2)
    ensures SegmentAt(dp[offset..])
            == if dp[offset] == MEDIA_TYPE && dp[offset + 1] == MEDIA_FILEPATH
               then Ascii(dp[offset + 4..offset + nodeLen], SEGMENT_SIZE - 1) else []
  {
    assert dp[offset..][4..nodeLen] == dp[offset + 4..offset + nodeLen];
  }

  /** The step of `dp_extract_filepath` at one node, behind the segments `done`. */
  method ExtractNode(dp: seq<Byte>, offset: nat, nodeLen: nat, out: string, outSize: nat, ghost done: string)
    returns (longer: string)
    requires offset <= |dp| && Steps(dp[offset..]) && nodeLen == Le16(dp[offset..], 2)
    requires outSize > 0 && out == Prefix(done, outSize - 1)
    ensures longer == Prefix(done + SegmentAt(dp[offset..]), outSize - 1)
  {
    longer := out;
    SegmentWithin(dp, offset, nodeLen);
    PrefixAppend(done, SegmentAt(dp[offset..]), outSize - 1);
    if dp[offset] == MEDIA_TYPE && dp[offset + 1] == MEDIA_FILEPATH {
      var seg := Utf16ToAscii(dp[offset + 4..offset + nodeLen], SEGMENT_SIZE);
      longer := CopySegment(out, seg, outSize);
    }
  }

  /** `dp_extract_filepath`: all segments in order, cut once by the size of the buffer. */
  method ExtractFilePath(dp: seq<Byte>, outSize: nat) returns (out: string)
    ensures out == if outSize == 0 then [] else Prefix(Segments(dp), outSize - 1)
  {
    out := "";
    if outSize == 0 {
      return;
    }
    var offset := 0;
    ghost var done, rest, whole := "", Segments(dp), Segments(dp);
    assert dp[0..] == dp;
    while offset + NODE_HEADER <= |dp|
      invariant offset <= |dp| && out == Prefix(done, outSize - 1)
      invariant rest == Segments(dp[offset..])
      invariant done + rest == whole
    {
      var nodeLen := Le16(dp, offset + 2);
      if nodeLen < NODE_HEADER || offset + nodeLen > |dp| {
        break;
      }
      if dp[offset] == END_TYPE && dp[offset + 1] == END_SUBTYPE {
        break;
      }
      out := ExtractNode(dp, offset, nodeLen, out, outSize, done);
      var next := offset + nodeLen;
      done, rest := SegmentsStep(dp, offset, next, done, rest);
      offset := next;
    }
  }

  lemma SegmentsStep(dp: seq<Byte>, offset: nat, next: nat, done: string, rest: string)
    returns (more: string, less: string)
    requires offset <= |dp| && Steps(dp[offset..]) && next == offset + Le16(dp[offset..], 2)
    requires rest == Segments(dp[offset..])
    ensures more == done + SegmentAt(dp[offset..]) && less == Segments(dp[next..])
    ensures more + less == done + rest
  {
    less := SegmentsUnfold(dp[offset..], dp[next..]);
    var seg := SegmentAt(dp[offset..]);
    more := done + seg;
    Regroup(done, seg, less, rest);
  }

  lemma SegmentsUnfold(dp: seq<Byte>, later: seq<Byte>) returns (less: string)
    requires Steps(dp) && later == dp[Le16(dp, 2)..]
    ensures less == Segments(later) && Segments(dp) == SegmentAt(dp) + less
  {
    less := Segments(later);
  }

  lemma Regroup(done: string, seg: string, less: string, rest: string)
    requires rest == seg + less
    ensures (done + seg) + less == done + rest
  {
  }

  // The nodes behind both walks.

  function NodeAt(dp: seq<Byte>): (n: Node)
    requires Steps(dp)
    ensures n.Valid()
  {
    Node(dp[0], dp[1], dp[4..Le16(dp, 2)])
  }

  /** The nodes that the extractor steps over, and the bytes at which it stops. */
  function Walked(dp: seq<Byte>): (nodes: seq<Node>) {
    if Steps(dp) then [NodeAt(dp)] + Walked(dp[Le16(dp, 2)..]) else []
  }

  function Rest(dp: seq<Byte>): (rest: seq<Byte>)
    ensures !Steps(rest)
  {
    if Steps(dp) then Rest(dp[Le16(dp, 2)..]) else dp
  }

  /** What a node is by itself. */
  function TypeOf(n: Node): (t: BootType) {
    if n.kind == BBS_TYPE && n.sub == 1 && |n.payload| >= 2 then BbsType(Le16(n.payload, 0))
    else if n.kind == MSG_TYPE then MessagingType(n.sub)
    else if n.kind == MEDIA_TYPE then MediaType(n.sub)
    else UNKNOWN
  }

  function FirstType(nodes: seq<Node>): (t: BootType) {
    if |nodes| == 0 then UNKNOWN
    else if TypeOf(nodes[0]) != UNKNOWN then TypeOf(nodes[0])
    else FirstType(nodes[1..])
  }

  /** A BIOS Boot Specification node that holds its own device type. */
  predicate Whole(n: Node) {
    n.kind == BBS_TYPE && n.sub == 1 ==> |n.payload| >= 2
  }

  function SegmentText(nodes: seq<Node>): (s: string) {
    if |nodes| == 0 then []
    else (if nodes[0].IsFilePath() then Ascii(nodes[0].payload, SEGMENT_SIZE - 1) else []) + SegmentText(nodes[1..])
  }

  /** On any bytes the collected path is the text of the nodes walked, in order. */
  lemma {:induction false} SegmentsOfWalked(dp: seq<Byte>)
    ensures Segments(dp) == SegmentText(Walked(dp))
  {
    if Steps(dp) {
      SegmentsOfWalked(dp[Le16(dp, 2)..]);
    }
  }

  /** The first recognised type among the nodes that the extractor walks. When there is none the
      classifier still looks at the node at which the extractor stops, whose announced length may
      exceed the bytes. */
  function Expected(dp: seq<Byte>): (t: BootType) {
    if FirstType(Walked(dp)) != UNKNOWN then FirstType(Walked(dp))
    else if Looks(Rest(dp)) then TypeAt(Rest(dp)) else UNKNOWN
  }

  /** The bytes begin with a node too short for its device type, and what stands in its place
      behind the node reads as one. */
  predicate ReadsOn(dp: seq<Byte>)
    requires Steps(dp)
  {
    !Whole(NodeAt(dp)) && |dp| >= 6 && BbsType(Le16(dp, 4)) != UNKNOWN
  }

  /** The type read behind a short node, when no node before it is recognised. */
  function Misread(dp: seq<Byte>): (t: BootType) {
    if !Steps(dp) || TypeOf(NodeAt(dp)) != UNKNOWN then UNKNOWN
    else if ReadsOn(dp) then BbsType(Le16(dp, 4))
    else Misread(dp[Le16(dp, 2)..])
  }

  lemma TypeAtNode(dp: seq<Byte>)
    requires Steps(dp)
    ensures TypeAt(dp) == if ReadsOn(dp) then BbsType(Le16(dp, 4)) else TypeOf(NodeAt(dp))
    ensures ReadsOn(dp) ==> TypeOf(NodeAt(dp)) == UNKNOWN
  {
    if Le16(dp, 2) >= 6 {
      assert Le16(dp[4..Le16(dp, 2)], 0) == Le16(dp, 4);
    }
  }

  lemma WalkedStep(dp: seq<Byte>)
    requires Steps(dp)
    ensures var rest := dp[Le16(dp, 2)..];
            FirstType(Walked(dp))
            == if TypeOf(NodeAt(dp)) != UNKNOWN then TypeOf(NodeAt(dp)) else FirstType(Walked(rest))
  {
    assert Walked(dp)[0] == NodeAt(dp) && Walked(dp)[1..] == Walked(dp[Le16(dp, 2)..]);
  }

  /** On any bytes: the classifier answers as expected exactly when nothing is misread, or what is
      misread happens to be the type expected. */
  lemma {:induction false} ClassifyExactly(dp: seq<Byte>)
    ensures Classify(dp) == if Misread(dp) != UNKNOWN then Misread(dp) else Expected(dp)
    ensures Classify(dp) == Expected(dp) <==> Misread(dp) == UNKNOWN || Misread(dp) == Expected(dp)
  {
    if Steps(dp) {
      TypeAtNode(dp);
      WalkedStep(dp);
      ClassifyExactly(dp[Le16(dp, 2)..]);
    }
  }

  /** The bytes from the `i`th walked node on. */
  ghost function From(dp: seq<Byte>, i: nat): (later: seq<Byte>)
    requires i <= |Walked(dp)|
    ensures i < |Walked(dp)| ==> Steps(later) && NodeAt(later) == Walked(dp)[i]
  {
    if i == 0 then dp else From(dp[Le16(dp, 2)..], i - 1)
  }

  /** Node `i` is misread, and no node before it is recognised. */
  ghost predicate MisreadNode(dp: seq<Byte>, i: nat) {
    && i < |Walked(dp)|
    && (forall j :: 0 <= j < i ==> TypeOf(Walked(dp)[j]) == UNKNOWN)
    && ReadsOn(From(dp, i))
  }

  /** Something is misread exactly when a known code stands behind a short BIOS Boot Specification
      node that is ahead of every recognised node. */
  lemma {:induction false} MisreadExactly(dp: seq<Byte>)
    ensures Misread(dp) != UNKNOWN <==> exists i: nat :: MisreadNode(dp, i)
  {
    if Steps(dp) {
      var rest := dp[Le16(dp, 2)..];
      MisreadExactly(rest);
      TypeAtNode(dp);
      MisreadFirst(dp);
      if i: nat :| MisreadNode(rest, i) {
        MisreadLater(dp, rest, i);
      }
      if i: nat :| MisreadNode(dp, i) && i > 0 {
        MisreadLater(dp, rest, i - 1);
      }
    }
  }

  lemma MisreadFirst(dp: seq<Byte>)
    requires Steps(dp)
    ensures MisreadNode(dp, 0) <==> ReadsOn(dp)
  {
  }

  lemma MisreadLater(dp: seq<Byte>, rest: seq<Byte>, i: nat)
    requires Steps(dp) && rest == dp[Le16(dp, 2)..]
    ensures MisreadNode(dp, i + 1) <==> TypeOf(NodeAt(dp)) == UNKNOWN && MisreadNode(rest, i)
  {
    var nodes, later := Walked(dp), Walked(rest);
    assert nodes == [NodeAt(dp)] + later;
    if i < |later| {
      LaterUnknown(nodes, later, i);
    }
  }

  lemma LaterUnknown(nodes: seq<Node>, later: seq<Node>, i: nat)
    requires |nodes| > 0 && nodes[1..] == later && i < |later|
    ensures (forall j :: 0 <= j < i + 1 ==> TypeOf(nodes[j]) == UNKNOWN)
            <==> TypeOf(nodes[0]) == UNKNOWN && forall j :: 0 <= j < i ==> TypeOf(later[j]) == UNKNOWN
  {
    if forall j :: 0 <= j < i + 1 ==> TypeOf(nodes[j]) == UNKNOWN {
      forall j | 0 <= j < i
        ensures TypeOf(later[j]) == UNKNOWN
      {
        assert later[j] == nodes[j + 1];
      }
    }
    if TypeOf(nodes[0]) == UNKNOWN && forall j :: 0 <= j < i ==> TypeOf(later[j]) == UNKNOWN {
      forall j | 0 <= j < i + 1
        ensures TypeOf(nodes[j]) == UNKNOWN
      {
        assert j > 0 ==> nodes[j] == later[j - 1];
      }
    }
  }

  /** Without a short node the classifier answers as expected. */
  lemma ClassifyIsFirst(dp: seq<Byte>)
    requires forall n <- Walked(dp) :: Whole(n)
    ensures Classify(dp) == Expected(dp)
  {
    MisreadExactly(dp);
    if i: nat :| MisreadNode(dp, i) {
      assert Walked(dp)[i] in Walked(dp);
    }
    ClassifyExactly(dp);
  }

  /** A node cut short: the device type is then read from the node behind it. */
  lemma ShortBbsReadsOn()
    ensures var dp: seq<Byte> := [BBS_TYPE, 1, 4, 0, 2, 0, 4, 0];
            Expected(dp) == UNKNOWN && Classify(dp) == DISK
  {
    var dp: seq<Byte>, next: seq<Byte> := [BBS_TYPE, 1, 4, 0, 2, 0, 4, 0], [2, 0, 4, 0];
    assert Le16(dp, 2) == 4 && Le16(dp, 4) == 2 && Le16(next, 2) == 4;
    assert dp[4..] == next && next[4..] == [];
    assert TypeOf(NodeAt(dp)) == UNKNOWN && TypeOf(NodeAt(next)) == UNKNOWN;
    assert Walked([]) == [] && Rest([]) == [];
    assert Walked(next) == [NodeAt(next)] && Rest(dp) == Rest(next) == [];
    assert Walked(dp) == [NodeAt(dp), NodeAt(next)];
    assert [NodeAt(next)][1..] == [] && FirstType([NodeAt(next)]) == UNKNOWN;
    assert Walked(dp)[1..] == [NodeAt(next)];
    assert TypeAt(dp) == DISK;
  }

  /** Without any condition: what the extractor recognises, the classifier has recognised. */
  lemma {:induction false} RecognisedIsDecided(dp: seq<Byte>)
    requires FirstType(Walked(dp)) != UNKNOWN
    ensures Classify(dp) != UNKNOWN
  {
    if Steps(dp) {
      TypeAtNode(dp);
      assert Walked(dp)[1..] == Walked(dp[Le16(dp, 2)..]);
      if TypeAt(dp) == UNKNOWN {
        RecognisedIsDecided(dp[Le16(dp, 2)..]);
      }
    }
  }

  /** A collected path means that the device path decided the type. */
  lemma {:induction false} PathDecides(dp: seq<Byte>)
    requires Segments(dp) != []
    ensures Classify(dp) != UNKNOWN
  {
    if TypeAt(dp) == UNKNOWN {
      PathDecides(dp[Le16(dp, 2)..]);
    }
  }

  // Encoding.

  predicate AllValid(nodes: seq<Node>) {
    |nodes| == 0 || (nodes[0].Valid() && AllValid(nodes[1..]))
  }

  ghost function EncodeNodes(nodes: seq<Node>): (b: seq<Byte>)
    requires AllValid(nodes)
  {
    if |nodes| == 0 then [] else nodes[0].Encode() + EncodeNodes(nodes[1..])
  }

  const END_NODE: seq<Byte> := [0x7F, 0xFF, 4, 0]

  ghost function EncodePath(nodes: seq<Node>): (b: seq<Byte>)
    requires AllValid(nodes)
  {
    EncodeNodes(nodes) + END_NODE
  }

  lemma EncodedStep(n: Node, rest: seq<Byte>)
    requires n.Valid()
    ensures var dp := n.Encode() + rest;
            Steps(dp) && NodeAt(dp) == n && dp[Le16(dp, 2)..] == rest
  {
    var dp := n.Encode() + rest;
    assert dp[2..4] == Enc16(NODE_HEADER + |n.payload|);
    Le16Slice(dp, 2);
    assert dp[4..NODE_HEADER + |n.payload|] == n.payload;
  }

  lemma {:induction false} WalkedEncoded(nodes: seq<Node>, rest: seq<Byte>)
    requires AllValid(nodes) && !Steps(rest)
    ensures Walked(EncodeNodes(nodes) + rest) == nodes
    ensures Rest(EncodeNodes(nodes) + rest) == rest
  {
    if |nodes| == 0 {
      assert EncodeNodes(nodes) + rest == rest;
    } else {
      Assoc(nodes[0].Encode(), EncodeNodes(nodes[1..]), rest);
      EncodedStep(nodes[0], EncodeNodes(nodes[1..]) + rest);
      WalkedEncoded(nodes[1..], rest);
    }
  }

  /** The two bytes behind the header of a short node that `next` follows. */
  function CodeBehind(n: Node, next: Node): (code: nat) {
    if |n.payload| == 0 then Low(next.kind) + 0x100 * Low(next.sub)
    else Low(n.payload[0]) + 0x100 * Low(next.kind)
  }

  /** What is misread in a list of nodes: a short node takes its type from the kind and subtype of
      the next one. */
  function MisreadIn(nodes: seq<Node>): (t: BootType) {
    if |nodes| < 2 || TypeOf(nodes[0]) != UNKNOWN then UNKNOWN
    else if !Whole(nodes[0]) && BbsType(CodeBehind(nodes[0], nodes[1])) != UNKNOWN
    then BbsType(CodeBehind(nodes[0], nodes[1]))
    else MisreadIn(nodes[1..])
  }

  /** What the classifier finds at an encoded node that is too short. */
  lemma ShortEncoded(n: Node, rest: seq<Byte>, dp: seq<Byte>)
    requires n.Valid() && !Whole(n) && |rest| >= 2 && dp == n.Encode() + rest
    ensures |dp| >= 6
    ensures Le16(dp, 4) == if |n.payload| == 0 then Le16(rest, 0) else Low(n.payload[0]) + 0x100 * Low(rest[0])
  {
    assert n.Encode()[4..] == n.payload;
  }

  /** One node of an encoded path: what follows it begins with the next node or the end node. */
  lemma MisreadStep(nodes: seq<Node>, later: seq<Byte>, dp: seq<Byte>)
    requires |nodes| > 0 && nodes[0].Valid() && dp == nodes[0].Encode() + later && |later| >= 2
    requires if |nodes| > 1 then later[0] == nodes[1].kind && later[1] == nodes[1].sub
             else later[0] == END_TYPE && later[1] == END_SUBTYPE
    ensures Steps(dp) && NodeAt(dp) == nodes[0] && dp[Le16(dp, 2)..] == later
    ensures ReadsOn(dp) <==>
            |nodes| > 1 && !Whole(nodes[0]) && BbsType(CodeBehind(nodes[0], nodes[1])) != UNKNOWN
    ensures ReadsOn(dp) ==> BbsType(Le16(dp, 4)) == BbsType(CodeBehind(nodes[0], nodes[1]))
  {
    EncodedStep(nodes[0], later);
    if !Whole(nodes[0]) {
      ShortEncoded(nodes[0], later, dp);
    }
  }

  lemma {:induction false} MisreadEncoded(nodes: seq<Node>, rest: seq<Byte>)
    requires AllValid(nodes) && |rest| >= NODE_HEADER && IsEnd(rest)
    ensures Misread(EncodeNodes(nodes) + rest) == MisreadIn(nodes)
  {
    if |nodes| == 0 {
      assert EncodeNodes(nodes) + rest == rest;
    } else {
      var dp, later := EncodeNodes(nodes) + rest, EncodeNodes(nodes[1..]) + rest;
      Assoc(nodes[0].Encode(), EncodeNodes(nodes[1..]), rest);
      MisreadEncoded(nodes[1..], rest);
      FirstBytes(nodes[1..], rest);
      MisreadStep(nodes, later, dp);
      MisreadUnfold(nodes, later, dp);
    }
  }

  lemma MisreadUnfold(nodes: seq<Node>, later: seq<Byte>, dp: seq<Byte>)
    requires |nodes| > 0 && Steps(dp) && NodeAt(dp) == nodes[0] && dp[Le16(dp, 2)..] == later
    requires ReadsOn(dp) <==>
             |nodes| > 1 && !Whole(nodes[0]) && BbsType(CodeBehind(nodes[0], nodes[1])) != UNKNOWN
    requires ReadsOn(dp) ==> BbsType(Le16(dp, 4)) == BbsType(CodeBehind(nodes[0], nodes[1]))
    requires Misread(later) == MisreadIn(nodes[1..])
    ensures Misread(dp) == MisreadIn(nodes)
  {
  }

  lemma FirstBytes(nodes: seq<Node>, rest: seq<Byte>)
    requires AllValid(nodes) && |rest| >= 2
    ensures var b := EncodeNodes(nodes) + rest;
            |b| >= 2 && b[0] == (if |nodes| > 0 then nodes[0].kind else rest[0])
            && b[1] == if |nodes| > 0 then nodes[0].sub else rest[1]
  {
  }

  /** Both walkers on an encoded path, whatever stands behind its end node. */
  lemma WalkersOnEncoded(nodes: seq<Node>, more: seq<Byte>)
    requires AllValid(nodes)
    ensures var t := Classify(EncodePath(nodes) + more);
            && t == (if MisreadIn(nodes) != UNKNOWN then MisreadIn(nodes) else FirstType(nodes))
            && (t == FirstType(nodes) <==> MisreadIn(nodes) == UNKNOWN || MisreadIn(nodes) == FirstType(nodes))
    ensures Segments(EncodePath(nodes) + more) == SegmentText(nodes)
  {
    var rest := END_NODE + more;
    Assoc(EncodeNodes(nodes), END_NODE, more);
    assert rest[0] == END_TYPE && rest[1] == END_SUBTYPE;
    WalkedEncoded(nodes, rest);
    MisreadEncoded(nodes, rest);
    ClassifyExactly(EncodeNodes(nodes) + rest);
    SegmentsOfWalked(EncodeNodes(nodes) + rest);
  }

  /** A path of complete nodes has the first recognised type. */
  lemma {:induction false} CompleteIsFirst(nodes: seq<Node>)
    requires forall n <- nodes :: Whole(n)
    ensures MisreadIn(nodes) == UNKNOWN
  {
    if |nodes| >= 2 {
      assert nodes[0] in nodes;
      CompleteIsFirst(nodes[1..]);
    }
  }

  /** A file path node of a name, as firmware writes it. */
  ghost function FilePathNode(name: seq<Unit>): (n: Node)
    requires NODE_HEADER + 2 * |name| + 2 < LIMIT16
    ensures n.Valid() && n.IsFilePath()
  {
    Node(MEDIA_TYPE, MEDIA_FILEPATH, EncodeUnits(name) + [0, 0])
  }

  lemma FilePathNodeText(name: seq<Unit>)
    requires NODE_HEADER + 2 * |name| + 2 < LIMIT16
    ensures SegmentText([FilePathNode(name)]) == Prefix(AsciiText(name), SEGMENT_SIZE - 1)
  {
    AsciiOfUnits(name, [0, 0], SEGMENT_SIZE - 1);
    assert [FilePathNode(name)][1..] == [];
  }
}
