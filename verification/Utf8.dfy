/** UTF-8 as the JSON printer checks it (src/output.c), against the encoding of Unicode scalar
    values (section 3.9 of the Unicode Standard, Tables 3-6 and 3-7).

    A character stands for one byte; anything above 255 is simply ill-formed. */
module Utf8 {
  import opened CText

  // ----- the encoding --------------------------------------------------------------------

  predicate Scalar(v: int) {
    (0 <= v < 0xD800) || (0xE000 <= v <= 0x10FFFF)
  }

  type ScalarValue = v: int | (0 <= v < 0xD800) || (0xE000 <= v <= 0x10FFFF)

  function Byte(n: int): (c: char)
    requires 0 <= n < 0x100
    ensures c as int == n
  {
    n as char
  }

  /** The bytes of one scalar value (Table 3-6). */
  function Encode(v: ScalarValue): (s: string)
    ensures 1 <= |s| <= 4
  {
    if v < 0x80 then [Byte(v)]
    else if v < 0x800 then [Byte(0xC0 + v / 0x40), Byte(0x80 + v % 0x40)]
    else if v < 0x1_0000 then
      [Byte(0xE0 + v / 0x1000), Byte(0x80 + v / 0x40 % 0x40), Byte(0x80 + v % 0x40)]
    else
      [Byte(0xF0 + v / 0x4_0000), Byte(0x80 + v / 0x1000 % 0x40), Byte(0x80 + v / 0x40 % 0x40), Byte(0x80 + v % 0x40)]
  }

  function EncodeAll(vs: seq<ScalarValue>): (s: string) {
    FlatMap(Encode, vs)
  }

  /** Some sequence of scalar values has this text as its encoding. */
  ghost predicate WellFormed(s: string) {
    exists vs: seq<ScalarValue> :: EncodeAll(vs) == s
  }

  const REPLACEMENT: ScalarValue := 0xFFFD

  // ----- the printer's check -------------------------------------------------------------

  /** The byte at `i`; beyond the text stands the terminator. */
  function At(s: string, i: nat): (n: int) {
    if i < |s| then s[i] as int else 0
  }

  predicate Tail(n: int) { 0x80 <= n <= 0xBF }

  /** The length 2 to 4 of a well-formed sequence at the start of `s`, or 0 (Table 3-7). */
  function ValidLen(s: string): (n: nat)
    ensures n <= |s| && n != 1 && n <= 4
    ensures n > 0 ==> s[0] as int >= 0x80
  {
    var c := At(s, 0);
    if 0xC2 <= c <= 0xDF then if Tail(At(s, 1)) then 2 else 0
    else if c == 0xE0 then if 0xA0 <= At(s, 1) <= 0xBF && Tail(At(s, 2)) then 3 else 0
    else if 0xE1 <= c <= 0xEC || c == 0xEE || c == 0xEF then if Tail(At(s, 1)) && Tail(At(s, 2)) then 3 else 0
    else if c == 0xED then if 0x80 <= At(s, 1) <= 0x9F && Tail(At(s, 2)) then 3 else 0
    else if c == 0xF0 then if 0x90 <= At(s, 1) <= 0xBF && Tail(At(s, 2)) && Tail(At(s, 3)) then 4 else 0
    else if 0xF1 <= c <= 0xF3 then if Tail(At(s, 1)) && Tail(At(s, 2)) && Tail(At(s, 3)) then 4 else 0
    else if c == 0xF4 then if 0x80 <= At(s, 1) <= 0x8F && Tail(At(s, 2)) && Tail(At(s, 3)) then 4 else 0
    else 0
  }

  /** A NUL-terminated buffer and the text before its terminator. */
  ghost predicate Terminated(buf: seq<char>, n: nat) {
    n < |buf| && buf[n] == '\0' && forall i :: 0 <= i < n ==> buf[i] != '\0'
  }

  /** `utf8_valid_len` on a pointer into a terminated buffer: every byte it reads lies at or
      before the terminator. */
  method Utf8ValidLen(buf: seq<char>, p: nat, ghost n: nat) returns (len: nat)
    requires Terminated(buf, n) && |buf| == n + 1 && p < n
    ensures len == ValidLen(buf[p..n]) && p + len <= n
  {
    var c := buf[p] as int;
    if c >= 0xC2 && c <= 0xDF {
      return if Tail(buf[p + 1] as int) then 2 else 0;
    }
    if c == 0xE0 {
      return if buf[p + 1] as int >= 0xA0 && buf[p + 1] as int <= 0xBF && Tail(buf[p + 2] as int) then 3 else 0;
    }
    if (c >= 0xE1 && c <= 0xEC) || c == 0xEE || c == 0xEF {
      return if Tail(buf[p + 1] as int) && Tail(buf[p + 2] as int) then 3 else 0;
    }
    if c == 0xED {
      return if buf[p + 1] as int >= 0x80 && buf[p + 1] as int <= 0x9F && Tail(buf[p + 2] as int) then 3 else 0;
    }
    if c == 0xF0 {
      return if buf[p + 1] as int >= 0x90 && buf[p + 1] as int <= 0xBF && Tail(buf[p + 2] as int)
                && Tail(buf[p + 3] as int) then 4 else 0;
    }
    if c >= 0xF1 && c <= 0xF3 {
      return if Tail(buf[p + 1] as int) && Tail(buf[p + 2] as int) && Tail(buf[p + 3] as int) then 4 else 0;
    }
    if c == 0xF4 {
      return if buf[p + 1] as int >= 0x80 && buf[p + 1] as int <= 0x8F && Tail(buf[p + 2] as int)
                && Tail(buf[p + 3] as int) then 4 else 0;
    }
    return 0;
  }

  // ----- the check recognises exactly the encodings --------------------------------------

  /** The scalar value that a recognised sequence encodes. */
  function Decode(s: string): (v: int)
    requires ValidLen(s) > 0
  {
    var c := At(s, 0);
    if ValidLen(s) == 2 then (c - 0xC0) * 0x40 + (At(s, 1) - 0x80)
    else if ValidLen(s) == 3 then (c - 0xE0) * 0x1000 + (At(s, 1) - 0x80) * 0x40 + (At(s, 2) - 0x80)
    else (c - 0xF0) * 0x4_0000 + (At(s, 1) - 0x80) * 0x1000 + (At(s, 2) - 0x80) * 0x40 + (At(s, 3) - 0x80)
  }

  /** The base-64 digits of a number. */
  lemma Digits(a: int, b: int, c: int, d: int)
    requires 0 <= b < 0x40 && 0 <= c < 0x40 && 0 <= d < 0x40
    ensures var v := a * 0x4_0000 + b * 0x1000 + c * 0x40 + d;
      v / 0x4_0000 == a && v / 0x1000 == a * 0x40 + b && v / 0x1000 % 0x40 == b
      && v / 0x40 % 0x40 == c && v % 0x40 == d && v / 0x40 == a * 0x1000 + b * 0x40 + c
  {
    var v := a * 0x4_0000 + b * 0x1000 + c * 0x40 + d;
    assert v / 0x40 == a * 0x1000 + b * 0x40 + c;
    assert v / 0x1000 == a * 0x40 + b;
  }

  lemma TwoBytes(c0: int, c1: int)
    requires 0xC2 <= c0 <= 0xDF && Tail(c1)
    ensures var v := (c0 - 0xC0) * 0x40 + (c1 - 0x80);
      0x80 <= v < 0x800 && Encode(v) == [Byte(c0), Byte(c1)]
  {
    Digits(0, 0, c0 - 0xC0, c1 - 0x80);
  }

  lemma ThreeBytes(c0: int, c1: int, c2: int)
    requires 0xE0 <= c0 <= 0xEF && Tail(c1) && Tail(c2)
    requires (c0 == 0xE0 ==> c1 >= 0xA0) && (c0 == 0xED ==> c1 <= 0x9F)
    ensures var v := (c0 - 0xE0) * 0x1000 + (c1 - 0x80) * 0x40 + (c2 - 0x80);
      Scalar(v) && v < 0x1_0000 && Encode(v) == [Byte(c0), Byte(c1), Byte(c2)]
  {
    Digits(0, c0 - 0xE0, c1 - 0x80, c2 - 0x80);
  }

  lemma FourBytes(c0: int, c1: int, c2: int, c3: int)
    requires 0xF0 <= c0 <= 0xF4 && Tail(c1) && Tail(c2) && Tail(c3)
    requires (c0 == 0xF0 ==> c1 >= 0x90) && (c0 == 0xF4 ==> c1 <= 0x8F)
    ensures var v := (c0 - 0xF0) * 0x4_0000 + (c1 - 0x80) * 0x1000 + (c2 - 0x80) * 0x40 + (c3 - 0x80);
      Scalar(v) && Encode(v) == [Byte(c0), Byte(c1), Byte(c2), Byte(c3)]
  {
    Digits(c0 - 0xF0, c1 - 0x80, c2 - 0x80, c3 - 0x80);
  }

  lemma RecognisedTwo(s: string)
    requires ValidLen(s) == 2
    ensures Scalar(Decode(s)) && Encode(Decode(s)) == s[..2]
  {
    TwoBytes(At(s, 0), At(s, 1));
    assert s[..2] == [s[0], s[1]];
  }

  lemma RecognisedThree(s: string)
    requires ValidLen(s) == 3
    ensures Scalar(Decode(s)) && Encode(Decode(s)) == s[..3]
  {
    ThreeBytes(At(s, 0), At(s, 1), At(s, 2));
    assert s[..3] == [s[0], s[1], s[2]];
  }

  lemma RecognisedFour(s: string)
    requires ValidLen(s) == 4
    ensures Scalar(Decode(s)) && Encode(Decode(s)) == s[..4]
  {
    FourBytes(At(s, 0), At(s, 1), At(s, 2), At(s, 3));
    assert s[..4] == [s[0], s[1], s[2], s[3]];
  }

  /** Whatever the check accepts is the encoding of a scalar value. */
  lemma RecognisedIsEncoded(s: string)
    requires ValidLen(s) > 0
    ensures Scalar(Decode(s)) && Encode(Decode(s)) == s[..ValidLen(s)]
  {
    if ValidLen(s) == 2 {
      RecognisedTwo(s);
    } else if ValidLen(s) == 3 {
      RecognisedThree(s);
    } else {
      RecognisedFour(s);
    }
  }

  lemma Regroup(v: int)
    requires v >= 0
    ensures v == v / 0x40 * 0x40 + v % 0x40
    ensures v / 0x40 == v / 0x1000 * 0x40 + v / 0x40 % 0x40
    ensures v / 0x1000 == v / 0x4_0000 * 0x40 + v / 0x1000 % 0x40
  {
  }

  /** Every scalar value beyond ASCII is accepted, whatever follows it. */
  lemma EncodedIsRecognised(v: ScalarValue, rest: string)
    requires v >= 0x80
    ensures ValidLen(Encode(v) + rest) == |Encode(v)| && Decode(Encode(v) + rest) == v
  {
    var s := Encode(v) + rest;
    Regroup(v);
    if v < 0x800 {
      assert ValidLen(s) == 2;
    } else if v < 0x1_0000 {
      assert ValidLen(s) == 3;
    } else {
      assert ValidLen(s) == 4;
    }
  }

  // ----- sanitising ----------------------------------------------------------------------

  /** The text the printer stands for: each byte that begins no well-formed sequence becomes
      one replacement character. */
  function Sanitise(s: string): (t: string) {
    if |s| == 0 then ""
    else if s[0] as int < 0x80 then [s[0]] + Sanitise(s[1..])
    else if ValidLen(s) == 0 then Encode(REPLACEMENT) + Sanitise(s[1..])
    else s[..ValidLen(s)] + Sanitise(s[ValidLen(s)..])
  }

  /** The scalar values it encodes. */
  ghost function Scalars(s: string): (vs: seq<ScalarValue>) {
    if |s| == 0 then []
    else if s[0] as int < 0x80 then [s[0] as int] + Scalars(s[1..])
    else if ValidLen(s) == 0 then [REPLACEMENT] + Scalars(s[1..])
    else RecognisedIsEncoded(s); [Decode(s)] + Scalars(s[ValidLen(s)..])
  }

  /** How many bytes were replaced. */
  function IllFormedBytes(s: string): (n: nat)
    ensures n <= |s|
  {
    if |s| == 0 then 0
    else if s[0] as int < 0x80 then IllFormedBytes(s[1..])
    else if ValidLen(s) == 0 then 1 + IllFormedBytes(s[1..])
    else IllFormedBytes(s[ValidLen(s)..])
  }

  lemma {:induction false} SanitisedIsEncoded(s: string)
    ensures Sanitise(s) == EncodeAll(Scalars(s))
  {
    if |s| > 0 {
      if s[0] as int < 0x80 {
        SanitisedIsEncoded(s[1..]);
        assert Encode(s[0] as int) == [s[0]];
      } else if ValidLen(s) == 0 {
        SanitisedIsEncoded(s[1..]);
      } else {
        SanitisedIsEncoded(s[ValidLen(s)..]);
        RecognisedIsEncoded(s);
      }
      assert Scalars(s)[1..]
             == if s[0] as int < 0x80 || ValidLen(s) == 0 then Scalars(s[1..]) else Scalars(s[ValidLen(s)..]);
    }
  }

  /** Encoded scalar values come back unchanged, and their text is left alone. */
  lemma {:induction false} SanitiseKeepsEncoded(vs: seq<ScalarValue>)
    ensures Scalars(EncodeAll(vs)) == vs && Sanitise(EncodeAll(vs)) == EncodeAll(vs)
  {
    if |vs| > 0 {
      var rest := EncodeAll(vs[1..]);
      SanitiseKeepsEncoded(vs[1..]);
      SanitiseOne(vs[0], rest);
      assert vs == [vs[0]] + vs[1..];
    }
  }

  lemma SanitiseOne(v: ScalarValue, rest: string)
    ensures Scalars(Encode(v) + rest) == [v] + Scalars(rest)
    ensures Sanitise(Encode(v) + rest) == Encode(v) + Sanitise(rest)
  {
    var s, n := Encode(v) + rest, |Encode(v)|;
    assert s[n..] == rest && s[..n] == Encode(v);
    if v >= 0x80 {
      EncodedIsRecognised(v, rest);
    }
  }

  /** Sanitising always gives well-formed text, changes nothing exactly when the text was
      well-formed already, and does nothing more the second time. */
  lemma SanitiseSound(s: string)
    ensures WellFormed(Sanitise(s))
    ensures Sanitise(s) == s <==> WellFormed(s)
    ensures Sanitise(Sanitise(s)) == Sanitise(s)
  {
    SanitisedIsEncoded(s);
    SanitiseKeepsEncoded(Scalars(s));
    if WellFormed(s) {
      var vs :| EncodeAll(vs) == s;
      SanitiseKeepsEncoded(vs);
    }
  }

  /** One replacement character of three bytes for each ill-formed byte, nothing else. */
  lemma {:induction false} SanitisedLength(s: string)
    ensures |Sanitise(s)| == |s| + 2 * IllFormedBytes(s)
    ensures IllFormedBytes(s) == 0 <==> WellFormed(s)
  {
    SanitisedLengthOnly(s);
    SanitiseSound(s);
    NothingReplaced(s);
  }

  lemma {:induction false} SanitisedLengthOnly(s: string)
    ensures |Sanitise(s)| == |s| + 2 * IllFormedBytes(s)
  {
    if |s| > 0 {
      if s[0] as int < 0x80 || ValidLen(s) == 0 {
        SanitisedLengthOnly(s[1..]);
      } else {
        SanitisedLengthOnly(s[ValidLen(s)..]);
      }
    }
  }

  lemma {:induction false} NothingReplaced(s: string)
    ensures IllFormedBytes(s) == 0 ==> Sanitise(s) == s
  {
    if |s| > 0 && IllFormedBytes(s) == 0 {
      if s[0] as int < 0x80 {
        NothingReplaced(s[1..]);
        assert [s[0]] + s[1..] == s;
      } else {
        NothingReplaced(s[ValidLen(s)..]);
        assert s[..ValidLen(s)] + s[ValidLen(s)..] == s;
      }
    }
  }
}
