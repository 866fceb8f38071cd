/** JSON strings: `print_json_string` (src/output.c) and a strict reader of section 7 of
    RFC 8259. */
module JsonString {
  import opened CText
  import opened Utf8

  datatype Parsed<+T> = Bad | Good(value: T, rest: string)

  // ----- printing ------------------------------------------------------------------------

  function HexDigit(n: int): (c: char)
    requires 0 <= n < 16
  {
    if n < 10 then '0' + n as char else 'a' + (n - 10) as char
  }

  /** What is printed for an ASCII character. */
  function EscapeAscii(c: char): (s: string)
    requires c as int < 0x80
    ensures |s| > 0
  {
    if c == '\\' then "\\\\"
    else if c == '"' then "\\\""
    else if c == '\n' then "\\n"
    else if c == '\r' then "\\r"
    else if c == '\t' then "\\t"
    else if c as int < 0x20 then "\\u00" + [HexDigit(c as int / 16), HexDigit(c as int % 16)]
    else [c]
  }

  /** What is printed between the quotes. */
  function Escape(s: string): (t: string) {
    if |s| == 0 then ""
    else if s[0] as int < 0x80 then EscapeAscii(s[0]) + Escape(s[1..])
    else if ValidLen(s) == 0 then Encode(REPLACEMENT) + Escape(s[1..])
    else s[..ValidLen(s)] + Escape(s[ValidLen(s)..])
  }

  function PrintString(s: string): (t: string)
    ensures |t| >= 2 && t[0] == '"'
  {
    "\"" + Escape(s) + "\""
  }

  const REPLACEMENT_BYTES := "\U{EF}\U{BF}\U{BD}"

  lemma ReplacementBytes()
    ensures Encode(REPLACEMENT) == REPLACEMENT_BYTES
  {
  }

  /** The number of bytes taken at once, and what is printed for them. */
  function Piece(s: string): (r: (string, nat))
    requires |s| > 0
    ensures 0 < r.1 <= |s|
  {
    if s[0] as int < 0x80 then (EscapeAscii(s[0]), 1)
    else if ValidLen(s) == 0 then (Encode(REPLACEMENT), 1)
    else (s[..ValidLen(s)], ValidLen(s))
  }

  lemma EscapeStep(s: string)
    requires |s| > 0
    ensures Escape(s) == Piece(s).0 + Escape(s[Piece(s).1..])
  {
  }

  /** One round of the loop of `print_json_string`. */
  method PrintPiece(buf: seq<char>, p: nat, ghost n: nat) returns (piece: string, step: nat)
    requires Terminated(buf, n) && |buf| == n + 1 && p < n
    ensures (piece, step) == Piece(buf[p..n])
  {
    var c := buf[p];
    step := 1;
    if c == '\\' {
      piece := "\\\\";
    } else if c == '"' {
      piece := "\\\"";
    } else if c == '\n' {
      piece := "\\n";
    } else if c == '\r' {
      piece := "\\r";
    } else if c == '\t' {
      piece := "\\t";
    } else if c as int < 0x20 {
      piece := "\\u00" + [HexDigit(c as int / 16), HexDigit(c as int % 16)];
    } else if c as int < 0x80 {
      piece := [c];
    } else {
      var len := Utf8ValidLen(buf, p, n);
      if len == 0 {
        ReplacementBytes();
        piece := REPLACEMENT_BYTES;
      } else {
        piece, step := buf[p..p + len], len;
        assert buf[p..n][..len] == piece;
      }
    }
  }

  /** `print_json_string` on a terminated buffer; the output is appended to `start`. */
  method PrintJsonString(buf: seq<char>, ghost n: nat, start: string) returns (out: string)
    requires Terminated(buf, n) && |buf| == n + 1
    ensures out == start + PrintString(buf[..n])
  {
    out := start + "\"";
    ghost var text := buf[..n];
    ghost var done := "";
    var p := 0;
    while buf[p] != '\0'
      invariant p <= n
      invariant out == start + "\"" + done
      invariant Escape(text) == done + Escape(buf[p..n])
      decreases n - p
    {
      var piece, step := PrintPiece(buf, p, n);
      EscapeStep(buf[p..n]);
      assert buf[p..n][step..] == buf[p + step..n];
      Assoc(done, piece, Escape(buf[p + step..n]));
      Assoc(start + "\"", done, piece);
      out := out + piece;
      done := done + piece;
      p := p + step;
    }
    assert done == Escape(text);
    out := out + "\"";
    Assoc(start, "\"", done);
    Assoc(start, "\"" + done, "\"");
  }

  // ----- reading -------------------------------------------------------------------------

  function HexValue(c: char): (n: int)
    ensures -1 <= n < 16
  {
    if '0' <= c <= '9' then c as int - '0' as int
    else if 'a' <= c <= 'f' then c as int - 'a' as int + 10
    else if 'A' <= c <= 'F' then c as int - 'A' as int + 10
    else -1
  }

  /** The code unit of four hexadecimal digits, or -1. */
  function Hex4(t: string): (n: int)
    ensures -1 <= n < 0x1_0000
    ensures n >= 0 ==> |t| >= 4
  {
    if |t| < 4 || HexValue(t[0]) < 0 || HexValue(t[1]) < 0 || HexValue(t[2]) < 0 || HexValue(t[3]) < 0 then -1
    else 0x1000 * HexValue(t[0]) + 0x100 * HexValue(t[1]) + 0x10 * HexValue(t[2]) + HexValue(t[3])
  }

  /** The text of a `\u` escape, read behind the `u`: one code unit, or a surrogate pair. */
  function UnicodeEscape(t: string): (r: Parsed<string>)
    ensures r.Good? ==> |r.rest| < |t|
  {
    var u := Hex4(t);
    if u < 0 then Bad
    else if Scalar(u) then Good(Encode(u), t[4..])
    else if u < 0xDC00 && |t| >= 10 && t[4] == '\\' && t[5] == 'u' && 0xDC00 <= Hex4(t[6..]) < 0xE000 then
      Good(Encode(0x1_0000 + (u - 0xD800) * 0x400 + (Hex4(t[6..]) - 0xDC00)), t[10..])
    else Bad
  }

  /** One character of a string, escaped or not: quotes and control characters must be escaped,
      and the rest must be well-formed UTF-8. */
  function ReadChar(t: string): (r: Parsed<string>)
    requires |t| > 0
    ensures r.Good? ==> |r.rest| < |t|
  {
    if t[0] == '"' || t[0] as int < 0x20 then Bad
    else if t[0] == '\\' then
      if |t| < 2 then Bad
      else match t[1]
        case '"' => Good("\"", t[2..])
        case '\\' => Good("\\", t[2..])
        case '/' => Good("/", t[2..])
        case 'b' => Good("\U{08}", t[2..])
        case 'f' => Good("\U{0C}", t[2..])
        case 'n' => Good("\n", t[2..])
        case 'r' => Good("\r", t[2..])
        case 't' => Good("\t", t[2..])
        case 'u' => UnicodeEscape(t[2..])
        case _ => Bad
    else if t[0] as int < 0x80 then Good([t[0]], t[1..])
    else if ValidLen(t) == 0 then Bad
    else Good(t[..ValidLen(t)], t[ValidLen(t)..])
  }

  /** A string up to its closing quote, read behind the opening one. */
  function ReadString(t: string): (r: Parsed<string>)
    ensures r.Good? ==> |r.rest| < |t|
    decreases |t|
  {
    if |t| == 0 then Bad
    else if t[0] == '"' then Good("", t[1..])
    else
      var c := ReadChar(t);
      if c.Bad? then Bad
      else
        var r := ReadString(c.rest);
        if r.Bad? then Bad else Good(c.value + r.value, r.rest)
  }

  // ----- the reader recovers what was printed --------------------------------------------

  lemma HexPair(n: int, rest: string)
    requires 0 <= n < 0x20
    ensures Hex4(['0', '0', HexDigit(n / 16), HexDigit(n % 16)] + rest) == n
  {
  }

  lemma ReadAscii(c: char, rest: string)
    requires c as int < 0x80
    ensures ReadChar(EscapeAscii(c) + rest) == Good([c], rest)
    ensures (EscapeAscii(c) + rest)[0] != '"'
  {
    var t := EscapeAscii(c) + rest;
    if c == '\\' || c == '"' || c == '\n' || c == '\r' || c == '\t' {
      assert t[2..] == rest;
    } else if c as int < 0x20 {
      var hex := ['0', '0', HexDigit(c as int / 16), HexDigit(c as int % 16)];
      assert t[2..] == hex + rest;
      HexPair(c as int, rest);
      assert (hex + rest)[4..] == rest;
      assert Encode(c as int) == [c];
    } else {
      assert t[1..] == rest;
    }
  }

  lemma ReadEncoded(v: ScalarValue, rest: string)
    requires v >= 0x80
    ensures ReadChar(Encode(v) + rest) == Good(Encode(v), rest)
    ensures (Encode(v) + rest)[0] != '"'
  {
    var t := Encode(v) + rest;
    EncodedIsRecognised(v, rest);
    assert t[..|Encode(v)|] == Encode(v) && t[|Encode(v)|..] == rest;
  }

  /** For every text and every suffix the reader stops exactly at the closing quote and has
      read the sanitised text. */
  lemma {:induction false} StringRoundTrip(s: string, rest: string)
    ensures ReadString(Escape(s) + ("\"" + rest)) == Good(Sanitise(s), rest)
    decreases |s|
  {
    var end := "\"" + rest;
    if |s| == 0 {
      assert Escape(s) + end == end && end[1..] == rest;
    } else {
      var piece, tail := Piece(s).0, s[Piece(s).1..];
      EscapeStep(s);
      Assoc(piece, Escape(tail), end);
      StringRoundTrip(tail, rest);
      if s[0] as int < 0x80 {
        ReadAscii(s[0], Escape(tail) + end);
      } else if ValidLen(s) == 0 {
        ReadEncoded(REPLACEMENT, Escape(tail) + end);
      } else {
        RecognisedIsEncoded(s);
        EncodedBeyondAscii(s);
        ReadEncoded(Decode(s), Escape(tail) + end);
      }
    }
  }

  lemma EncodedBeyondAscii(s: string)
    requires ValidLen(s) > 0
    ensures Decode(s) >= 0x80
  {
    RecognisedIsEncoded(s);
    assert s[..ValidLen(s)][0] == s[0];
  }

  // ----- plain text ----------------------------------------------------------------------

  /** Printable ASCII without quote and backslash. */
  ghost predicate Plain(s: string) {
    forall i :: 0 <= i < |s| ==> 0x20 <= s[i] as int < 0x80 && s[i] != '"' && s[i] != '\\'
  }

  lemma {:induction false} PlainUnchanged(s: string)
    requires Plain(s)
    ensures Escape(s) == s && Sanitise(s) == s
  {
    if |s| > 0 {
      PlainUnchanged(s[1..]);
      assert s == [s[0]] + s[1..];
    }
  }
}
