/**
 * Base64 as in section 4 of RFC 4648: the string encoder and decoder used
 * for HTTP basic authentication, and the streaming decoder that feeds the
 * license reader. Encoded text is a string of narrow chars; decoded data is
 * a byte sequence.
 */
module Base64 {
  import opened Bytes
  import opened Wrappers

  const PAD: char := '='
  const TWO64: int := 0x1_0000_0000_0000_0000

  /** gBase64EncodeTable: A-Z, a-z, 0-9, '+', '/'. */
  function Symbol(v: nat): (c: char)
    requires v < 64
    ensures c as int < 128 && c != PAD
  {
    if v < 26 then ('A' as int + v) as char
    else if v < 52 then ('a' as int + (v - 26)) as char
    else if v < 62 then ('0' as int + (v - 52)) as char
    else if v == 62 then '+'
    else '/'
  }

  /** gBase64DecodeTable (and the decoder's copy): alphabet index, 254 for '=', 255 otherwise. */
  function TableValue(code: nat): (v: nat)
    ensures v < 64 || v == 254 || v == 255
    ensures v == 254 <==> code == PAD as int
  {
    if 'A' as int <= code <= 'Z' as int then code - 'A' as int
    else if 'a' as int <= code <= 'z' as int then code - 'a' as int + 26
    else if '0' as int <= code <= '9' as int then code - '0' as int + 52
    else if code == '+' as int then 62
    else if code == '/' as int then 63
    else if code == PAD as int then 254
    else 255
  }

  /** The two tables are inverse on the alphabet. */
  lemma TableOfSymbol(v: nat)
    requires v < 64
    ensures TableValue(Symbol(v) as int) == v
  {
  }

  lemma SymbolOfTable(code: nat)
    requires TableValue(code) < 64
    ensures Symbol(TableValue(code)) as int == code
  {
  }

  // ------------------------------------------------------------ encoding

  /** Three bytes as four symbols. */
  function Group(b0: byte, b1: byte, b2: byte): (e: string)
    ensures |e| == 4
  {
    [Symbol(b0 / 4), Symbol((b0 % 4) * 16 + b1 / 16), Symbol((b1 % 16) * 4 + b2 / 64), Symbol(b2 % 64)]
  }

  /** One leftover byte: two symbols and "==". */
  function Tail1(b0: byte): (e: string)
    ensures |e| == 4
  {
    [Symbol(b0 / 4), Symbol((b0 % 4) * 16), PAD, PAD]
  }

  /** Two leftover bytes: three symbols and "=". */
  function Tail2(b0: byte, b1: byte): (e: string)
    ensures |e| == 4
  {
    [Symbol(b0 / 4), Symbol((b0 % 4) * 16 + b1 / 16), Symbol((b1 % 16) * 4), PAD]
  }

  /**
   * Standard base64 of any byte string (Python's standard_b64encode): full
   * groups, then a padded group for one or two leftover bytes.
   */
  function Encode(s: seq<byte>): (e: string)
    ensures |e| == 4 * ((|s| + 2) / 3)
    ensures forall i :: 0 <= i < |e| ==> e[i] as int < 128
    decreases |s|
  {
    if |s| == 0 then []
    else if |s| == 1 then Tail1(s[0])
    else if |s| == 2 then Tail2(s[0], s[1])
    else Group(s[0], s[1], s[2]) + Encode(s[3..])
  }

  /**
   * base64::encode as written: the loop runs while i < length() - 2 in
   * size_t arithmetic, so for inputs of fewer than two bytes the bound wraps
   * to 2^64 - 2 or 2^64 - 1 and the first group reads beyond the string
   * (undefined behaviour, None here). The loop reads three bytes at i; the
   * tail emits one or two leftover bytes with padding.
   */
  function EncodeAsWritten(s: seq<byte>): (r: Option<string>)
    ensures r.None? ==> |s| < 2
    ensures |s| < 2 ==> r.None?
  {
    if |s| >= 2 then EncodeFromDefined(s, 0, (|s| - 2) % TWO64); EncodeFrom(s, 0, (|s| - 2) % TWO64)
    else EncodeFrom(s, 0, (|s| - 2) % TWO64)
  }

  /** With the bound at most |s| - 2, every group the loop starts has its three bytes. */
  lemma {:induction false} EncodeFromDefined(s: seq<byte>, i: nat, bound: nat)
    requires i <= |s| && bound + 2 <= |s|
    ensures EncodeFrom(s, i, bound).Some?
    decreases |s| - i
  {
    if i < bound {
      EncodeFromDefined(s, i + 3, bound);
    }
  }

  function EncodeFrom(s: seq<byte>, i: nat, bound: nat): (r: Option<string>)
    requires i <= |s|
    decreases |s| - i
  {
    if i < bound then
      if i + 2 < |s| then
        var rest :- EncodeFrom(s, i + 3, bound);
        Some(Group(s[i], s[i + 1], s[i + 2]) + rest)
      else None
    else if i < |s| then
      if i == |s| - 1 then Some(Tail1(s[i])) else Some(Tail2(s[i], s[i + 1]))
    else Some([])
  }

  lemma {:induction false} EncodeFromAgrees(s: seq<byte>, i: nat)
    requires |s| >= 2 && i <= |s|
    ensures EncodeFrom(s, i, |s| - 2) == Some(Encode(s[i..]))
    decreases |s| - i
  {
    if i < |s| - 2 {
      EncodeFromAgrees(s, i + 3);
      assert s[i..][3..] == s[i + 3..];
    }
  }

  /** The encoder as written is the standard encoder on inputs of two bytes or more. */
  lemma EncodeAsWrittenAgrees(s: seq<byte>)
    requires 2 <= |s| < TWO64
    ensures EncodeAsWritten(s) == Some(Encode(s))
  {
    assert (|s| - 2) % TWO64 == |s| - 2;
    EncodeFromAgrees(s, 0);
    assert s[0..] == s;
  }

  /**
   * On shorter inputs the encoder as written has no defined result, where
   * standard base64 gives "" and a padded group (as for the credentials
   * ":" of an empty user name and password).
   */
  lemma EncodeAsWrittenUndefinedOnShortInput(s: seq<byte>)
    requires |s| < 2
    ensures EncodeAsWritten(s) == None
    ensures |Encode(s)| == 4 * |s|
  {
  }

  // ------------------------------------------------------------ decoding

  /** The locals of base64::decode: accumulator t, symbol count y, the '=' budget g, and the output. */
  datatype DecodeState = DecodeState(t: nat, y: nat, g: int, out: seq<byte>)

  const DECODE_START := DecodeState(0, 0, 3, [])

  /**
   * One iteration of base64::decode: characters outside the table are
   * skipped; '=' counts as the value 0 and lowers g, which is never reset;
   * every fourth symbol emits one byte, a second if g > 1, a third if g > 2.
   */
  function DecodeStep(st: DecodeState, c: char): (st': DecodeState)
  {
    var v := TableValue(c as int % 256);
    if v == 255 then st
    else
      var g := if v == 254 then st.g - 1 else st.g;
      var t := st.t * 64 + (if v == 254 then 0 else v);
      if st.y + 1 == 4 then
        var out := st.out + [t / 65536 % 256]
                   + (if g > 1 then [t / 256 % 256] else [])
                   + (if g > 2 then [t % 256] else []);
        DecodeState(0, 0, g, out)
      else DecodeState(t, st.y + 1, g, st.out)
  }

  function DecodeRun(st: DecodeState, data: string): (st': DecodeState)
    decreases |data|
  {
    if |data| == 0 then st else DecodeRun(DecodeStep(st, data[0]), data[1..])
  }

  /** base64::decode. */
  function Decode(data: string): (out: seq<byte>)
    ensures |out| <= 3 * (|data| / 4)
  {
    DecodeCount(DECODE_START, data);
    DecodeRun(DECODE_START, data).out
  }

  lemma {:induction false} DecodeCount(st: DecodeState, data: string)
    requires st.y < 4
    ensures |st.out| <= |DecodeRun(st, data).out| <= |st.out| + 3 * ((st.y + |data|) / 4)
    ensures DecodeRun(st, data).y < 4
    decreases |data|
  {
    if |data| > 0 {
      DecodeCount(DecodeStep(st, data[0]), data[1..]);
    }
  }

  lemma {:induction false} DecodeRunAppend(st: DecodeState, a: string, b: string)
    ensures DecodeRun(st, a + b) == DecodeRun(DecodeRun(st, a), b)
    decreases |a|
  {
    if |a| == 0 {
      assert a + b == b;
    } else {
      assert (a + b)[0] == a[0];
      assert (a + b)[1..] == a[1..] + b;
      DecodeRunAppend(DecodeStep(st, a[0]), a[1..], b);
    }
  }

  lemma DecodeRunFour(st: DecodeState, e: string)
    requires |e| == 4
    ensures DecodeRun(st, e)
         == DecodeStep(DecodeStep(DecodeStep(DecodeStep(st, e[0]), e[1]), e[2]), e[3])
  {
    var s1 := DecodeStep(st, e[0]);
    var s2 := DecodeStep(s1, e[1]);
    var s3 := DecodeStep(s2, e[2]);
    var s4 := DecodeStep(s3, e[3]);
    assert e[1..][0] == e[1] && e[1..][1..] == e[2..];
    assert e[2..][0] == e[2] && e[2..][1..] == e[3..];
    assert e[3..][0] == e[3] && e[3..][1..] == [];
    assert DecodeRun(s4, []) == s4;
    assert DecodeRun(s3, e[3..]) == s4;
    assert DecodeRun(s2, e[2..]) == s4;
    assert DecodeRun(s1, e[1..]) == s4;
  }

  /** The symbol values of the group b0 b1 b2, most significant first. */
  function Sextets(b0: byte, b1: byte, b2: byte): (c: (nat, nat, nat, nat))
    ensures c.0 < 64 && c.1 < 64 && c.2 < 64 && c.3 < 64
  {
    (b0 / 4, (b0 % 4) * 16 + b1 / 16, (b1 % 16) * 4 + b2 / 64, b2 % 64)
  }

  /** The 24-bit value the four sextets of b0 b1 b2 spell, and its three bytes. */
  lemma GroupArith(b0: byte, b1: byte, b2: byte)
    ensures var c := Sextets(b0, b1, b2);
      var t := ((c.0 * 64 + c.1) * 64 + c.2) * 64 + c.3;
      t == b0 * 65536 + b1 * 256 + b2
      && t / 65536 % 256 == b0 && t / 256 % 256 == b1 && t % 256 == b2
  {
    var c := Sextets(b0, b1, b2);
    var q0, r0 := b0 / 4, b0 % 4;
    var q1, r1 := b1 / 16, b1 % 16;
    var q2, r2 := b2 / 64, b2 % 64;
    assert b0 == 4 * q0 + r0 && b1 == 16 * q1 + r1 && b2 == 64 * q2 + r2;
    var t := ((c.0 * 64 + c.1) * 64 + c.2) * 64 + c.3;
    assert t == b0 * 65536 + b1 * 256 + b2;
    DivUnique(t, 65536, b0, b1 * 256 + b2);
    DivUnique(t, 256, b0 * 256 + b1, b2);
    DivUnique(b0 * 256 + b1, 256, b0, b1);
  }

  /** The table value the decoder reads for an alphabet symbol. */
  lemma ValueOfSymbol(v: nat)
    requires v < 64
    ensures TableValue(Symbol(v) as int % 256) == v
  {
    TableOfSymbol(v);
  }

  /**
   * Four table symbols (or '=', counted in pads) from a group boundary:
   * no output until the fourth, and the budget drops once per '='.
   */
  lemma DecodeQuad(st: DecodeState, e: string, v0: nat, v1: nat, v2: nat, v3: nat, g: int)
    requires st.t == 0 && st.y == 0 && |e| == 4
    requires v0 < 64 && v1 < 64 && TableValue(e[0] as int % 256) == v0 && TableValue(e[1] as int % 256) == v1
    requires v2 < 64 <==> e[2] != PAD
    requires v2 < 64 ==> TableValue(e[2] as int % 256) == v2
    requires v2 >= 64 ==> v2 == 254 && e[3] == PAD
    requires v3 < 64 <==> e[3] != PAD
    requires v3 < 64 ==> TableValue(e[3] as int % 256) == v3
    requires g == st.g - (if e[2] == PAD then 1 else 0) - (if e[3] == PAD then 1 else 0)
    ensures var t := ((v0 * 64 + v1) * 64 + (if v2 < 64 then v2 else 0)) * 64 + (if v3 < 64 then v3 else 0);
      DecodeRun(st, e) == DecodeState(0, 0, g, st.out + [t / 65536 % 256]
                   + (if g > 1 then [t / 256 % 256] else [])
                   + (if g > 2 then [t % 256] else []))
  {
    assert TableValue(PAD as int % 256) == 254;
    DecodeRunFour(st, e);
    var g2 := if e[2] == PAD then st.g - 1 else st.g;
    var w2 := if v2 < 64 then v2 else 0;
    var s1 := DecodeState(v0, 1, st.g, st.out);
    assert DecodeStep(st, e[0]) == s1;
    var s2 := DecodeState(v0 * 64 + v1, 2, st.g, st.out);
    assert DecodeStep(s1, e[1]) == s2;
    var s3 := DecodeState((v0 * 64 + v1) * 64 + w2, 3, g2, st.out);
    assert DecodeStep(s2, e[2]) == s3;
  }

  lemma DecodeGroup(o: seq<byte>, b0: byte, b1: byte, b2: byte)
    ensures DecodeRun(DecodeState(0, 0, 3, o), Group(b0, b1, b2)) == DecodeState(0, 0, 3, o + [b0, b1, b2])
  {
    var c := Sextets(b0, b1, b2);
    ValueOfSymbol(c.0);
    ValueOfSymbol(c.1);
    ValueOfSymbol(c.2);
    ValueOfSymbol(c.3);
    DecodeQuad(DecodeState(0, 0, 3, o), Group(b0, b1, b2), c.0, c.1, c.2, c.3, 3);
    GroupArith(b0, b1, b2);
  }

  lemma DecodeTail1(o: seq<byte>, b0: byte)
    ensures DecodeRun(DecodeState(0, 0, 3, o), Tail1(b0)) == DecodeState(0, 0, 1, o + [b0])
  {
    var c := Sextets(b0, 0, 0);
    ValueOfSymbol(c.0);
    ValueOfSymbol(c.1);
    DecodeQuad(DecodeState(0, 0, 3, o), Tail1(b0), c.0, c.1, 254, 254, 1);
    GroupArith(b0, 0, 0);
  }

  lemma DecodeTail2(o: seq<byte>, b0: byte, b1: byte)
    ensures DecodeRun(DecodeState(0, 0, 3, o), Tail2(b0, b1)) == DecodeState(0, 0, 2, o + [b0, b1])
  {
    var c := Sextets(b0, b1, 0);
    ValueOfSymbol(c.0);
    ValueOfSymbol(c.1);
    ValueOfSymbol(c.2);
    DecodeQuad(DecodeState(0, 0, 3, o), Tail2(b0, b1), c.0, c.1, c.2, 254, 2);
    GroupArith(b0, b1, 0);
  }

  /** The '=' budget left after decoding an encoding of n bytes. */
  function FinalBudget(n: nat): int {
    if n == 0 then 3 else if n == 1 then 1 else if n == 2 then 2 else FinalBudget(n - 3)
  }

  lemma DecodeRunEncodeTail1(o: seq<byte>, b0: byte)
    ensures DecodeRun(DecodeState(0, 0, 3, o), Encode([b0])) == DecodeState(0, 0, FinalBudget(1), o + [b0])
  {
    assert Encode([b0]) == Tail1(b0);
    DecodeTail1(o, b0);
  }

  lemma DecodeRunEncodeTail2(o: seq<byte>, b0: byte, b1: byte)
    ensures DecodeRun(DecodeState(0, 0, 3, o), Encode([b0, b1])) == DecodeState(0, 0, FinalBudget(2), o + [b0, b1])
  {
    assert Encode([b0, b1]) == Tail2(b0, b1);
    DecodeTail2(o, b0, b1);
  }

  lemma {:induction false} DecodeRunEncode(o: seq<byte>, s: seq<byte>)
    ensures DecodeRun(DecodeState(0, 0, 3, o), Encode(s)) == DecodeState(0, 0, FinalBudget(|s|), o + s)
    decreases |s|
  {
    var st := DecodeState(0, 0, 3, o);
    if |s| == 0 {
      assert o + s == o;
    } else if |s| == 1 {
      DecodeRunEncodeTail1(o, s[0]);
      assert [s[0]] == s;
    } else if |s| == 2 {
      DecodeRunEncodeTail2(o, s[0], s[1]);
      assert [s[0], s[1]] == s;
    } else {
      DecodeRunEncode(o + [s[0], s[1], s[2]], s[3..]);
      DecodeRunEncodeGroup(o, s);
    }
  }

  /** A full leading group is decoded first, then the encoding of the rest. */
  lemma DecodeRunEncodeGroup(o: seq<byte>, s: seq<byte>)
    requires |s| >= 3
    requires DecodeRun(DecodeState(0, 0, 3, o + [s[0], s[1], s[2]]), Encode(s[3..]))
      == DecodeState(0, 0, FinalBudget(|s| - 3), o + [s[0], s[1], s[2]] + s[3..])
    ensures DecodeRun(DecodeState(0, 0, 3, o), Encode(s)) == DecodeState(0, 0, FinalBudget(|s|), o + s)
  {
    var g := Group(s[0], s[1], s[2]);
    var rest := Encode(s[3..]);
    assert Encode(s) == g + rest;
    DecodeRunAppend(DecodeState(0, 0, 3, o), g, rest);
    DecodeGroup(o, s[0], s[1], s[2]);
    assert FinalBudget(|s| - 3) == FinalBudget(|s|);
    AppendFirstThree(o, s);
  }

  lemma AppendFirstThree(o: seq<byte>, s: seq<byte>)
    requires |s| >= 3
    ensures o + [s[0], s[1], s[2]] + s[3..] == o + s
  {
    assert [s[0], s[1], s[2]] + s[3..] == s;
    assert o + [s[0], s[1], s[2]] + s[3..] == o + ([s[0], s[1], s[2]] + s[3..]);
  }

  /** base64::decode undoes standard base64 encoding of any byte string. */
  lemma DecodeEncode(s: seq<byte>)
    ensures Decode(Encode(s)) == s
  {
    DecodeRunEncode([], s);
  }

  /** Hence decode(encode(s)) == s for the encoder as written, wherever it is defined. */
  lemma DecodeEncodeAsWritten(s: seq<byte>)
    requires 2 <= |s| < TWO64
    ensures EncodeAsWritten(s).Some? && Decode(EncodeAsWritten(s).value) == s
  {
    EncodeAsWrittenAgrees(s);
    DecodeEncode(s);
  }

  /**
   * Because g is never reset, every group after a padded one loses bytes:
   * a full group following "==" yields one byte instead of three.
   */
  lemma PaddingIsSticky(b0: byte, c0: byte, c1: byte, c2: byte)
    ensures Decode(Tail1(b0) + Group(c0, c1, c2)) == [b0, c0]
  {
    DecodeRunAppend(DECODE_START, Tail1(b0), Group(c0, c1, c2));
    DecodeTail1([], b0);
    var c := Sextets(c0, c1, c2);
    ValueOfSymbol(c.0);
    ValueOfSymbol(c.1);
    ValueOfSymbol(c.2);
    ValueOfSymbol(c.3);
    DecodeQuad(DecodeState(0, 0, 1, [b0]), Group(c0, c1, c2), c.0, c.1, c.2, c.3, 1);
    GroupArith(c0, c1, c2);
    assert DECODE_START == DecodeState(0, 0, 3, []);
    assert DecodeRun(DECODE_START, Tail1(b0)) == DecodeState(0, 0, 1, [b0]);
    assert DecodeRun(DecodeState(0, 0, 1, [b0]), Group(c0, c1, c2)).out == [b0, c0];
  }

  // --------------------------------------------------- streaming decoder

  /**
   * base64_decoder: the characters of an incomplete group carried between
   * calls to read (buffer_ and buffer_index_).
   */
  datatype Decoder = Decoder(buffer: string)

  predicate ValidDecoder(d: Decoder) {
    |d.buffer| < 4
  }

  /**
   * The decoder indexes its table with each char converted to int, so a
   * negative char reads outside the table; only ASCII text is defined.
   */
  predicate Ascii(s: string) {
    forall i :: 0 <= i < |s| ==> s[i] as int < 128
  }

  /** The 32-bit word v: the four table values or-ed in at bit offsets 18, 12, 6 and 0. */
  function Word(v0: nat, v1: nat, v2: nat, v3: nat): nat {
    Or(Or(Or(v0 * 262144, v1 * 4096), v2 * 64), v3)
  }

  /**
   * A complete group: an invalid character keeps its table value (nothing
   * is skipped), and the word's three low bytes are read out: all three,
   * two if the last character is '=', one if the last two are.
   */
  function GroupBytes(c0: char, c1: char, c2: char, c3: char): (out: seq<byte>)
    ensures 1 <= |out| <= 3
  {
    var v := Word(TableValue(c0 as int), TableValue(c1 as int), TableValue(c2 as int), TableValue(c3 as int));
    var n := if c3 == PAD then (if c2 == PAD then 1 else 2) else 3;
    [v / 65536 % 256, v / 256 % 256, v % 256][..n]
  }

  datatype Fed = Fed(out: seq<byte>, decoder: Decoder)

  /** The number of groups completed while feeding chunk to d. */
  ghost function Completed(d: Decoder, chunk: string): nat
    decreases |chunk|
  {
    if |chunk| == 0 then 0
    else if |d.buffer| + 1 == 4 then 1 + Completed(Decoder([]), chunk[1..])
    else Completed(Decoder(d.buffer + [chunk[0]]), chunk[1..])
  }

  /*
   * How characters are buffered does not depend on how a full buffer is
   * turned into bytes, so Feed takes that step as a parameter and its
   * lemmas hold for any of them; the decoder itself uses GroupBytes.
   */

  /** The inner loop of read: each char joins the buffer, and a full buffer is decoded and reset. */
  function Feed(group: (char, char, char, char) -> seq<byte>, d: Decoder, chunk: string): (r: Fed)
    requires ValidDecoder(d)
    ensures ValidDecoder(r.decoder)
    ensures 4 * Completed(d, chunk) + |r.decoder.buffer| == |d.buffer| + |chunk|
    decreases |chunk|
  {
    if |chunk| == 0 then Fed([], d)
    else
      var b := d.buffer + [chunk[0]];
      if |b| == 4 then
        var rest := Feed(group, Decoder([]), chunk[1..]);
        Fed(group(b[0], b[1], b[2], b[3]) + rest.out, rest.decoder)
      else Feed(group, Decoder(b), chunk[1..])
  }

  /** At most three bytes per completed group. */
  lemma {:induction false} FeedBound(d: Decoder, chunk: string)
    requires ValidDecoder(d)
    ensures |Feed(GroupBytes, d, chunk).out| <= 3 * Completed(d, chunk)
    decreases |chunk|
  {
    if |chunk| > 0 {
      var b := d.buffer + [chunk[0]];
      if |b| == 4 {
        FeedBound(Decoder([]), chunk[1..]);
      } else {
        FeedBound(Decoder(b), chunk[1..]);
      }
    }
  }

  datatype ReadResult = BufferTooSmall | EndOfSource | Read(out: seq<byte>, decoder: Decoder)

  /**
   * base64_decoder::read with room for n bytes: fewer than 3 throws; then
   * up to (n / 3) * 4 chars are requested from the source, which returns
   * some (`chunk`) or reports end of input (None), in which case -1 is
   * returned and any partial group stays unconsumed.
   */
  function ReadChunk(d: Decoder, n: int, chunk: Option<string>): (r: ReadResult)
    requires ValidDecoder(d)
    requires n >= 3 && chunk.Some? ==> |chunk.value| <= (n / 3) * 4 && Ascii(chunk.value)
    ensures n < 3 <==> r.BufferTooSmall?
    ensures n >= 3 && chunk.None? <==> r.EndOfSource?
    ensures r.Read? ==> |r.out| <= n && ValidDecoder(r.decoder)
    ensures r.Read? ==> Fed(r.out, r.decoder) == Feed(GroupBytes, d, chunk.value)
  {
    if n < 3 then BufferTooSmall
    else if chunk.None? then EndOfSource
    else
      var f := Feed(GroupBytes, d, chunk.value);
      FeedBound(d, chunk.value);
      var q := n / 3;
      assert 3 * q <= n;
      assert Completed(d, chunk.value) <= q;
      Read(f.out, f.decoder)
  }

  /** Feeding two chunks one after the other is feeding their concatenation: read calls compose. */
  lemma {:induction false} FeedAppend(group: (char, char, char, char) -> seq<byte>, d: Decoder, a: string, b: string)
    requires ValidDecoder(d)
    ensures var fa := Feed(group, d, a); var fb := Feed(group, fa.decoder, b);
      Feed(group, d, a + b) == Fed(fa.out + fb.out, fb.decoder)
    decreases |a|
  {
    if |a| == 0 {
      assert a + b == b;
    } else {
      var ab := a + b;
      assert ab[0] == a[0];
      assert ab[1..] == a[1..] + b;
      var buf := d.buffer + [a[0]];
      if |buf| == 4 {
        var g := group(buf[0], buf[1], buf[2], buf[3]);
        var fa := Feed(group, Decoder([]), a[1..]);
        var fb := Feed(group, fa.decoder, b);
        FeedAppend(group, Decoder([]), a[1..], b);
        assert Feed(group, d, a) == Fed(g + fa.out, fa.decoder);
        assert Feed(group, d, ab) == Fed(g + (fa.out + fb.out), fb.decoder);
        assert g + (fa.out + fb.out) == (g + fa.out) + fb.out;
      } else {
        FeedAppend(group, Decoder(buf), a[1..], b);
        assert Feed(group, d, a) == Feed(group, Decoder(buf), a[1..]);
        assert Feed(group, d, ab) == Feed(group, Decoder(buf), a[1..] + b);
      }
    }
  }

  /** Four characters from an empty buffer make exactly one group. */
  lemma FeedFour(group: (char, char, char, char) -> seq<byte>, e: string)
    requires |e| == 4
    ensures Feed(group, Decoder([]), e) == Fed(group(e[0], e[1], e[2], e[3]), Decoder([]))
  {
    var g := group(e[0], e[1], e[2], e[3]);
    assert e[1..][0] == e[1] && e[1..][1..] == e[2..];
    assert e[2..][0] == e[2] && e[2..][1..] == e[3..];
    assert e[3..][0] == e[3] && e[3..][1..] == [];
    assert [] + [e[0]] == e[..1] && e[..1] + [e[1]] == e[..2];
    assert e[..2] + [e[2]] == e[..3] && e[..3] + [e[3]] == e;
    assert Feed(group, Decoder([]), []) == Fed([], Decoder([]));
    assert Feed(group, Decoder(e[..3]), e[3..]) == Fed(g, Decoder([]));
    assert Feed(group, Decoder(e[..2]), e[2..]) == Fed(g, Decoder([]));
    assert Feed(group, Decoder(e[..1]), e[1..]) == Fed(g, Decoder([]));
  }

  /** Everything the streaming decoder produces from a whole text, however it is split into reads. */
  function StreamDecode(text: string): (out: seq<byte>)
    requires Ascii(text)
    ensures |out| <= 3 * (|text| / 4)
  {
    FeedBound(Decoder([]), text);
    Feed(GroupBytes, Decoder([]), text).out
  }

  /** A valid group: or-ing the sextets at their offsets adds them. */
  lemma WordOfSextets(c0: nat, c1: nat, c2: nat, c3: nat)
    requires c0 < 64 && c1 < 64 && c2 < 64 && c3 < 64
    ensures Word(c0, c1, c2, c3) == ((c0 * 64 + c1) * 64 + c2) * 64 + c3
  {
    Pow2Table();
    var u := c0 * 64 + c1;
    var w := u * 64 + c2;
    OrDisjoint(c0, c1 * 4096, 18);
    assert Or(c0 * 262144, c1 * 4096) == u * 4096;
    OrDisjoint(u, c2 * 64, 12);
    assert Or(u * 4096, c2 * 64) == w * 64;
    OrDisjoint(w, c3, 6);
  }

  /** A final '=' (table value 254) only disturbs the byte that is not read out. */
  lemma WordPadLast(c0: nat, c1: nat, c2: nat)
    ensures Word(c0, c1, c2, 254) / 256 == Word(c0, c1, c2, 0) / 256
    ensures Word(c0, c1, c2, 254) / 65536 == Word(c0, c1, c2, 0) / 65536
  {
    var w := Or(Or(c0 * 262144, c1 * 4096), c2 * 64);
    Pow2Table();
    OrHigh(w, 254, 8);
    OrHigh(w, 254, 16);
    OrZero(w);
  }

  /** Two final '=' only disturb the two bytes that are not read out. */
  lemma WordPadTwo(c0: nat, c1: nat)
    ensures Word(c0, c1, 254, 254) / 65536 == Word(c0, c1, 0, 0) / 65536
  {
    var u := Or(c0 * 262144, c1 * 4096);
    Pow2Table();
    OrHigh(Or(u, 254 * 64), 254, 16);
    OrHigh(u, 254 * 64, 16);
    OrZero(u);
  }

  /** The bytes read out of a valid group's word are the bytes it encodes. */
  lemma GroupWordBytes(b0: byte, b1: byte, b2: byte)
    ensures var c := Sextets(b0, b1, b2); var v := Word(c.0, c.1, c.2, c.3);
      v / 65536 % 256 == b0 && v / 256 % 256 == b1 && v % 256 == b2
  {
    var c := Sextets(b0, b1, b2);
    var t := ((c.0 * 64 + c.1) * 64 + c.2) * 64 + c.3;
    WordOfSextets(c.0, c.1, c.2, c.3);
    assert Word(c.0, c.1, c.2, c.3) == t;
    GroupArith(b0, b1, b2);
  }

  lemma Tail1WordBytes(b0: byte)
    ensures var c := Sextets(b0, 0, 0); Word(c.0, c.1, 254, 254) / 65536 % 256 == b0
  {
    var c := Sextets(b0, 0, 0);
    var w := Word(c.0, c.1, 0, 0);
    WordPadTwo(c.0, c.1);
    WordOfSextets(c.0, c.1, 0, 0);
    GroupArith(b0, 0, 0);
    assert w / 65536 % 256 == b0;
  }

  lemma Tail2WordBytes(b0: byte, b1: byte)
    ensures var c := Sextets(b0, b1, 0); var v := Word(c.0, c.1, c.2, 254);
      v / 65536 % 256 == b0 && v / 256 % 256 == b1
  {
    var c := Sextets(b0, b1, 0);
    var w := Word(c.0, c.1, c.2, 0);
    WordPadLast(c.0, c.1, c.2);
    WordOfSextets(c.0, c.1, c.2, 0);
    GroupArith(b0, b1, 0);
    assert w / 65536 % 256 == b0 && w / 256 % 256 == b1;
  }

  lemma StreamGroup(b0: byte, b1: byte, b2: byte)
    ensures var e := Group(b0, b1, b2); GroupBytes(e[0], e[1], e[2], e[3]) == [b0, b1, b2]
  {
    var c := Sextets(b0, b1, b2);
    var e := Group(b0, b1, b2);
    TableOfSymbol(c.0);
    TableOfSymbol(c.1);
    TableOfSymbol(c.2);
    TableOfSymbol(c.3);
    var v := Word(c.0, c.1, c.2, c.3);
    assert GroupBytes(e[0], e[1], e[2], e[3]) == [v / 65536 % 256, v / 256 % 256, v % 256];
    GroupWordBytes(b0, b1, b2);
  }

  lemma StreamTail1(b0: byte)
    ensures var e := Tail1(b0); GroupBytes(e[0], e[1], e[2], e[3]) == [b0]
  {
    var c := Sextets(b0, 0, 0);
    var e := Tail1(b0);
    TableOfSymbol(c.0);
    TableOfSymbol(c.1);
    var v := Word(c.0, c.1, 254, 254);
    assert GroupBytes(e[0], e[1], e[2], e[3]) == [v / 65536 % 256];
    Tail1WordBytes(b0);
  }

  lemma StreamTail2(b0: byte, b1: byte)
    ensures var e := Tail2(b0, b1); GroupBytes(e[0], e[1], e[2], e[3]) == [b0, b1]
  {
    var c := Sextets(b0, b1, 0);
    var e := Tail2(b0, b1);
    assert e == [Symbol(c.0), Symbol(c.1), Symbol(c.2), PAD];
    GroupBytesPadOne(c.0, c.1, c.2);
    Tail2WordBytes(b0, b1);
  }

  /** A group with one '=' reads out the top two bytes of its word. */
  lemma GroupBytesPadOne(c0: nat, c1: nat, c2: nat)
    requires c0 < 64 && c1 < 64 && c2 < 64
    ensures var v := Word(c0, c1, c2, 254);
      GroupBytes(Symbol(c0), Symbol(c1), Symbol(c2), PAD) == [v / 65536 % 256, v / 256 % 256]
  {
    TableOfSymbol(c0);
    TableOfSymbol(c1);
    TableOfSymbol(c2);
  }

  /** A padded final group decodes to its one or two bytes. */
  lemma FeedEncodeTail1(b0: byte)
    ensures Feed(GroupBytes, Decoder([]), Encode([b0])) == Fed([b0], Decoder([]))
  {
    assert Encode([b0]) == Tail1(b0);
    StreamTail1(b0);
    FeedFour(GroupBytes, Tail1(b0));
  }

  lemma FeedEncodeTail2(b0: byte, b1: byte)
    ensures Feed(GroupBytes, Decoder([]), Encode([b0, b1])) == Fed([b0, b1], Decoder([]))
  {
    assert Encode([b0, b1]) == Tail2(b0, b1);
    StreamTail2(b0, b1);
    FeedFour(GroupBytes, Tail2(b0, b1));
  }

  lemma {:induction false} FeedEncode(s: seq<byte>)
    ensures Feed(GroupBytes, Decoder([]), Encode(s)) == Fed(s, Decoder([]))
    decreases |s|
  {
    if |s| == 1 {
      FeedEncodeTail1(s[0]);
      assert [s[0]] == s;
    } else if |s| == 2 {
      FeedEncodeTail2(s[0], s[1]);
      assert [s[0], s[1]] == s;
    } else if |s| >= 3 {
      var g := Group(s[0], s[1], s[2]);
      var rest := Encode(s[3..]);
      assert Encode(s) == g + rest;
      StreamGroup(s[0], s[1], s[2]);
      FeedEncode(s[3..]);
      FeedFour(GroupBytes, g);
      FeedAppend(GroupBytes, Decoder([]), g, rest);
      assert s[..3] == [s[0], s[1], s[2]];
      assert s[..3] + s[3..] == s;
    }
  }

  /** The streaming decoder recovers any byte string from its standard encoding, with no partial group left. */
  lemma StreamDecodeEncode(s: seq<byte>)
    ensures Ascii(Encode(s)) && StreamDecode(Encode(s)) == s
  {
    FeedEncode(s);
  }
}
