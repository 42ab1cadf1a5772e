/**
 * 20-byte signatures (SHA-1 digests), their 40-character hexadecimal form,
 * and the FNV-style hash function the primary database is configured with.
 */
module Hashes {
  import opened Bytes
  import opened Wrappers

  const SIGNATURE_SIZE: nat := 20
  const HEX_SIZE: nat := 40

  type Signature = s: seq<byte> | |s| == SIGNATURE_SIZE witness seq(20, _ => 0)

  /** hash::hash(): twenty zero bytes. */
  const ZeroSignature: Signature := seq(20, _ => 0)

  /** hash::hash(uint8_t[20]): a copy of the array. */
  function FromArray(data: seq<byte>): (h: Signature)
    requires |data| == SIGNATURE_SIZE
    ensures h == data
  {
    data
  }

  // -------------------------------------------------------------- strtol

  /** Length of the longest prefix of hexadecimal digits. */
  function HexRun(s: string): (n: nat)
    ensures n <= |s|
    ensures forall i :: 0 <= i < n ==> IsHexDigit(s[i])
    ensures n < |s| ==> !IsHexDigit(s[n])
  {
    if |s| == 0 || !IsHexDigit(s[0]) then 0 else 1 + HexRun(s[1..])
  }

  function HexDigitsValue(s: string): (v: nat)
    requires forall i :: 0 <= i < |s| ==> IsHexDigit(s[i])
  {
    if |s| == 0 then 0 else HexDigitsValue(s[..|s| - 1]) * 16 + HexValue(s[|s| - 1])
  }

  /**
   * strtol(s, NULL, 16) for the two-character strings decode_signature and
   * the hash constructor build: leading white space is skipped, an optional
   * sign is honoured, and the longest run of hex digits is converted; with
   * no digits the result is 0. (A "0x" prefix needs a third character to
   * matter, so it cannot arise here.)
   */
  function Strtol16(s: string): int
    requires |s| <= 2
  {
    var t := if |s| > 0 && IsSpace(s[0]) then (if |s| > 1 && IsSpace(s[1]) then "" else s[1..]) else s;
    var negative := |t| > 0 && t[0] == '-';
    var u := if |t| > 0 && (t[0] == '-' || t[0] == '+') then t[1..] else t;
    var v: int := HexDigitsValue(u[..HexRun(u)]);
    if negative then -v else v
  }

  lemma Strtol16OfHexPair(c0: char, c1: char)
    requires IsHexDigit(c0) && IsHexDigit(c1)
    ensures Strtol16([c0, c1]) == HexValue(c0) * 16 + HexValue(c1)
  {
    var s := [c0, c1];
    assert !IsSpace(c0) && c0 != '-' && c0 != '+';
    assert HexRun(s[1..]) == 1;
    assert s[..HexRun(s)] == s;
    assert s[..1] == [c0] && [c0][..0] == [];
    assert HexDigitsValue([c0]) == HexValue(c0);
  }

  /** The conversion's result stored into an unsigned char. */
  function PairByte(c0: char, c1: char): (b: byte)
    ensures IsHexDigit(c0) && IsHexDigit(c1) ==> b == HexValue(c0) * 16 + HexValue(c1)
  {
    if IsHexDigit(c0) && IsHexDigit(c1) then
      Strtol16OfHexPair(c0, c1);
      Strtol16([c0, c1]) % 256
    else
      Strtol16([c0, c1]) % 256
  }

  /** The twenty bytes decode_signature writes for a 40-character string. */
  function DecodePairs(hex: string): (data: Signature)
    requires |hex| == HEX_SIZE
    ensures forall i :: 0 <= i < SIGNATURE_SIZE ==> data[i] == PairByte(hex[2 * i], hex[2 * i + 1])
  {
    seq(20, i requires 0 <= i < 20 => PairByte(hex[2 * i], hex[2 * i + 1]))
  }

  /**
   * decode_signature: fails unless the text has exactly 40 characters, and
   * otherwise converts pairs without checking that they are hex digits.
   */
  function DecodeSignature(hex: string): (r: Option<Signature>)
    ensures r.Some? <==> |hex| == HEX_SIZE
    ensures r.Some? ==> forall i :: 0 <= i < SIGNATURE_SIZE ==> r.value[i] == PairByte(hex[2 * i], hex[2 * i + 1])
  {
    if |hex| != HEX_SIZE then None else Some(DecodePairs(hex))
  }

  /**
   * hash::hash(std::string): the same conversion, but a string of the wrong
   * length leaves the bytes as they were (`prior` stands for that
   * uninitialised memory).
   */
  function FromHex(hex: string, prior: Signature): (h: Signature)
    ensures |hex| != HEX_SIZE ==> h == prior
    ensures DecodeSignature(hex).Some? ==> h == DecodeSignature(hex).value
  {
    if |hex| == HEX_SIZE then DecodePairs(hex) else prior
  }

  /** operator<<(ostream, hash): forty lowercase hex digits. */
  function Print(h: Signature): (s: string)
    ensures |s| == HEX_SIZE
    ensures forall i :: 0 <= i < |s| ==> IsHexDigit(s[i]) && !('A' <= s[i] <= 'F')
  {
    HexString(h)
  }

  /** Printing then parsing gives back the signature, by either parser. */
  lemma PrintDecodeRoundTrip(h: Signature, prior: Signature)
    ensures DecodeSignature(Print(h)) == Some(h)
    ensures FromHex(Print(h), prior) == h
  {
    var s := Print(h);
    var d := DecodePairs(s);
    forall i | 0 <= i < SIGNATURE_SIZE
      ensures d[i] == h[i]
    {
      assert s[2 * i] == HexByte(h[i])[0] && s[2 * i + 1] == HexByte(h[i])[1];
      PairByteOfHexByte(h[i]);
    }
    assert d == h;
  }

  lemma PairByteOfHexByte(b: byte)
    ensures PairByte(HexByte(b)[0], HexByte(b)[1]) == b
  {
  }

  lemma HexByteOfPair(c0: char, c1: char)
    requires IsHexDigit(c0) && IsHexDigit(c1)
    ensures HexByte(HexValue(c0) * 16 + HexValue(c1)) == [ToLowerHex(c0), ToLowerHex(c1)]
  {
  }

  function ToLowerHex(c: char): (d: char)
    requires IsHexDigit(c)
  {
    if 'A' <= c <= 'F' then (c as int - 'A' as int + 'a' as int) as char else c
  }

  /** Parsing well-formed hex then printing gives the text back, in lowercase. */
  lemma DecodePrintRoundTrip(hex: string)
    requires |hex| == HEX_SIZE && forall i :: 0 <= i < |hex| ==> IsHexDigit(hex[i])
    ensures var s := Print(DecodeSignature(hex).value);
      forall k :: 0 <= k < SIGNATURE_SIZE ==>
        s[2 * k] == ToLowerHex(hex[2 * k]) && s[2 * k + 1] == ToLowerHex(hex[2 * k + 1])
  {
    var h := DecodeSignature(hex).value;
    var s := Print(h);
    forall k | 0 <= k < SIGNATURE_SIZE
      ensures s[2 * k] == ToLowerHex(hex[2 * k]) && s[2 * k + 1] == ToLowerHex(hex[2 * k + 1])
    {
      var c0, c1 := hex[2 * k], hex[2 * k + 1];
      assert IsHexDigit(c0) && IsHexDigit(c1);
      assert h[k] == PairByte(c0, c1);
      assert h[k] == HexValue(c0) * 16 + HexValue(c1);
      HexByteOfPair(c0, c1);
      assert s[2 * k] == HexByte(h[k])[0] && s[2 * k + 1] == HexByte(h[k])[1];
    }
  }

  // ------------------------------------------------------------ db hash

  /**
   * pyzor_hash_function, stated on the key's bytes: starting from 0, each
   * byte multiplies by the FNV prime modulo 2^32 and is then xor-ed in.
   */
  function PyzorHash(key: seq<byte>): (h: u32)
  {
    if |key| == 0 then 0
    else Xor32(Wrap32(PyzorHash(key[..|key| - 1]) * 16777619), key[|key| - 1])
  }

  /** The byte-walking loop of pyzor_hash_function computes PyzorHash. */
  method PyzorHashLoop(key: seq<byte>) returns (h: u32)
    ensures h == PyzorHash(key)
  {
    h := 0;
    var k := 0;
    while k < |key|
      invariant 0 <= k <= |key|
      invariant h == PyzorHash(key[..k])
    {
      h := Wrap32(h * 16777619);
      h := Xor32(h, key[k]);
      assert key[..k + 1][..k] == key[..k];
      k := k + 1;
    }
    assert key[..k] == key;
  }
}
