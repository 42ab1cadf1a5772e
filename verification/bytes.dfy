/**
 * Machine-level vocabulary shared by the daemons: bytes, 16- and 32-bit
 * unsigned integers with explicit wrap-around, big-endian (network order)
 * encoding, the host's ntohl/htonl, and the decimal and hexadecimal text
 * forms the programs print and parse.
 */
module Bytes {

  type byte = b: int | 0 <= b < 256
  type u16 = x: int | 0 <= x < 0x1_0000
  type u32 = x: int | 0 <= x < 0x1_0000_0000

  const TWO32: int := 0x1_0000_0000

  /** C++ unsigned 32-bit arithmetic: the mathematical value reduced modulo 2^32. */
  function Wrap32(x: int): (r: u32)
    ensures 0 <= x < TWO32 ==> r == x
    ensures (r - x) % TWO32 == 0
  {
    x % TWO32
  }

  /**
   * `now - t` for a time_t `now` and a uint32_t `t`. On an LP64 host the
   * uint32_t is promoted to the 64-bit signed time_t and the difference is
   * the mathematical one; on an ILP32 host time_t is a 32-bit long, so the
   * usual arithmetic conversions make the difference unsigned 32-bit.
   */
  function TimeMinus(lp64: bool, now: int, t: u32): (d: int)
    ensures lp64 ==> d == now - t
    ensures !lp64 ==> 0 <= d < TWO32 && (d - (now - t)) % TWO32 == 0
    ensures t <= now < t + TWO32 ==> d == now - t
  {
    if lp64 then now - t else Wrap32(now - t)
  }

  /** On ILP32 a time earlier than the stamp reads as a difference of almost 2^32 seconds. */
  lemma TimeMinusBackwards(now: int, t: u32)
    requires t - TWO32 < now < t
    ensures TimeMinus(false, now, t) == now - t + TWO32
    ensures TimeMinus(true, now, t) < 0
  {
  }

  const TWO31: int := 0x8000_0000

  /**
   * A uint32_t copied into a time_t. On LP64 the value is kept; on ILP32
   * time_t is a 32-bit signed long, and values of 2^31 and more turn
   * negative (two's complement, as the supported compilers convert).
   */
  function TimeOfU32(lp64: bool, t: u32): (r: int)
    ensures Wrap32(r) == t
    ensures lp64 || t < TWO31 ==> r == t
    ensures !lp64 ==> -TWO31 <= r < TWO31
    ensures r < 0 <==> !lp64 && t >= TWO31
  {
    if lp64 || t < TWO31 then t else t - TWO32
  }

  /** Network-order (big-endian) image of a 32-bit value, as htonl lays it out in memory. */
  function BE32(x: u32): (b: seq<byte>)
    ensures |b| == 4
  {
    var x1 := x / 256;
    var x2 := x1 / 256;
    [x2 / 256, x2 % 256, x1 % 256, x % 256]
  }

  function FromBE32(b: seq<byte>): (x: u32)
    requires |b| == 4
  {
    ((b[0] as int * 256 + b[1]) * 256 + b[2]) * 256 + b[3]
  }

  lemma BE32RoundTrip(x: u32)
    ensures FromBE32(BE32(x)) == x
  {
  }

  lemma FromBE32RoundTrip(b: seq<byte>)
    requires |b| == 4
    ensures BE32(FromBE32(b)) == b
  {
    var x := FromBE32(b);
    var x1 := (b[0] as int * 256 + b[1]) * 256 + b[2];
    assert x / 256 == x1 && x % 256 == b[3];
    assert x1 / 256 == b[0] as int * 256 + b[1] && x1 % 256 == b[2];
  }

  /** Equal values have equal images and distinct values distinct images. */
  lemma BE32Injective(x: u32, y: u32)
    ensures BE32(x) == BE32(y) <==> x == y
  {
    if BE32(x) == BE32(y) {
      BE32RoundTrip(x);
      BE32RoundTrip(y);
    }
  }

  /** The value whose big-endian image is the byte-reversal of x's. */
  function ByteSwap32(x: u32): (r: u32)
    ensures BE32(r) == [BE32(x)[3], BE32(x)[2], BE32(x)[1], BE32(x)[0]]
  {
    var b := BE32(x);
    var r := FromBE32([b[3], b[2], b[1], b[0]]);
    FromBE32RoundTrip([b[3], b[2], b[1], b[0]]);
    r
  }

  lemma ByteSwapInvolution(x: u32)
    ensures ByteSwap32(ByteSwap32(x)) == x
  {
    var b := BE32(x);
    var s := ByteSwap32(x);
    assert BE32(ByteSwap32(s)) == b;
    BE32Injective(ByteSwap32(s), x);
  }

  /**
   * ntohl on a host whose byte order is little-endian (le) or big-endian;
   * htonl is the same map.
   */
  function Ntohl(le: bool, x: u32): (r: u32)
    ensures le ==> BE32(r) == [BE32(x)[3], BE32(x)[2], BE32(x)[1], BE32(x)[0]]
    ensures !le ==> r == x
  {
    if le then ByteSwap32(x) else x
  }

  function Htonl(le: bool, x: u32): u32 {
    Ntohl(le, x)
  }

  lemma NtohlHtonl(le: bool, x: u32)
    ensures Ntohl(le, Htonl(le, x)) == x
  {
    if le {
      ByteSwapInvolution(x);
    }
  }

  /** Unsigned lexicographic order on byte strings (memcmp, then length). */
  predicate BytesLess(a: seq<byte>, b: seq<byte>)
    decreases |a|
  {
    if |a| == 0 then |b| > 0
    else if |b| == 0 then false
    else if a[0] != b[0] then a[0] < b[0]
    else BytesLess(a[1..], b[1..])
  }

  lemma {:induction false} BytesLessIrreflexive(a: seq<byte>)
    ensures !BytesLess(a, a)
    decreases |a|
  {
    if |a| > 0 {
      BytesLessIrreflexive(a[1..]);
    }
  }

  lemma {:induction false} BytesLessTrichotomy(a: seq<byte>, b: seq<byte>)
    ensures BytesLess(a, b) || a == b || BytesLess(b, a)
    ensures !(BytesLess(a, b) && BytesLess(b, a))
    decreases |a|
  {
    if |a| > 0 && |b| > 0 && a[0] == b[0] {
      BytesLessTrichotomy(a[1..], b[1..]);
      if a[1..] == b[1..] {
        assert a == [a[0]] + a[1..] && b == [b[0]] + b[1..];
      }
    }
  }

  lemma {:induction false} BytesLessTransitive(a: seq<byte>, b: seq<byte>, c: seq<byte>)
    requires BytesLess(a, b) && BytesLess(b, c)
    ensures BytesLess(a, c)
    decreases |a|
  {
    if |a| > 0 && |b| > 0 && |c| > 0 && a[0] == b[0] && b[0] == c[0] {
      BytesLessTransitive(a[1..], b[1..], c[1..]);
    }
  }

  /** Comparing two concatenations whose fronts have one length: the fronts decide, then the backs. */
  lemma {:induction false} BytesLessAppend(a: seq<byte>, b: seq<byte>, c: seq<byte>, d: seq<byte>)
    requires |a| == |b|
    ensures BytesLess(a + c, b + d) <==> BytesLess(a, b) || (a == b && BytesLess(c, d))
    ensures a + c == b + d <==> a == b && c == d
    decreases |a|
  {
    if |a| > 0 {
      assert (a + c)[0] == a[0] && (b + d)[0] == b[0];
      assert (a + c)[1..] == a[1..] + c && (b + d)[1..] == b[1..] + d;
      BytesLessAppend(a[1..], b[1..], c, d);
      assert a == [a[0]] + a[1..] && b == [b[0]] + b[1..];
      if a + c == b + d {
        assert (a + c)[..|a|] == a && (b + d)[..|b|] == b;
      }
    } else {
      assert a + c == c && b + d == d;
    }
  }

  /** Big-endian value of a byte string of any length. */
  function BEValue(s: seq<byte>): nat {
    if |s| == 0 then 0 else BEValue(s[..|s| - 1]) * 256 + s[|s| - 1]
  }

  lemma {:induction false} BytesLessSnoc(a: seq<byte>, b: seq<byte>, p: byte, q: byte)
    requires |a| == |b|
    ensures BytesLess(a + [p], b + [q]) <==> BytesLess(a, b) || (a == b && p < q)
    decreases |a|
  {
    if |a| > 0 {
      assert (a + [p])[1..] == a[1..] + [p] && (b + [q])[1..] == b[1..] + [q];
      if a[0] == b[0] {
        BytesLessSnoc(a[1..], b[1..], p, q);
        assert a == [a[0]] + a[1..] && b == [b[0]] + b[1..];
      }
    }
  }

  /** On strings of one length, memcmp order is the order of big-endian values. */
  lemma {:induction false} BytesLessIsValueOrder(a: seq<byte>, b: seq<byte>)
    requires |a| == |b|
    ensures BytesLess(a, b) <==> BEValue(a) < BEValue(b)
    ensures a == b <==> BEValue(a) == BEValue(b)
    decreases |a|
  {
    if |a| > 0 {
      var a', b' := a[..|a| - 1], b[..|b| - 1];
      var p, q := a[|a| - 1], b[|b| - 1];
      assert a == a' + [p] && b == b' + [q];
      BytesLessIsValueOrder(a', b');
      BytesLessSnoc(a', b', p, q);
      var va, vb := BEValue(a'), BEValue(b');
      if va < vb {
        assert va * 256 + 256 <= vb * 256;
      } else if vb < va {
        assert vb * 256 + 256 <= va * 256;
      }
    }
  }

  lemma BEValueOfFour(b: seq<byte>)
    requires |b| == 4
    ensures BEValue(b) == FromBE32(b)
  {
    assert b[..3][..2][..1][..0] == [];
    assert BEValue(b[..1]) == b[0];
    assert b[..3][..2] == b[..2] && b[..2][..1] == b[..1];
    assert BEValue(b[..2]) == b[0] as int * 256 + b[1];
    assert BEValue(b[..3]) == (b[0] as int * 256 + b[1]) * 256 + b[2];
  }

  /**
   * The memcmp order of big-endian images is the numeric order: this is why
   * a key holding a network-order timestamp sorts by time.
   */
  lemma BE32OrderIsNumeric(x: u32, y: u32)
    ensures BytesLess(BE32(x), BE32(y)) <==> x < y
  {
    var a, b := BE32(x), BE32(y);
    BE32RoundTrip(x);
    BE32RoundTrip(y);
    BEValueOfFour(a);
    BEValueOfFour(b);
    BytesLessIsValueOrder(a, b);
  }

  // ---------------------------------------------------------------- text

  /** isspace in the "C" locale. */
  predicate IsSpace(c: char) {
    c == ' ' || c == '\t' || c == '\n' || c == '\U{B}' || c == '\U{C}' || c == '\r'
  }

  /** The first index from n on whose character satisfies `stop`, or the end of s. */
  function Scan(s: string, n: nat, stop: char -> bool): (e: nat)
    requires n <= |s|
    ensures n <= e <= |s|
    ensures forall i :: n <= i < e ==> !stop(s[i])
    ensures e < |s| ==> stop(s[e])
    decreases |s| - n
  {
    if n == |s| || stop(s[n]) then n else Scan(s, n + 1, stop)
  }

  /** The three facts above pin the scan down. */
  lemma ScanIs(s: string, n: nat, stop: char -> bool, e: nat)
    requires n <= e <= |s|
    requires forall i :: n <= i < e ==> !stop(s[i])
    requires e < |s| ==> stop(s[e])
    ensures Scan(s, n, stop) == e
  {
    var r := Scan(s, n, stop);
    assert r <= e;
    assert r >= e;
  }

  /** The bytes of a narrow C++ string: each char keeps its low eight bits. */
  function ToBytes(s: string): (b: seq<byte>)
    ensures |b| == |s| && forall i :: 0 <= i < |s| ==> b[i] == s[i] as int % 256
  {
    seq(|s|, i requires 0 <= i < |s| => s[i] as int % 256)
  }

  /** A byte string as narrow chars. */
  function ToChars(b: seq<byte>): (s: string)
    ensures |s| == |b| && forall i :: 0 <= i < |b| ==> s[i] as int == b[i]
  {
    seq(|b|, i requires 0 <= i < |b| => b[i] as char)
  }

  lemma BytesCharsRoundTrip(b: seq<byte>)
    ensures ToBytes(ToChars(b)) == b
  {
  }

  /** Bitwise exclusive or, bit by bit from the least significant. */
  function Xor(a: nat, b: nat): (r: nat)
    decreases a + b
  {
    if a == 0 && b == 0 then 0 else (a + b) % 2 + 2 * Xor(a / 2, b / 2)
  }

  lemma {:induction false} XorBound(a: nat, b: nat, n: nat)
    requires a < Pow2(n) && b < Pow2(n)
    ensures Xor(a, b) < Pow2(n)
    decreases a + b
  {
    if !(a == 0 && b == 0) {
      XorBound(a / 2, b / 2, n - 1);
    }
  }

  function Pow2(n: nat): (p: nat)
    ensures p >= 1
  {
    if n == 0 then 1 else 2 * Pow2(n - 1)
  }

  /** The lowest bit of an exclusive or, and the rest. */
  lemma XorSplit(a: nat, b: nat)
    ensures Xor(a, b) % 2 == (a + b) % 2
    ensures Xor(a, b) / 2 == Xor(a / 2, b / 2)
  {
    if !(a == 0 && b == 0) {
      DivUnique(Xor(a, b), 2, Xor(a / 2, b / 2), (a + b) % 2);
    }
  }

  /** The parity of a sum: odd exactly when the parities differ. */
  lemma ParitySum(a: nat, b: nat)
    ensures (a + b) % 2 == if a % 2 == b % 2 then 0 else 1
  {
    var pa, pb := a % 2, b % 2;
    DivUnique(a, 2, a / 2, pa);
    DivUnique(b, 2, b / 2, pb);
    if pa + pb < 2 {
      DivUnique(a + b, 2, a / 2 + b / 2, pa + pb);
    } else {
      DivUnique(a + b, 2, a / 2 + b / 2 + 1, 0);
    }
  }

  lemma {:induction false} XorCancel(a: nat, k: nat)
    ensures Xor(Xor(a, k), k) == a
    decreases a + k
  {
    if !(a == 0 && k == 0) {
      XorCancel(a / 2, k / 2);
      var x := Xor(a, k);
      XorSplit(a, k);
      XorSplit(x, k);
      ParitySum(a, k);
      ParitySum(x, k);
      var r := Xor(x, k);
      assert r / 2 == a / 2;
      assert r % 2 == a % 2;
      DivUnique(r, 2, r / 2, r % 2);
      DivUnique(a, 2, a / 2, a % 2);
    }
  }

  /** Bitwise inclusive or, bit by bit from the least significant. */
  function Or(a: nat, b: nat): (r: nat)
    decreases a + b
  {
    if a == 0 && b == 0 then 0 else (if a % 2 == 1 || b % 2 == 1 then 1 else 0) + 2 * Or(a / 2, b / 2)
  }

  lemma {:induction false} OrZero(a: nat)
    ensures Or(a, 0) == a
    decreases a
  {
    if a != 0 {
      OrZero(a / 2);
    }
  }

  lemma OrHalf(x: nat, c: nat)
    ensures Or(x, c) / 2 == Or(x / 2, c / 2)
  {
  }

  /** Or-ing in a value below 2^k leaves the bits from k upwards alone. */
  lemma {:induction false} OrHigh(x: nat, c: nat, k: nat)
    requires c < Pow2(k)
    ensures Or(x, c) / Pow2(k) == x / Pow2(k)
    decreases k
  {
    if k == 0 {
      OrZero(x);
    } else {
      var p := Pow2(k - 1);
      OrHalf(x, c);
      OrHigh(x / 2, c / 2, k - 1);
      DivDiv2(Or(x, c), p);
      DivDiv2(x, p);
    }
  }

  lemma DivDiv2(a: nat, q: nat)
    requires q > 0
    ensures a / 2 / q == a / (2 * q)
  {
    var h := a / 2;
    var x := h / q;
    var r := h % q;
    assert a == 2 * h + a % 2;
    assert h == q * x + r;
    assert a == (2 * q) * x + (2 * r + a % 2);
    DivUnique(a, 2 * q, x, 2 * r + a % 2);
  }

  lemma MulMono(a: nat, b: nat, c: nat)
    requires a <= b
    ensures a * c <= b * c
  {
  }

  lemma DivUnique(a: nat, d: nat, q: nat, r: nat)
    requires d > 0 && a == q * d + r && r < d
    ensures a / d == q && a % d == r
  {
    var q' := a / d;
    var r' := a % d;
    assert a == q' * d + r';
    if q' < q {
      assert q' * d + d <= q * d by { MulMono(q' + 1, q, d); }
    } else if q' > q {
      assert q * d + d <= q' * d by { MulMono(q + 1, q', d); }
    }
  }

  /** Or-ing a value below 2^k into a multiple of 2^k adds it. */
  lemma {:induction false} OrDisjoint(a: nat, b: nat, k: nat)
    requires b < Pow2(k)
    ensures Or(a * Pow2(k), b) == a * Pow2(k) + b
    decreases k
  {
    if k == 0 {
      OrZero(a);
    } else {
      var p := Pow2(k - 1);
      assert Pow2(k) == 2 * p;
      assert a * Pow2(k) == 2 * (a * p);
      OrDisjoint(a, b / 2, k - 1);
      if a * Pow2(k) + b != 0 {
        assert (a * Pow2(k)) / 2 == a * p;
        assert (a * Pow2(k)) % 2 == 0;
      }
    }
  }

  /** The powers of two the byte and word formats use. */
  lemma Pow2Table()
    ensures Pow2(6) == 64 && Pow2(8) == 256 && Pow2(12) == 4096
    ensures Pow2(16) == 65536 && Pow2(18) == 262144 && Pow2(32) == TWO32
  {
    assert Pow2(4) == 16;
    assert Pow2(8) == 256;
    assert Pow2(12) == 4096;
    assert Pow2(16) == 65536;
    assert Pow2(18) == 262144;
    assert Pow2(24) == 0x100_0000;
    assert Pow2(32) == TWO32;
  }

  /** Bitwise exclusive or of two 32-bit words. */
  function Xor32(a: u32, b: u32): (r: u32)
  {
    Pow2Table();
    XorBound(a, b, 32);
    Xor(a, b)
  }

  /** Bitwise exclusive or of two bytes. */
  function Xor8(a: byte, b: byte): (r: byte)
  {
    assert Pow2(8) == 256;
    XorBound(a, b, 8);
    Xor(a, b)
  }

  lemma Xor8Cancel(a: byte, k: byte)
    ensures Xor8(Xor8(a, k), k) == a
  {
    XorCancel(a, k);
  }

  predicate IsDigit(c: char) {
    '0' <= c <= '9'
  }

  function DigitValue(c: char): (v: nat)
    requires IsDigit(c)
    ensures v < 10
  {
    c as int - '0' as int
  }

  function DigitChar(v: nat): (c: char)
    requires v < 10
    ensures IsDigit(c) && DigitValue(c) == v
  {
    ('0' as int + v) as char
  }

  predicate AllDigits(s: string) {
    forall i :: 0 <= i < |s| ==> IsDigit(s[i])
  }

  /** Value of a run of decimal digits, most significant first. */
  function DigitsValue(s: string): (v: nat)
    requires AllDigits(s)
  {
    if |s| == 0 then 0 else DigitsValue(s[..|s| - 1]) * 10 + DigitValue(s[|s| - 1])
  }

  /** The decimal text lexical_cast writes for a non-negative integer. */
  function Decimal(n: nat): (s: string)
    ensures |s| > 0 && AllDigits(s)
    ensures |s| > 1 ==> s[0] != '0'
    decreases n
  {
    if n < 10 then [DigitChar(n)] else Decimal(n / 10) + [DigitChar(n % 10)]
  }

  lemma {:induction false} DecimalValue(n: nat)
    ensures DigitsValue(Decimal(n)) == n
    decreases n
  {
    if n >= 10 {
      DecimalValue(n / 10);
      var s := Decimal(n);
      assert s[..|s| - 1] == Decimal(n / 10);
    }
  }

  /** Decimal text of values below 10^k has at most k digits. */
  lemma {:induction false} DecimalLength(n: nat, k: nat, bound: nat)
    requires bound == Pow10(k) && n < bound
    ensures |Decimal(n)| <= k || (k == 0 && |Decimal(n)| == 1)
    decreases k
  {
    if k > 0 && n >= 10 {
      DecimalLength(n / 10, k - 1, Pow10(k - 1));
    }
  }

  /** Values in [10^(k-1), 10^k) are written with exactly k digits. */
  lemma {:induction false} DecimalLengthExact(n: nat, k: nat)
    requires k >= 1 && Pow10(k - 1) <= n < Pow10(k)
    ensures |Decimal(n)| == k
    decreases k
  {
    if k > 1 {
      DecimalLengthExact(n / 10, k - 1);
    }
  }

  function Pow10(k: nat): (p: nat)
    ensures p >= 1
  {
    if k == 0 then 1 else 10 * Pow10(k - 1)
  }

  /** Lowercase hexadecimal digit for a nibble. */
  function HexChar(v: nat): (c: char)
    requires v < 16
    ensures IsHexDigit(c) && HexValue(c) == v
    ensures !('A' <= c <= 'F')
  {
    if v < 10 then DigitChar(v) else ('a' as int + (v - 10)) as char
  }

  /** isxdigit */
  predicate IsHexDigit(c: char) {
    '0' <= c <= '9' || 'a' <= c <= 'f' || 'A' <= c <= 'F'
  }

  function HexValue(c: char): (v: nat)
    requires IsHexDigit(c)
    ensures v < 16
  {
    if '0' <= c <= '9' then c as int - '0' as int
    else if 'a' <= c <= 'f' then c as int - 'a' as int + 10
    else c as int - 'A' as int + 10
  }

  /** Two lowercase hex digits, zero padded, as `std::hex << setw(2) << setfill('0')` prints a byte. */
  function HexByte(b: byte): (s: string)
    ensures |s| == 2 && IsHexDigit(s[0]) && IsHexDigit(s[1])
    ensures HexValue(s[0]) * 16 + HexValue(s[1]) == b
  {
    [HexChar(b / 16), HexChar(b % 16)]
  }

  function HexString(bs: seq<byte>): (s: string)
    ensures |s| == 2 * |bs|
    ensures forall i :: 0 <= i < |bs| ==> s[2 * i] == HexByte(bs[i])[0] && s[2 * i + 1] == HexByte(bs[i])[1]
    ensures forall j :: 0 <= j < |s| ==> IsHexDigit(s[j]) && !('A' <= s[j] <= 'F')
  {
    if |bs| == 0 then "" else HexByte(bs[0]) + HexString(bs[1..])
  }
}
