/**
 * ARCFOUR (RC4) as arcfour_filter_impl implements it: the key-scheduling
 * algorithm, the per-byte keystream step, and the symmetric filter that
 * xors the keystream into a byte stream. The source keeps the S-box in a
 * signed char array, but every index and sum is masked with 0xff and the
 * output is a plain xor, so arithmetic on bytes 0..255 is equivalent.
 */
module Arcfour {
  import opened Bytes

  /** The S-box state_: always 256 entries. */
  type SBox = s: seq<byte> | |s| == 256 witness Identity()

  /** state_, x_ and y_. */
  datatype Cipher = Cipher(s: SBox, x: byte, y: byte)

  /** 0, 1, ..., 255: the S-box before the key is mixed in. */
  function Identity(): (s: seq<byte>)
    ensures |s| == 256 && forall i :: 0 <= i < 256 ==> s[i] == i
  {
    seq(256, i requires 0 <= i < 256 => i)
  }

  predicate IsPermutation(s: seq<byte>) {
    multiset(s) == multiset(Identity())
  }

  /** std::swap of two S-box entries. */
  function Swap(s: SBox, i: byte, j: byte): (r: SBox)
  {
    s[i := s[j]][j := s[i]]
  }

  lemma SwapPermutes(s: SBox, i: byte, j: byte)
    ensures multiset(Swap(s, i, j)) == multiset(s)
    ensures Swap(s, i, j)[i] == s[j] && Swap(s, i, j)[j] == s[i]
    ensures forall k :: 0 <= k < 256 && k != i && k != j ==> Swap(s, i, j)[k] == s[k]
  {
  }

  // ------------------------------------------------------- key schedule

  /** Round i of the key schedule: x += key[i mod |key|] + S[i], then swap S[i] and S[x]. */
  function Round(key: seq<byte>, s: SBox, x: byte, i: byte): (r: (SBox, byte))
    requires |key| > 0
  {
    var x': byte := (key[i % |key|] as int + s[i] as int + x as int) % 256;
    (Swap(s, i, x'), x')
  }

  /** The S-box and x after the first n rounds of the key schedule. */
  function KsaPrefix(key: seq<byte>, n: nat): (r: (SBox, byte))
    requires |key| > 0 && n <= 256
    decreases n
  {
    if n == 0 then (Identity(), 0)
    else
      var p := KsaPrefix(key, n - 1);
      Round(key, p.0, p.1, n - 1)
  }

  lemma {:induction false} KsaPermutes(key: seq<byte>, n: nat)
    requires |key| > 0 && n <= 256
    ensures IsPermutation(KsaPrefix(key, n).0)
    decreases n
  {
    if n > 0 {
      var p := KsaPrefix(key, n - 1);
      KsaPermutes(key, n - 1);
      RoundPermutes(key, p.0, p.1, n - 1);
    }
  }

  lemma RoundPermutes(key: seq<byte>, s: SBox, x: byte, i: byte)
    requires |key| > 0 && IsPermutation(s)
    ensures IsPermutation(Round(key, s, x, i).0)
  {
    SwapPermutes(s, i, Round(key, s, x, i).1);
  }

  /** The constructor's result: 256 rounds, then x reset to 0 (y was never moved from 0). */
  function Schedule(key: seq<byte>): (c: Cipher)
    requires |key| > 0
  {
    Cipher(KsaPrefix(key, 256).0, 0, 0)
  }

  /** The key schedule leaves a permutation of 0..255, with both indices at 0. */
  lemma SchedulePermutes(key: seq<byte>)
    requires |key| > 0
    ensures IsPermutation(Schedule(key).s) && Schedule(key).x == 0 && Schedule(key).y == 0
  {
    KsaPermutes(key, 256);
  }

  /**
   * The arcfour_filter_impl constructor, on an array as in the source. The
   * source divides by key.size(), so the key must be non-empty.
   */
  method KeySchedule(key: seq<byte>) returns (c: Cipher)
    requires |key| > 0
    ensures c == Schedule(key)
    ensures IsPermutation(c.s) && c.x == 0 && c.y == 0
  {
    var state := new byte[256];
    var i := 0;
    while i < 256
      invariant 0 <= i <= 256
      invariant forall k :: 0 <= k < i ==> state[k] == k
    {
      state[i] := i;
      i := i + 1;
    }
    assert state[..] == Identity();
    var x: byte := 0;
    i := 0;
    while i < 256
      invariant 0 <= i <= 256
      invariant (state[..], x) == KsaPrefix(key, i)
    {
      ghost var next := Round(key, state[..], x, i);
      x := (key[i % |key|] + state[i] + x) % 256;
      state[i], state[x] := state[x], state[i];
      assert (state[..], x) == next;
      i := i + 1;
    }
    c := Cipher(state[..], 0, 0);
    SchedulePermutes(key);
  }

  /**
   * WikipediaARC4.init, read as the loop it is: rounds i..255 applied to
   * the S-box s with running index x.
   */
  function KsaFrom(key: seq<byte>, s: SBox, x: byte, i: nat): (r: (SBox, byte))
    requires |key| > 0 && i <= 256
    decreases 256 - i
  {
    if i == 256 then (s, x)
    else
      var r := Round(key, s, x, i);
      KsaFrom(key, r.0, r.1, i + 1)
  }

  lemma {:induction false} KsaFromPrefix(key: seq<byte>, i: nat)
    requires |key| > 0 && i <= 256
    ensures KsaFrom(key, KsaPrefix(key, i).0, KsaPrefix(key, i).1, i) == KsaPrefix(key, 256)
    decreases 256 - i
  {
    if i < 256 {
      var p := KsaPrefix(key, i);
      var q := KsaPrefix(key, i + 1);
      assert q == Round(key, p.0, p.1, i);
      KsaFromPrefix(key, i + 1);
    }
  }

  /** The Python key schedule, run from the identity with x = 0, is the C++ one. */
  lemma WikipediaInitAgrees(key: seq<byte>)
    requires |key| > 0
    ensures KsaFrom(key, Identity(), 0, 0).0 == Schedule(key).s
  {
    KsaFromPrefix(key, 0);
  }

  // ---------------------------------------------------------- keystream

  datatype Stepped = Stepped(k: byte, cipher: Cipher)

  /** encrypt without the xor: x += 1, y += S[x], swap, and the keystream byte S[S[x] + S[y]]. */
  function Step(c: Cipher): (r: Stepped)
  {
    var x: byte := (c.x + 1) % 256;
    var y: byte := (c.s[x] as int + c.y as int) % 256;
    var s := Swap(c.s, x, y);
    Stepped(s[(s[x] as int + s[y] as int) % 256], Cipher(s, x, y))
  }

  /** The S-box stays a permutation of 0..255 after every byte. */
  lemma StepPermutes(c: Cipher)
    requires IsPermutation(c.s)
    ensures IsPermutation(Step(c).cipher.s)
  {
    var x: byte := (c.x + 1) % 256;
    var y: byte := (c.s[x] as int + c.y as int) % 256;
    SwapPermutes(c.s, x, y);
  }

  /*
   * The filter's structure does not depend on how the keystream is made,
   * so the functions below take the generator as a parameter and their
   * lemmas hold for every generator; the cipher itself is `Step`.
   */

  /** The generator's state after n bytes, whatever they were. */
  function Advance(gen: Cipher -> Stepped, c: Cipher, n: nat): (c': Cipher)
    decreases n
  {
    if n == 0 then c else Advance(gen, gen(c).cipher, n - 1)
  }

  function Keystream(gen: Cipher -> Stepped, c: Cipher, n: nat): (ks: seq<byte>)
    ensures |ks| == n
    decreases n
  {
    if n == 0 then [] else [gen(c).k] + Keystream(gen, gen(c).cipher, n - 1)
  }

  function XorSeq(a: seq<byte>, b: seq<byte>): (r: seq<byte>)
    requires |a| == |b|
    ensures |r| == |a| && forall i :: 0 <= i < |a| ==> r[i] == Xor8(a[i], b[i])
  {
    seq(|a|, i requires 0 <= i < |a| => Xor8(a[i], b[i]))
  }

  datatype Crypted = Crypted(out: seq<byte>, cipher: Cipher)

  /** encrypt applied to each byte in turn (also WikipediaARC4.crypt). */
  function Crypt(gen: Cipher -> Stepped, c: Cipher, data: seq<byte>): (r: Crypted)
    ensures |r.out| == |data|
    decreases |data|
  {
    if |data| == 0 then Crypted([], c)
    else
      var st := gen(c);
      var rest := Crypt(gen, st.cipher, data[1..]);
      Crypted([Xor8(data[0], st.k)] + rest.out, rest.cipher)
  }

  lemma {:induction false} CryptPermutes(c: Cipher, data: seq<byte>)
    requires IsPermutation(c.s)
    ensures IsPermutation(Crypt(Step, c, data).cipher.s)
    decreases |data|
  {
    if |data| > 0 {
      StepPermutes(c);
      CryptPermutes(Step(c).cipher, data[1..]);
    }
  }

  /** Each output byte is the input byte xor the keystream, and the state moves on by the length only. */
  lemma CryptIsXor(gen: Cipher -> Stepped, c: Cipher, data: seq<byte>)
    ensures Crypt(gen, c, data).out == XorSeq(data, Keystream(gen, c, |data|))
    ensures Crypt(gen, c, data).cipher == Advance(gen, c, |data|)
  {
    CryptOut(gen, c, data);
    CryptAdvances(gen, c, data);
  }

  lemma {:induction false} CryptOut(gen: Cipher -> Stepped, c: Cipher, data: seq<byte>)
    ensures Crypt(gen, c, data).out == XorSeq(data, Keystream(gen, c, |data|))
    decreases |data|
  {
    if |data| > 0 {
      var st := gen(c);
      var rest := Crypt(gen, st.cipher, data[1..]).out;
      CryptOut(gen, st.cipher, data[1..]);
      var ks := Keystream(gen, c, |data|);
      assert ks == [st.k] + Keystream(gen, st.cipher, |data| - 1);
      var out := Crypt(gen, c, data).out;
      assert out == [Xor8(data[0], st.k)] + rest;
      forall i | 0 <= i < |data| ensures out[i] == Xor8(data[i], ks[i]) {
        if i > 0 {
          assert out[i] == rest[i - 1] && data[i] == data[1..][i - 1] && ks[i] == ks[1..][i - 1];
        }
      }
    }
  }

  lemma {:induction false} CryptAdvances(gen: Cipher -> Stepped, c: Cipher, data: seq<byte>)
    ensures Crypt(gen, c, data).cipher == Advance(gen, c, |data|)
    decreases |data|
  {
    if |data| > 0 {
      CryptAdvances(gen, gen(c).cipher, data[1..]);
    }
  }

  /** Two filters in the same state undo each other: decryption is encryption. */
  lemma CryptInvolution(gen: Cipher -> Stepped, c: Cipher, data: seq<byte>)
    ensures Crypt(gen, c, Crypt(gen, c, data).out).out == data
  {
    var mid := Crypt(gen, c, data).out;
    CryptIsXor(gen, c, data);
    CryptIsXor(gen, c, mid);
    var ks := Keystream(gen, c, |data|);
    forall i | 0 <= i < |data| ensures Crypt(gen, c, mid).out[i] == data[i] {
      Xor8Cancel(data[i], ks[i]);
    }
  }

  lemma {:induction false} AdvanceAppend(gen: Cipher -> Stepped, c: Cipher, m: nat, n: nat)
    ensures Advance(gen, c, m + n) == Advance(gen, Advance(gen, c, m), n)
    decreases m
  {
    if m > 0 {
      var c' := gen(c).cipher;
      AdvanceAppend(gen, c', m - 1, n);
      assert Advance(gen, c, m + n) == Advance(gen, c', m - 1 + n);
    }
  }

  lemma {:induction false} KeystreamAppend(gen: Cipher -> Stepped, c: Cipher, m: nat, n: nat)
    ensures Keystream(gen, c, m + n) == Keystream(gen, c, m) + Keystream(gen, Advance(gen, c, m), n)
    decreases m
  {
    if m > 0 {
      var st := gen(c);
      var a := Keystream(gen, st.cipher, m - 1);
      var b := Keystream(gen, Advance(gen, st.cipher, m - 1), n);
      KeystreamAppend(gen, st.cipher, m - 1, n);
      assert Keystream(gen, c, m + n) == [st.k] + Keystream(gen, st.cipher, m - 1 + n);
      assert Keystream(gen, c, m) == [st.k] + a;
      assert Advance(gen, c, m) == Advance(gen, st.cipher, m - 1);
      assert [st.k] + (a + b) == ([st.k] + a) + b;
    }
  }

  /** Encrypting in pieces is encrypting the whole. */
  lemma {:induction false} CryptAppend(gen: Cipher -> Stepped, c: Cipher, a: seq<byte>, b: seq<byte>)
    ensures Crypt(gen, c, a + b).out == Crypt(gen, c, a).out + Crypt(gen, Crypt(gen, c, a).cipher, b).out
    ensures Crypt(gen, c, a + b).cipher == Crypt(gen, Crypt(gen, c, a).cipher, b).cipher
    decreases |a|
  {
    if |a| == 0 {
      assert a + b == b;
    } else {
      var st := gen(c);
      assert (a + b)[0] == a[0] && (a + b)[1..] == a[1..] + b;
      CryptAppend(gen, st.cipher, a[1..], b);
      var ra := Crypt(gen, st.cipher, a[1..]);
      var rb := Crypt(gen, ra.cipher, b);
      var x := Xor8(a[0], st.k);
      assert Crypt(gen, c, a) == Crypted([x] + ra.out, ra.cipher);
      assert Crypt(gen, c, a + b) == Crypted([x] + (ra.out + rb.out), rb.cipher);
      assert [x] + (ra.out + rb.out) == ([x] + ra.out) + rb.out;
    }
  }


  // ------------------------------------------------------------- filter

  datatype Filtered = Filtered(out: seq<byte>, rest: seq<byte>, cipher: Cipher, more: bool)

  /**
   * filter: encrypts bytes from the source range into the destination
   * range until either is exhausted, and always answers false.
   */
  function Filter(c: Cipher, src: seq<byte>, room: nat): (r: Filtered)
    ensures !r.more
    ensures |r.out| == if |src| < room then |src| else room
    ensures src == src[..|r.out|] + r.rest
  {
    var n := if |src| < room then |src| else room;
    var e := Crypt(Step, c, src[..n]);
    assert src == src[..n] + src[n..];
    Filtered(e.out, src[n..], e.cipher, false)
  }

  /** Whatever the room offered on each call, two filter calls produce what one pass over their input would. */
  lemma FilterTwice(c: Cipher, src: seq<byte>, room1: nat, room2: nat)
    ensures var f1 := Filter(c, src, room1);
      var f2 := Filter(f1.cipher, f1.rest, room2);
      var done := |f1.out| + |f2.out|;
      done <= |src|
      && f1.out + f2.out == Crypt(Step, c, src[..done]).out
      && f2.cipher == Crypt(Step, c, src[..done]).cipher
      && f2.rest == src[done..]
  {
    var f1 := Filter(c, src, room1);
    var f2 := Filter(f1.cipher, f1.rest, room2);
    var n1, n2 := |f1.out|, |f2.out|;
    assert f1.rest == src[n1..];
    assert src[..n1 + n2] == src[..n1] + f1.rest[..n2];
    CryptAppend(Step, c, src[..n1], f1.rest[..n2]);
  }
}
