/**
 * The 28-byte update message a replica or the API sends to the master:
 * a signature, an operation code and a time, the last two in network order.
 */
module Updates {
  import opened Bytes
  import opened Hashes

  const UPDATE_SIZE: nat := 28

  /** The enumerators of update::update_type. */
  const ERASE: u32 := 0
  const REPORT: u32 := 1
  const WHITELIST: u32 := 2

  /**
   * An update as the getters see it: `kind` is what type() returns and `time`
   * what time() returns. The code is kept as a raw 32-bit value because
   * whatever arrives on the wire lands in the struct unchecked.
   */
  datatype Update = Update(hash: Signature, kind: u32, time: u32)

  /** update(hash, type): stamped with the current time. */
  function Make(h: Signature, kind: u32, now: u32): (u: Update)
    ensures u.hash == h && u.kind == kind && u.time == now
  {
    Update(h, kind, now)
  }

  /** The struct's bytes: hash, then htonl(type), then htonl(time). */
  function Encode(u: Update): (b: seq<byte>)
    ensures |b| == UPDATE_SIZE
    ensures b[..SIGNATURE_SIZE] == u.hash
  {
    u.hash + BE32(u.kind) + BE32(u.time)
  }

  function Decode(b: seq<byte>): (u: Update)
    requires |b| == UPDATE_SIZE
    ensures u.hash == b[..SIGNATURE_SIZE]
  {
    Update(b[..20], FromBE32(b[20..24]), FromBE32(b[24..28]))
  }

  lemma EncodeDecode(u: Update)
    ensures Decode(Encode(u)) == u
  {
    var b := Encode(u);
    assert b[20..24] == BE32(u.kind) && b[24..28] == BE32(u.time);
    BE32RoundTrip(u.kind);
    BE32RoundTrip(u.time);
  }

  lemma DecodeEncode(b: seq<byte>)
    requires |b| == UPDATE_SIZE
    ensures Encode(Decode(b)) == b
  {
    FromBE32RoundTrip(b[20..24]);
    FromBE32RoundTrip(b[24..28]);
    assert b == b[..20] + b[20..24] + b[24..28];
  }

  /**
   * What a session's read loop hands to the master, in order: one update per
   * complete 28-byte block; a trailing partial block ends the session.
   */
  function ReadUpdates(stream: seq<byte>): (us: seq<Update>)
    ensures |us| == |stream| / UPDATE_SIZE
    ensures forall i :: 0 <= i < |us| ==> Encode(us[i]) == stream[UPDATE_SIZE * i..UPDATE_SIZE * i + UPDATE_SIZE]
    decreases |stream|
  {
    if |stream| < UPDATE_SIZE then []
    else
      var first := stream[..UPDATE_SIZE];
      DecodeEncode(first);
      var rest := ReadUpdates(stream[UPDATE_SIZE..]);
      assert forall i :: 1 <= i < |rest| + 1 ==>
        stream[UPDATE_SIZE * i..UPDATE_SIZE * i + UPDATE_SIZE]
        == stream[UPDATE_SIZE..][UPDATE_SIZE * (i - 1)..UPDATE_SIZE * (i - 1) + UPDATE_SIZE];
      [Decode(first)] + rest
  }

  function EncodeAll(us: seq<Update>): (b: seq<byte>)
    ensures |b| == UPDATE_SIZE * |us|
  {
    if |us| == 0 then [] else Encode(us[0]) + EncodeAll(us[1..])
  }

  /** Sending updates back to back delivers exactly those updates, whatever trails them. */
  lemma {:induction false} ReadAfterSend(us: seq<Update>, tail: seq<byte>)
    requires |tail| < UPDATE_SIZE
    ensures ReadUpdates(EncodeAll(us) + tail) == us
    decreases |us|
  {
    if |us| > 0 {
      var s := EncodeAll(us) + tail;
      assert s[..UPDATE_SIZE] == Encode(us[0]);
      assert s[UPDATE_SIZE..] == EncodeAll(us[1..]) + tail;
      EncodeDecode(us[0]);
      ReadAfterSend(us[1..], tail);
    }
  }

  // ---------------------------------------------------------- printing

  /**
   * operator<<(update_type): the argument is treated as the raw (network
   * order) field, so it is passed through ntohl before naming it; unknown
   * codes print nothing.
   */
  function KindName(le: bool, raw: u32): (s: string)
    ensures s in {"erase", "report", "whitelist", ""}
  {
    var code := Ntohl(le, raw);
    if code == ERASE then "erase"
    else if code == REPORT then "report"
    else if code == WHITELIST then "whitelist"
    else ""
  }

  /**
   * operator<<(update) as written: it passes type(), which is already in host
   * order, so the code goes through ntohl a second time.
   */
  function Show(le: bool, u: Update): (s: string)
    ensures !le ==> s == ShowIntended(le, u)
    ensures |s| >= |Decimal(u.time)| && s[|s| - |Decimal(u.time)|..] == Decimal(u.time)
  {
    KindName(le, u.kind) + " " + Print(u.hash) + " " + Decimal(u.time)
  }

  /** operator<<(update) printing the type it holds: the raw field goes to the name. */
  function ShowIntended(le: bool, u: Update): (s: string)
  {
    KindName(le, Htonl(le, u.kind)) + " " + Print(u.hash) + " " + Decimal(u.time)
  }

  /** The intended printer names every known code correctly, on either host. */
  lemma ShowIntendedNamesKind(le: bool, u: Update)
    ensures u.kind == ERASE ==> ShowIntended(le, u)[..6] == "erase "
    ensures u.kind == REPORT ==> ShowIntended(le, u)[..7] == "report "
    ensures u.kind == WHITELIST ==> ShowIntended(le, u)[..10] == "whitelist "
  {
    NtohlHtonl(le, u.kind);
  }

  /**
   * On a little-endian host the printer as written loses the name of a
   * report or whitelist update: the double ntohl turns 1 into 0x01000000.
   */
  lemma ShowLosesKindOnLittleEndian(u: Update)
    requires u.kind == REPORT || u.kind == WHITELIST
    ensures Show(true, u)[..1] == " "
    ensures Show(true, u) != ShowIntended(true, u)
  {
    var b := BE32(u.kind);
    assert b == [0, 0, 0, u.kind];
    assert BE32(Ntohl(true, u.kind)) == [u.kind, 0, 0, 0];
    assert Ntohl(true, u.kind) != ERASE && Ntohl(true, u.kind) != REPORT && Ntohl(true, u.kind) != WHITELIST by {
      BE32Injective(Ntohl(true, u.kind), 0);
      BE32Injective(Ntohl(true, u.kind), 1);
      BE32Injective(Ntohl(true, u.kind), 2);
      assert BE32(0) == [0, 0, 0, 0] && BE32(1) == [0, 0, 0, 1] && BE32(2) == [0, 0, 0, 2];
    }
    ShowIntendedNamesKind(true, u);
    assert Show(true, u)[0] == ' ';
    assert ShowIntended(true, u)[0] != ' ';
  }
}
