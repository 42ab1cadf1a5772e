/**
 * The per-signature reputation record: eight unsigned 32-bit counters and
 * timestamps. The C++ struct keeps every field in network byte order, so its
 * 32 bytes are the big-endian image of the host values; the model holds the
 * host values and makes the image explicit.
 */
module Records {
  import opened Bytes

  datatype Record = Record(
    entered: u32,
    updated: u32,
    reportCount: u32,
    reportEntered: u32,
    reportUpdated: u32,
    whitelistCount: u32,
    whitelistEntered: u32,
    whitelistUpdated: u32)

  /** The default-constructed record: every field zero. */
  const Zero: Record := Record(0, 0, 0, 0, 0, 0, 0, 0)

  const RECORD_SIZE: nat := 32

  datatype Field =
    | Entered | Updated
    | ReportCount | ReportEntered | ReportUpdated
    | WhitelistCount | WhitelistEntered | WhitelistUpdated

  /** The getter of one field: ntohl of what the struct holds. */
  function Get(r: Record, f: Field): u32 {
    match f
    case Entered => r.entered
    case Updated => r.updated
    case ReportCount => r.reportCount
    case ReportEntered => r.reportEntered
    case ReportUpdated => r.reportUpdated
    case WhitelistCount => r.whitelistCount
    case WhitelistEntered => r.whitelistEntered
    case WhitelistUpdated => r.whitelistUpdated
  }

  /** The setter of one field: it stores htonl(v) and touches nothing else. */
  function Set(r: Record, f: Field, v: u32): (r': Record)
    ensures Get(r', f) == v
    ensures forall g :: g != f ==> Get(r', g) == Get(r, g)
  {
    match f
    case Entered => r.(entered := v)
    case Updated => r.(updated := v)
    case ReportCount => r.(reportCount := v)
    case ReportEntered => r.(reportEntered := v)
    case ReportUpdated => r.(reportUpdated := v)
    case WhitelistCount => r.(whitelistCount := v)
    case WhitelistEntered => r.(whitelistEntered := v)
    case WhitelistUpdated => r.(whitelistUpdated := v)
  }

  /** Two records with the same getters are the same record. */
  lemma FieldsDetermineRecord(a: Record, b: Record)
    requires forall f :: Get(a, f) == Get(b, f)
    ensures a == b
  {
    assert Get(a, Entered) == Get(b, Entered) && Get(a, Updated) == Get(b, Updated);
    assert Get(a, ReportCount) == Get(b, ReportCount) && Get(a, ReportEntered) == Get(b, ReportEntered);
    assert Get(a, ReportUpdated) == Get(b, ReportUpdated) && Get(a, WhitelistCount) == Get(b, WhitelistCount);
    assert Get(a, WhitelistEntered) == Get(b, WhitelistEntered) && Get(a, WhitelistUpdated) == Get(b, WhitelistUpdated);
  }

  // ------------------------------------------------------------ byte image

  /** Byte offset of a field inside the 32-byte struct (declaration order). */
  function Offset(f: Field): (o: nat)
    ensures o % 4 == 0 && o + 4 <= RECORD_SIZE
  {
    match f
    case Entered => 0
    case Updated => 4
    case ReportCount => 8
    case ReportEntered => 12
    case ReportUpdated => 16
    case WhitelistCount => 20
    case WhitelistEntered => 24
    case WhitelistUpdated => 28
  }

  /** The struct's bytes as they are stored in the database and written to dumps. */
  function Image(r: Record): (b: seq<byte>)
    ensures |b| == RECORD_SIZE
  {
    BE32(r.entered) + BE32(r.updated)
    + BE32(r.reportCount) + BE32(r.reportEntered) + BE32(r.reportUpdated)
    + BE32(r.whitelistCount) + BE32(r.whitelistEntered) + BE32(r.whitelistUpdated)
  }

  /** Reading a struct back from 32 stored bytes. */
  function FromImage(b: seq<byte>): (r: Record)
    requires |b| == RECORD_SIZE
    ensures forall f :: Get(r, f) == FromBE32(b[Offset(f)..Offset(f) + 4])
  {
    Record(
      FromBE32(b[0..4]), FromBE32(b[4..8]),
      FromBE32(b[8..12]), FromBE32(b[12..16]), FromBE32(b[16..20]),
      FromBE32(b[20..24]), FromBE32(b[24..28]), FromBE32(b[28..32]))
  }

  /** Each field occupies its own four bytes of the image, in network order. */
  lemma ImageLayout(r: Record, f: Field)
    ensures Image(r)[Offset(f)..Offset(f) + 4] == BE32(Get(r, f))
  {
    var b := Image(r);
    var lo := BE32(r.entered) + BE32(r.updated) + BE32(r.reportCount) + BE32(r.reportEntered);
    var hi := BE32(r.reportUpdated) + BE32(r.whitelistCount) + BE32(r.whitelistEntered) + BE32(r.whitelistUpdated);
    assert b == lo + hi;
    assert b[..16] == lo && b[16..] == hi;
    if Offset(f) < 16 {
      assert b[Offset(f)..Offset(f) + 4] == lo[Offset(f)..Offset(f) + 4];
    } else {
      assert b[Offset(f)..Offset(f) + 4] == hi[Offset(f) - 16..Offset(f) - 12];
    }
  }

  lemma ImageRoundTrip(r: Record)
    ensures FromImage(Image(r)) == r
  {
    var b := Image(r);
    forall f | true
      ensures Get(FromImage(b), f) == Get(r, f)
    {
      ImageLayout(r, f);
      BE32RoundTrip(Get(r, f));
    }
    FieldsDetermineRecord(FromImage(b), r);
  }

  lemma FromImageRoundTrip(b: seq<byte>)
    requires |b| == RECORD_SIZE
    ensures Image(FromImage(b)) == b
  {
    var r := FromImage(b);
    FromBE32RoundTrip(b[0..4]);
    FromBE32RoundTrip(b[4..8]);
    FromBE32RoundTrip(b[8..12]);
    FromBE32RoundTrip(b[12..16]);
    FromBE32RoundTrip(b[16..20]);
    FromBE32RoundTrip(b[20..24]);
    FromBE32RoundTrip(b[24..28]);
    FromBE32RoundTrip(b[28..32]);
    assert b == b[0..4] + b[4..8] + b[8..12] + b[12..16] + b[16..20] + b[20..24] + b[24..28] + b[28..32];
  }

  // ------------------------------------------------------------ operations

  function Max(a: u32, b: u32): u32 {
    if a < b then b else a
  }

  /**
   * record::report(t). A zero time means "now" (the server clock, passed in)
   * and then always stamps the report timestamps; an explicit time only moves
   * them forward. The count wraps at 2^32 like the C++ counter.
   */
  function Report(r: Record, t: u32, now: u32): (r': Record)
    ensures r'.reportCount == Wrap32(r.reportCount + 1)
    ensures t == 0 ==> r'.reportUpdated == now
    ensures t != 0 ==> r'.reportUpdated == Max(r.reportUpdated, t)
    ensures r'.reportEntered ==
      if r.reportEntered != 0 then r.reportEntered
      else if t == 0 then now
      else if r.reportUpdated < t then t
      else 0
    ensures r'.entered == if r.entered != 0 then r.entered else if t == 0 then now else t
    ensures r'.updated == Max(r.updated, if t == 0 then now else t)
    ensures r'.whitelistCount == r.whitelistCount
    ensures r'.whitelistEntered == r.whitelistEntered
    ensures r'.whitelistUpdated == r.whitelistUpdated
  {
    var r1 := Set(r, ReportCount, Wrap32(Get(r, ReportCount) + 1));
    var t' := if t == 0 then now else t;
    var r2 :=
      if t == 0 then
        var a := if Get(r1, ReportEntered) == 0 then Set(r1, ReportEntered, t') else r1;
        Set(a, ReportUpdated, t')
      else if Get(r1, ReportUpdated) < t then
        var a := Set(r1, ReportUpdated, t);
        if Get(a, ReportEntered) == 0 then Set(a, ReportEntered, Get(a, ReportUpdated)) else a
      else r1;
    var r3 := if Get(r2, Entered) == 0 then Set(r2, Entered, t') else r2;
    if Get(r3, Updated) < t' then Set(r3, Updated, t') else r3
  }

  /** record::whitelist(t): the same rules as Report on the whitelist fields. */
  function Whitelist(r: Record, t: u32, now: u32): (r': Record)
    ensures r'.whitelistCount == Wrap32(r.whitelistCount + 1)
    ensures t == 0 ==> r'.whitelistUpdated == now
    ensures t != 0 ==> r'.whitelistUpdated == Max(r.whitelistUpdated, t)
    ensures r'.whitelistEntered ==
      if r.whitelistEntered != 0 then r.whitelistEntered
      else if t == 0 then now
      else if r.whitelistUpdated < t then t
      else 0
    ensures r'.entered == if r.entered != 0 then r.entered else if t == 0 then now else t
    ensures r'.updated == Max(r.updated, if t == 0 then now else t)
    ensures r'.reportCount == r.reportCount
    ensures r'.reportEntered == r.reportEntered
    ensures r'.reportUpdated == r.reportUpdated
  {
    var r1 := Set(r, WhitelistCount, Wrap32(Get(r, WhitelistCount) + 1));
    var t' := if t == 0 then now else t;
    var r2 :=
      if t == 0 then
        var a := if Get(r1, WhitelistEntered) == 0 then Set(r1, WhitelistEntered, t') else r1;
        Set(a, WhitelistUpdated, t')
      else if Get(r1, WhitelistUpdated) < t then
        var a := Set(r1, WhitelistUpdated, t);
        if Get(a, WhitelistEntered) == 0 then Set(a, WhitelistEntered, Get(a, WhitelistUpdated)) else a
      else r1;
    var r3 := if Get(r2, Entered) == 0 then Set(r2, Entered, t') else r2;
    if Get(r3, Updated) < t' then Set(r3, Updated, t') else r3
  }

  /**
   * record::reset(t): both counts and both "last seen" stamps are cleared and
   * `updated` is set to t (or now), even backwards; the three "entered"
   * stamps survive.
   */
  function Reset(r: Record, t: u32, now: u32): (r': Record)
    ensures r'.reportCount == 0 && r'.whitelistCount == 0
    ensures r'.reportUpdated == 0 && r'.whitelistUpdated == 0
    ensures r'.updated == if t == 0 then now else t
    ensures r'.entered == r.entered
    ensures r'.reportEntered == r.reportEntered
    ensures r'.whitelistEntered == r.whitelistEntered
  {
    var r1 := Set(Set(r, WhitelistCount, 0), ReportCount, 0);
    var t' := if t == 0 then now else t;
    Set(Set(Set(r1, ReportUpdated, 0), WhitelistUpdated, 0), Updated, t')
  }

  /** True when the record has neither reports nor whitelistings. */
  predicate Unreported(r: Record) {
    r.reportCount == 0 && r.whitelistCount == 0
  }

  // ------------------------------------------------------------ properties

  /** `updated` is never older than either "last seen" stamp. */
  predicate Consistent(r: Record) {
    r.reportUpdated <= r.updated && r.whitelistUpdated <= r.updated
  }

  lemma ZeroConsistent()
    ensures Consistent(Zero) && Unreported(Zero)
    ensures forall f :: Get(Zero, f) == 0
  {
  }

  /** Report, Whitelist and Reset all keep a record consistent. */
  lemma OperationsKeepConsistent(r: Record, t: u32, now: u32)
    requires Consistent(r)
    ensures Consistent(Report(r, t, now))
    ensures Consistent(Whitelist(r, t, now))
    ensures Consistent(Reset(r, t, now))
  {
  }

  /** Report and Whitelist never move `updated` backwards, and make `entered` non-zero for a non-zero time. */
  lemma ReportMonotone(r: Record, t: u32, now: u32)
    ensures Report(r, t, now).updated >= r.updated
    ensures Whitelist(r, t, now).updated >= r.updated
    ensures (if t == 0 then now else t) != 0 ==>
      Report(r, t, now).entered != 0 && Whitelist(r, t, now).entered != 0
  {
  }

  /**
   * Reports with explicit times may arrive in any order: the counts and the
   * "last seen" stamps come out the same.
   */
  lemma ReportsCommute(r: Record, t1: u32, t2: u32, now: u32)
    requires t1 != 0 && t2 != 0
    ensures var a, b := Report(Report(r, t1, now), t2, now), Report(Report(r, t2, now), t1, now);
      a.reportCount == b.reportCount && a.reportUpdated == b.reportUpdated && a.updated == b.updated
      && a.whitelistCount == b.whitelistCount
  {
  }

  /** A reset record counts as absent for lookups until it is reported again. */
  lemma ResetClears(r: Record, t: u32, now: u32)
    ensures Unreported(Reset(r, t, now))
    ensures !Unreported(Report(Reset(r, t, now), t, now))
  {
  }
}
