/**
 * The dump file layout shared by snapshots, incremental updates, exports and
 * imports: a 4-byte network-order version, then records back to back. A
 * version 2 record is the 20-byte signature followed by the record's 32-byte
 * image; version 1 records (44 bytes) lack the two global timestamps.
 */
module Dump {
  import opened Bytes
  import opened Hashes
  import opened Records

  const DUMP_VERSION: u32 := 2
  const HEADER_SIZE: nat := 4
  const ENTRY_SIZE: nat := 52
  const ENTRY_V1_SIZE: nat := 44

  datatype Entry = Entry(signature: Signature, record: Record)

  /** dump_header written as htonl(version). */
  function Header(version: u32): (b: seq<byte>)
    ensures |b| == HEADER_SIZE && FromBE32(b) == version
  {
    BE32RoundTrip(version);
    BE32(version)
  }

  /** A dump_record_v2: what the exporters write as "key then data". */
  function EncodeEntry(e: Entry): (b: seq<byte>)
    ensures |b| == ENTRY_SIZE
    ensures b[..SIGNATURE_SIZE] == e.signature && b[SIGNATURE_SIZE..] == Image(e.record)
  {
    e.signature + Image(e.record)
  }

  function DecodeEntry(b: seq<byte>): (e: Entry)
    requires |b| == ENTRY_SIZE
    ensures e.signature == b[..SIGNATURE_SIZE]
  {
    Entry(b[..SIGNATURE_SIZE], FromImage(b[SIGNATURE_SIZE..]))
  }

  lemma EntryRoundTrip(e: Entry)
    ensures DecodeEntry(EncodeEntry(e)) == e
  {
    ImageRoundTrip(e.record);
  }

  lemma EntryBytesRoundTrip(b: seq<byte>)
    requires |b| == ENTRY_SIZE
    ensures EncodeEntry(DecodeEntry(b)) == b
  {
    FromImageRoundTrip(b[SIGNATURE_SIZE..]);
    assert b == b[..SIGNATURE_SIZE] + b[SIGNATURE_SIZE..];
  }

  /**
   * The v2 struct's field order (signature, entered, updated, report count,
   * report entered, report updated, whitelist count, whitelist entered,
   * whitelist updated) is the record struct's own order, so every field sits
   * 20 bytes further on than in the record image.
   */
  lemma EntryFieldOffsets(e: Entry, f: Field)
    ensures EncodeEntry(e)[SIGNATURE_SIZE + Offset(f)..SIGNATURE_SIZE + Offset(f) + 4] == BE32(Get(e.record, f))
  {
    ImageLayout(e.record, f);
    var b := EncodeEntry(e);
    assert b[SIGNATURE_SIZE..][Offset(f)..Offset(f) + 4] == b[SIGNATURE_SIZE + Offset(f)..SIGNATURE_SIZE + Offset(f) + 4];
  }

  /** The six report/whitelist fields of a version 1 record. */
  datatype EntryV1 = EntryV1(
    signature: Signature,
    reportCount: u32, reportEntered: u32, reportUpdated: u32,
    whitelistCount: u32, whitelistEntered: u32, whitelistUpdated: u32)

  function EncodeEntryV1(e: EntryV1): (b: seq<byte>)
    ensures |b| == ENTRY_V1_SIZE && b[..SIGNATURE_SIZE] == e.signature
  {
    e.signature + BE32(e.reportCount) + BE32(e.reportEntered) + BE32(e.reportUpdated)
    + BE32(e.whitelistCount) + BE32(e.whitelistEntered) + BE32(e.whitelistUpdated)
  }

  function DecodeEntryV1(b: seq<byte>): (e: EntryV1)
    requires |b| == ENTRY_V1_SIZE
    ensures e.signature == b[..SIGNATURE_SIZE]
  {
    EntryV1(b[..20], FromBE32(b[20..24]), FromBE32(b[24..28]), FromBE32(b[28..32]),
      FromBE32(b[32..36]), FromBE32(b[36..40]), FromBE32(b[40..44]))
  }

  lemma EntryV1RoundTrip(e: EntryV1)
    ensures DecodeEntryV1(EncodeEntryV1(e)) == e
  {
    var b := EncodeEntryV1(e);
    assert b[20..24] == BE32(e.reportCount) && b[24..28] == BE32(e.reportEntered);
    assert b[28..32] == BE32(e.reportUpdated) && b[32..36] == BE32(e.whitelistCount);
    assert b[36..40] == BE32(e.whitelistEntered) && b[40..44] == BE32(e.whitelistUpdated);
    BE32RoundTrip(e.reportCount);
    BE32RoundTrip(e.reportEntered);
    BE32RoundTrip(e.reportUpdated);
    BE32RoundTrip(e.whitelistCount);
    BE32RoundTrip(e.whitelistEntered);
    BE32RoundTrip(e.whitelistUpdated);
  }

  // ------------------------------------------------------------- streams

  function EncodeEntries(es: seq<Entry>): (b: seq<byte>)
    ensures |b| == ENTRY_SIZE * |es|
  {
    if |es| == 0 then [] else EncodeEntry(es[0]) + EncodeEntries(es[1..])
  }

  /** A complete version 2 dump of the given entries, in the given order. */
  function EncodeDump(es: seq<Entry>): (b: seq<byte>)
    ensures |b| == HEADER_SIZE + ENTRY_SIZE * |es|
    ensures b[..HEADER_SIZE] == Header(DUMP_VERSION)
  {
    Header(DUMP_VERSION) + EncodeEntries(es)
  }

  /** The complete 52-byte records of a byte stream; a partial last one is dropped. */
  function DecodeEntries(b: seq<byte>): (es: seq<Entry>)
    ensures |es| == |b| / ENTRY_SIZE
    decreases |b|
  {
    if |b| < ENTRY_SIZE then [] else [DecodeEntry(b[..ENTRY_SIZE])] + DecodeEntries(b[ENTRY_SIZE..])
  }

  lemma {:induction false} DecodeEncodeEntries(es: seq<Entry>, tail: seq<byte>)
    requires |tail| < ENTRY_SIZE
    ensures DecodeEntries(EncodeEntries(es) + tail) == es
    decreases |es|
  {
    if |es| > 0 {
      var e0 := EncodeEntry(es[0]);
      var rest := EncodeEntries(es[1..]) + tail;
      var b := EncodeEntries(es) + tail;
      assert b == e0 + rest;
      assert b[..ENTRY_SIZE] == e0 && b[ENTRY_SIZE..] == rest;
      assert DecodeEntries(b) == [DecodeEntry(e0)] + DecodeEntries(rest);
      EntryRoundTrip(es[0]);
      DecodeEncodeEntries(es[1..], tail);
    }
  }

  /**
   * What the import loop reads from a stream: whether it got past the 4-byte
   * version (which is read but never checked) and so entered the loop, and
   * the complete records after it.
   */
  datatype ImportRead = ImportRead(enteredLoop: bool, entries: seq<Entry>)

  function ReadDump(b: seq<byte>): (r: ImportRead)
    ensures r.enteredLoop <==> |b| >= HEADER_SIZE
    ensures !r.enteredLoop ==> r.entries == []
    ensures r.enteredLoop ==> r.entries == DecodeEntries(b[HEADER_SIZE..])
  {
    if |b| < HEADER_SIZE then ImportRead(false, [])
    else ImportRead(true, DecodeEntries(b[HEADER_SIZE..]))
  }

  /** Reading a dump gives back exactly the entries written, whatever partial record trails them. */
  lemma ReadAfterWrite(es: seq<Entry>, tail: seq<byte>)
    requires |tail| < ENTRY_SIZE
    ensures ReadDump(EncodeDump(es) + tail) == ImportRead(true, es)
  {
    var b := EncodeDump(es) + tail;
    assert b[HEADER_SIZE..] == EncodeEntries(es) + tail;
    DecodeEncodeEntries(es, tail);
  }

  /**
   * The batch checkpoints of the import loop: a callback (or progress line)
   * at every multiple of the batch size, then one more with the final count
   * whenever the loop was entered, even if that count was just reported.
   */
  function ImportProgress(n: nat, enteredLoop: bool, batch: nat): (p: seq<nat>)
    requires batch > 0
    ensures |p| == n / batch + (if enteredLoop then 1 else 0)
    ensures forall i :: 0 <= i < n / batch ==> p[i] == (i + 1) * batch
    ensures enteredLoop ==> p[|p| - 1] == n
  {
    Multiples(n / batch, batch) + (if enteredLoop then [n] else [])
  }

  function Multiples(k: nat, batch: nat): (p: seq<nat>)
    ensures |p| == k
    ensures forall i :: 0 <= i < k ==> p[i] == (i + 1) * batch
  {
    if k == 0 then [] else Multiples(k - 1, batch) + [k * batch]
  }

  /** A stream whose record count is a whole number of batches reports that count twice. */
  lemma ImportProgressRepeatsFullBatch(n: nat, batch: nat)
    requires batch > 0 && n > 0 && n % batch == 0
    ensures var p := ImportProgress(n, true, batch);
      |p| >= 2 && p[|p| - 1] == n && p[|p| - 2] == n
  {
    var k := n / batch;
    assert k >= 1 && k * batch == n;
  }

  /**
   * The export loop's progress lines: every multiple of 100000, then the
   * final count only when it is not itself a multiple (so nothing for an
   * empty database).
   */
  function ExportProgress(n: nat, every: nat): (p: seq<nat>)
    requires every > 0
    ensures forall i :: 0 <= i < |p| ==> p[i] > 0
    ensures |p| == n / every + (if n % every != 0 then 1 else 0)
    ensures n > 0 ==> p[|p| - 1] == n
    ensures n == 0 ==> p == []
  {
    Multiples(n / every, every) + (if n % every != 0 then [n] else [])
  }
}
