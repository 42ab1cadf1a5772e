/**
 * The Python development tools that write and read the binary formats: the
 * test-data generator, the two dump listers and the update sender. Each
 * script's output is modelled as the bytes (or text lines) it produces, and
 * each is checked against the C++ side's reader of the same format.
 */
module DevScripts {
  import opened Wrappers
  import opened Bytes
  import opened Hashes
  import opened Records
  import Dump
  import Updates
  import Store

  // ----------------------------------------------------- generate-data.py

  const DAY: nat := 86400
  /** random.randint(0, 3*28): how many days back a generated record is stamped. */
  const MAX_DAYS_BACK: nat := 84
  /** Iterations of the generation loop. */
  const GENERATED_RECORDS: nat := 128000

  /** outputHeader: struct '!I', a big-endian 32-bit version. */
  function OutputHeader(version: u32): (b: seq<byte>)
    ensures |b| == Dump.HEADER_SIZE && FromBE32(b) == version
  {
    BE32RoundTrip(version);
    BE32(version)
  }

  /** outputRecordV1: struct '!20sLLLLLL', the six report and whitelist fields. */
  function OutputRecordV1(signature: Signature, rCount: u32, rEntered: u32, rUpdated: u32,
                          wlCount: u32, wlEntered: u32, wlUpdated: u32): (b: seq<byte>)
    ensures |b| == Dump.ENTRY_V1_SIZE
    ensures Dump.DecodeEntryV1(b) == Dump.EntryV1(signature, rCount, rEntered, rUpdated, wlCount, wlEntered, wlUpdated)
  {
    var b := signature + BE32(rCount) + BE32(rEntered) + BE32(rUpdated)
      + BE32(wlCount) + BE32(wlEntered) + BE32(wlUpdated);
    Dump.EntryV1RoundTrip(Dump.EntryV1(signature, rCount, rEntered, rUpdated, wlCount, wlEntered, wlUpdated));
    b
  }

  /** outputRecordV2: struct '!20sLLLLLLLL', all eight record fields after the signature. */
  function OutputRecordV2(signature: Signature, entered: u32, updated: u32,
                          rCount: u32, rEntered: u32, rUpdated: u32,
                          wlCount: u32, wlEntered: u32, wlUpdated: u32): (b: seq<byte>)
    ensures |b| == Dump.ENTRY_SIZE
    ensures Dump.DecodeEntry(b) ==
      Dump.Entry(signature, Record(entered, updated, rCount, rEntered, rUpdated, wlCount, wlEntered, wlUpdated))
  {
    var b := signature + BE32(entered) + BE32(updated) + BE32(rCount) + BE32(rEntered)
      + BE32(rUpdated) + BE32(wlCount) + BE32(wlEntered) + BE32(wlUpdated);
    var e := Dump.Entry(signature, Record(entered, updated, rCount, rEntered, rUpdated, wlCount, wlEntered, wlUpdated));
    assert b == Dump.EncodeEntry(e);
    Dump.EntryRoundTrip(e);
    b
  }

  /**
   * The random choices of one loop iteration: the SHA-1 digest of the clock
   * and a random number, the number of days back, and the report count.
   */
  datatype Draw = Draw(signature: Signature, daysBack: nat, reports: nat)

  /** The ranges random.randint draws from. */
  predicate InRange(d: Draw) {
    d.daysBack <= MAX_DAYS_BACK && 1 <= d.reports <= 5
  }

  /** The second a draw is stamped with: `now` less whole days. */
  function Stamp(now: u32, d: Draw): (t: u32)
    requires DAY * d.daysBack <= now
    ensures t <= now && (now - t) % DAY == 0
  {
    now - DAY * d.daysBack
  }

  /**
   * The record the loop writes for a draw stamped at t: first entered, last
   * updated and reported at that same second, reported 1 to 5 times, never
   * whitelisted.
   */
  function Generated(t: u32, d: Draw): (e: Dump.Entry)
    requires InRange(d)
    ensures e.signature == d.signature && 1 <= e.record.reportCount <= 5
    ensures e.record.entered == t && e.record.updated == t
    ensures e.record.reportEntered == t && e.record.reportUpdated == t
    ensures e.record.whitelistCount == 0 && e.record.whitelistEntered == 0 && e.record.whitelistUpdated == 0
  {
    Dump.Entry(d.signature, Record(t, t, d.reports, t, t, 0, 0, 0))
  }

  /**
   * What the generation loop writes before it stops: packing a negative
   * stamp raises struct.error, which ends the script after the records
   * already written.
   */
  datatype Output = Output(bytes: seq<byte>, raised: bool)

  /** The generation loop for the given draws, at time `now` (int(time.time())). */
  function GenerateData(now: u32, draws: seq<Draw>): (o: Output)
    requires forall i :: 0 <= i < |draws| ==> InRange(draws[i])
    ensures o.raised <==> exists i :: 0 <= i < |draws| && now < DAY * draws[i].daysBack
    ensures !o.raised ==> forall i :: 0 <= i < |draws| ==> DAY * draws[i].daysBack <= now
    ensures !o.raised ==> |o.bytes| == Dump.ENTRY_SIZE * |draws|
    decreases |draws|
  {
    if |draws| == 0 then Output([], false)
    else
      var d := draws[0];
      if now < DAY * d.daysBack then Output([], true)
      else
        var t := Stamp(now, d);
        assert InRange(d) && d.reports <= 5;
        var rest := GenerateData(now, draws[1..]);
        assert forall i :: 1 <= i < |draws| ==> draws[i] == draws[1..][i - 1];
        Output(OutputRecordV2(d.signature, t, t, d.reports, t, t, 0, 0, 0) + rest.bytes, rest.raised)
  }

  /** The first record of a successful run, and the rest of the run. */
  lemma GenerateDataSplits(now: u32, draws: seq<Draw>)
    requires forall i :: 0 <= i < |draws| ==> InRange(draws[i])
    requires |draws| > 0 && !GenerateData(now, draws).raised
    ensures DAY * draws[0].daysBack <= now
    ensures var b := GenerateData(now, draws).bytes;
      b[..Dump.ENTRY_SIZE] == Dump.EncodeEntry(Generated(Stamp(now, draws[0]), draws[0]))
      && b[Dump.ENTRY_SIZE..] == GenerateData(now, draws[1..]).bytes
      && !GenerateData(now, draws[1..]).raised
  {
    var d := draws[0];
    var t := Stamp(now, d);
    var head := OutputRecordV2(d.signature, t, t, d.reports, t, t, 0, 0, 0);
    var rest := GenerateData(now, draws[1..]).bytes;
    assert GenerateData(now, draws).bytes == head + rest;
    GeneratedHead(t, d);
    assert (head + rest)[..Dump.ENTRY_SIZE] == head && (head + rest)[Dump.ENTRY_SIZE..] == rest;
  }

  /** The loop body's output_record_v2 call writes the dump entry of the generated record. */
  lemma GeneratedHead(t: u32, d: Draw)
    requires InRange(d)
    ensures var head := OutputRecordV2(d.signature, t, t, d.reports, t, t, 0, 0, 0);
      |head| == Dump.ENTRY_SIZE && head == Dump.EncodeEntry(Generated(t, d))
  {
  }

  /**
   * Read back record by record, the generated bytes hold one record per
   * draw, in order, each stamped and filled as the loop body does it.
   */
  lemma {:induction false} GeneratedRecords(now: u32, draws: seq<Draw>)
    requires forall i :: 0 <= i < |draws| ==> InRange(draws[i])
    requires !GenerateData(now, draws).raised
    ensures var es := Dump.DecodeEntries(GenerateData(now, draws).bytes);
      |es| == |draws| &&
      forall i :: 0 <= i < |draws| ==> es[i] == Generated(Stamp(now, draws[i]), draws[i])
    decreases |draws|
  {
    if |draws| > 0 {
      GenerateDataSplits(now, draws);
      var b := GenerateData(now, draws).bytes;
      var rest := GenerateData(now, draws[1..]).bytes;
      GeneratedRecords(now, draws[1..]);
      var es := Dump.DecodeEntries(b);
      var e0 := Generated(Stamp(now, draws[0]), draws[0]);
      Dump.EntryRoundTrip(e0);
      assert es == [e0] + Dump.DecodeEntries(rest);
      forall i | 1 <= i < |draws|
        ensures es[i] == Generated(Stamp(now, draws[i]), draws[i])
      {
        assert draws[i] == draws[1..][i - 1];
      }
    }
  }

  /**
   * The version header call is commented out, so the generated file is not
   * a dump: the importer takes the first record's first four signature bytes
   * for the version and decodes every later record 4 bytes out of step,
   * yielding one record fewer than were generated, the first of which has a
   * signature made of the generated one's tail and the stamp.
   */
  lemma ImportOfGeneratedData(now: u32, draws: seq<Draw>)
    requires forall i :: 0 <= i < |draws| ==> InRange(draws[i])
    requires |draws| >= 2 && !GenerateData(now, draws).raised
    ensures DAY * draws[0].daysBack <= now
    ensures var r := Dump.ReadDump(GenerateData(now, draws).bytes);
      r.enteredLoop && |r.entries| == |draws| - 1
      && r.entries[0].signature == draws[0].signature[4..] + BE32(Stamp(now, draws[0]))
    ensures |draws| == GENERATED_RECORDS ==>
      |Dump.ReadDump(GenerateData(now, draws).bytes).entries| == GENERATED_RECORDS - 1
  {
    GenerateDataSplits(now, draws);
    var d := draws[0];
    var e := Generated(Stamp(now, d), d);
    var b := GenerateData(now, draws).bytes;
    ShiftedRead(b, |draws|);
    EntryBytesFourOn(e);
    assert b[..Dump.ENTRY_SIZE][4..24] == b[4..24];
  }

  /** A stream of k >= 2 whole records read as a dump: the first record's first four bytes are taken for the version. */
  lemma ShiftedRead(b: seq<byte>, k: nat)
    requires |b| == Dump.ENTRY_SIZE * k && k >= 2
    ensures var r := Dump.ReadDump(b);
      r.enteredLoop && |r.entries| == k - 1 && r.entries[0].signature == b[4..24]
  {
    var body := b[Dump.HEADER_SIZE..];
    assert |body| == 52 * (k - 1) + 48;
    assert |body| / 52 == k - 1;
    assert body[..Dump.ENTRY_SIZE][..SIGNATURE_SIZE] == b[4..24];
  }

  /** Bytes 4 to 24 of an encoded record: the signature's last sixteen bytes, then the entry time. */
  lemma EntryBytesFourOn(e: Dump.Entry)
    ensures Dump.EncodeEntry(e)[4..24] == e.signature[4..] + BE32(e.record.entered)
  {
    Dump.EntryFieldOffsets(e, Entered);
  }

  /** With the header call restored, the output is a version 2 dump the importer reads in full. */
  lemma HeaderedGeneratedDataImports(now: u32, draws: seq<Draw>)
    requires forall i :: 0 <= i < |draws| ==> InRange(draws[i])
    requires !GenerateData(now, draws).raised
    ensures var r := Dump.ReadDump(OutputHeader(Dump.DUMP_VERSION) + GenerateData(now, draws).bytes);
      r.enteredLoop && r.entries == Dump.DecodeEntries(GenerateData(now, draws).bytes)
      && |r.entries| == |draws|
  {
    var b := GenerateData(now, draws).bytes;
    var es := Dump.DecodeEntries(b);
    assert b == Dump.EncodeEntries(es) by {
      GeneratedBytesAreEntries(now, draws);
    }
    Dump.ReadAfterWrite(es, []);
    assert Dump.EncodeDump(es) + [] == OutputHeader(Dump.DUMP_VERSION) + b;
  }

  /** The generated bytes are the exporter's encoding of what they decode to. */
  lemma {:induction false} GeneratedBytesAreEntries(now: u32, draws: seq<Draw>)
    requires forall i :: 0 <= i < |draws| ==> InRange(draws[i])
    requires !GenerateData(now, draws).raised
    ensures GenerateData(now, draws).bytes == Dump.EncodeEntries(Dump.DecodeEntries(GenerateData(now, draws).bytes))
    decreases |draws|
  {
    if |draws| > 0 {
      GenerateDataSplits(now, draws);
      var b := GenerateData(now, draws).bytes;
      var rest := GenerateData(now, draws[1..]).bytes;
      var e0 := Generated(Stamp(now, draws[0]), draws[0]);
      Dump.EntryRoundTrip(e0);
      var es := Dump.DecodeEntries(b);
      assert es == [e0] + Dump.DecodeEntries(rest);
      assert es[1..] == Dump.DecodeEntries(rest);
      GeneratedBytesAreEntries(now, draws[1..]);
      assert b == b[..Dump.ENTRY_SIZE] + b[Dump.ENTRY_SIZE..];
    }
  }

  // ------------------------------------- dump-snapshot.py, dump-export.py

  /** How a lister ends: normally, on the version check (exit 1), or with a struct.error traceback. */
  datatype Ending = Finished | WrongVersion | UnpackError

  /** The lines a lister prints, and how it ends. */
  datatype Listing = Listing(lines: seq<string>, ending: Ending)

  const SNAPSHOT_VERSION: u32 := 2
  const NOT_VERSION_2: string := "Snapshot is not version 2"

  /** dump-snapshot prints four columns per record, dump-export only the signature. */
  datatype Format = SnapshotFormat | ExportFormat

  function Spaces(k: nat): (s: string)
    ensures |s| == k && forall i :: 0 <= i < k ==> s[i] == ' '
  {
    seq(k, _ => ' ')
  }

  /** '%8d': right-aligned in eight columns, never truncated. */
  function Pad8(digits: string): (s: string)
  {
    if |digits| < 8 then Spaces(8 - |digits|) + digits else digits
  }

  /** One numeric column of a snapshot line, with the space before it. */
  function Column(n: nat): (s: string)
  {
    " " + Pad8(Decimal(n))
  }

  /** "%s %8d %8d %8d" of the hex signature, entered, updated and report count. */
  function SnapshotLine(e: Dump.Entry): (s: string)
  {
    Print(e.signature) + (Column(e.record.entered) + (Column(e.record.updated) + Column(e.record.reportCount)))
  }

  function Line(f: Format, e: Dump.Entry): (s: string)
  {
    match f
    case SnapshotFormat => SnapshotLine(e)
    case ExportFormat => Print(e.signature)
  }

  /** The lines for a sequence of records, one each, in order. */
  function Lines(f: Format, es: seq<Dump.Entry>): (ls: seq<string>)
    ensures |ls| == |es|
    ensures forall i :: 0 <= i < |es| ==> ls[i] == Line(f, es[i])
  {
    if |es| == 0 then [] else [Line(f, es[0])] + Lines(f, es[1..])
  }

  /**
   * The record loop as written: `f.read(52)` returns a string, never None,
   * so the test never ends the loop; the first short read, empty at the end
   * of the file, makes struct.unpack raise.
   */
  function RecordsAsWritten(f: Format, body: seq<byte>): (l: Listing)
    ensures l.ending == UnpackError
    ensures |l.lines| == |body| / Dump.ENTRY_SIZE
    decreases |body|
  {
    if |body| < Dump.ENTRY_SIZE then Listing([], UnpackError)
    else
      var rest := RecordsAsWritten(f, body[Dump.ENTRY_SIZE..]);
      RecordCountStep(|body|);
      Listing([Line(f, Dump.DecodeEntry(body[..Dump.ENTRY_SIZE]))] + rest.lines, rest.ending)
  }

  /**
   * The loop with the end of file recognised (an empty read breaks out): a
   * whole number of records lists them all and finishes; a partial last
   * record still fails to unpack.
   */
  function RecordLines(f: Format, body: seq<byte>): (l: Listing)
    ensures l.ending == (if |body| % Dump.ENTRY_SIZE == 0 then Finished else UnpackError)
    ensures |l.lines| == |body| / Dump.ENTRY_SIZE
    decreases |body|
  {
    if |body| == 0 then Listing([], Finished)
    else if |body| < Dump.ENTRY_SIZE then Listing([], UnpackError)
    else
      var rest := RecordLines(f, body[Dump.ENTRY_SIZE..]);
      RecordCountStep(|body|);
      Listing([Line(f, Dump.DecodeEntry(body[..Dump.ENTRY_SIZE]))] + rest.lines, rest.ending)
  }

  /** Removing one record from a stream removes one from its count and keeps the partial tail. */
  lemma RecordCountStep(n: nat)
    requires n >= Dump.ENTRY_SIZE
    ensures n / Dump.ENTRY_SIZE == (n - Dump.ENTRY_SIZE) / Dump.ENTRY_SIZE + 1
    ensures n % Dump.ENTRY_SIZE == (n - Dump.ENTRY_SIZE) % Dump.ENTRY_SIZE
  {
  }

  /** Both loops print the same lines; only the way they end differs. */
  lemma {:induction false} SameLines(f: Format, body: seq<byte>)
    ensures RecordLines(f, body).lines == RecordsAsWritten(f, body).lines
    decreases |body|
  {
    if |body| >= Dump.ENTRY_SIZE {
      SameLines(f, body[Dump.ENTRY_SIZE..]);
    }
  }

  /** Listing the exporter's encoding of records prints one line per record, in order. */
  lemma {:induction false} RecordLinesOfEntries(f: Format, es: seq<Dump.Entry>)
    ensures RecordLines(f, Dump.EncodeEntries(es)) == Listing(Lines(f, es), Finished)
    decreases |es|
  {
    if |es| > 0 {
      var b := Dump.EncodeEntries(es);
      var head := Dump.EncodeEntry(es[0]);
      assert b == head + Dump.EncodeEntries(es[1..]);
      assert b[..Dump.ENTRY_SIZE] == head && b[Dump.ENTRY_SIZE..] == Dump.EncodeEntries(es[1..]);
      Dump.EntryRoundTrip(es[0]);
      RecordLinesOfEntries(f, es[1..]);
    }
  }

  /** dump-snapshot.py as written, on the gunzipped file. */
  function SnapshotAsWritten(file: seq<byte>): (l: Listing)
    ensures l.ending != Finished
  {
    if |file| < Dump.HEADER_SIZE then Listing([], UnpackError)
    else if FromBE32(file[..Dump.HEADER_SIZE]) != SNAPSHOT_VERSION then Listing([NOT_VERSION_2], WrongVersion)
    else RecordsAsWritten(SnapshotFormat, file[Dump.HEADER_SIZE..])
  }

  /** dump-snapshot.py with the end of file recognised. */
  function Snapshot(file: seq<byte>): (l: Listing)
    ensures l.ending == WrongVersion <==>
      |file| >= Dump.HEADER_SIZE && FromBE32(file[..Dump.HEADER_SIZE]) != SNAPSHOT_VERSION
    ensures l.ending == WrongVersion ==> l.lines == [NOT_VERSION_2]
  {
    if |file| < Dump.HEADER_SIZE then Listing([], UnpackError)
    else if FromBE32(file[..Dump.HEADER_SIZE]) != SNAPSHOT_VERSION then Listing([NOT_VERSION_2], WrongVersion)
    else RecordLines(SnapshotFormat, file[Dump.HEADER_SIZE..])
  }

  /** The snapshot of a version 2 dump lists every record in dump order and finishes. */
  lemma SnapshotOfDump(es: seq<Dump.Entry>)
    ensures Snapshot(Dump.EncodeDump(es)) == Listing(Lines(SnapshotFormat, es), Finished)
  {
    var b := Dump.EncodeDump(es);
    assert b[Dump.HEADER_SIZE..] == Dump.EncodeEntries(es);
    assert FromBE32(b[..Dump.HEADER_SIZE]) == SNAPSHOT_VERSION;
    RecordLinesOfEntries(SnapshotFormat, es);
  }

  /** As written, the same dump is listed in full and then the script dies on the empty read. */
  lemma SnapshotAsWrittenFailsOnDump(es: seq<Dump.Entry>)
    ensures SnapshotAsWritten(Dump.EncodeDump(es)) == Listing(Lines(SnapshotFormat, es), UnpackError)
  {
    var b := Dump.EncodeDump(es);
    assert b[Dump.HEADER_SIZE..] == Dump.EncodeEntries(es);
    assert FromBE32(b[..Dump.HEADER_SIZE]) == SNAPSHOT_VERSION;
    RecordLinesOfEntries(SnapshotFormat, es);
    SameLines(SnapshotFormat, Dump.EncodeEntries(es));
  }

  /** A dump of any other version, version 1 included, is refused without listing a record. */
  lemma SnapshotRefusesOtherVersions(version: u32, rest: seq<byte>)
    requires version != SNAPSHOT_VERSION
    ensures Snapshot(Dump.Header(version) + rest) == Listing([NOT_VERSION_2], WrongVersion)
    ensures SnapshotAsWritten(Dump.Header(version) + rest) == Listing([NOT_VERSION_2], WrongVersion)
  {
    assert (Dump.Header(version) + rest)[..Dump.HEADER_SIZE] == Dump.Header(version);
  }

  /** dump-export.py as written: headerless records, ungzipped. */
  function ExportAsWritten(file: seq<byte>): (l: Listing)
    ensures l.ending == UnpackError
  {
    RecordsAsWritten(ExportFormat, file)
  }

  /** dump-export.py with the end of file recognised. */
  function Export(file: seq<byte>): (l: Listing)
    ensures l.ending == Finished <==> |file| % Dump.ENTRY_SIZE == 0
  {
    RecordLines(ExportFormat, file)
  }

  /**
   * Listing headerless records prints each signature as forty hex digits,
   * which the daemons' signature parser turns back into the signature.
   */
  lemma ExportOfEntries(es: seq<Dump.Entry>)
    ensures Export(Dump.EncodeEntries(es)).ending == Finished
    ensures |Export(Dump.EncodeEntries(es)).lines| == |es|
    ensures forall i :: 0 <= i < |es| ==>
      DecodeSignature(Export(Dump.EncodeEntries(es)).lines[i]) == Some(es[i].signature)
  {
    RecordLinesOfEntries(ExportFormat, es);
    forall i | 0 <= i < |es|
      ensures DecodeSignature(Export(Dump.EncodeEntries(es)).lines[i]) == Some(es[i].signature)
    {
      PrintDecodeRoundTrip(es[i].signature, es[i].signature);
    }
  }

  /** As written, the same records are listed and the script then dies on the empty read. */
  lemma ExportAsWrittenFailsOnEntries(es: seq<Dump.Entry>)
    ensures ExportAsWritten(Dump.EncodeEntries(es)) == Listing(Lines(ExportFormat, es), UnpackError)
  {
    RecordLinesOfEntries(ExportFormat, es);
    SameLines(ExportFormat, Dump.EncodeEntries(es));
  }

  // -------------------------------------------- splitting a printed line

  /** Length of the leading run of non-white-space characters. */
  function WordEnd(s: string): (n: nat)
    ensures n <= |s|
    ensures forall i :: 0 <= i < n ==> !IsSpace(s[i])
    ensures n < |s| ==> IsSpace(s[n])
  {
    if |s| == 0 || IsSpace(s[0]) then 0 else 1 + WordEnd(s[1..])
  }

  /** str.split(): the maximal runs of non-white-space characters, in order. */
  function Words(s: string): (ws: seq<string>)
    decreases |s|
  {
    if |s| == 0 then []
    else if IsSpace(s[0]) then Words(s[1..])
    else
      var n := WordEnd(s);
      assert n > 0;
      [s[..n]] + Words(s[n..])
  }

  predicate NoSpace(w: string) {
    forall i :: 0 <= i < |w| ==> !IsSpace(w[i])
  }

  /** A word followed by white space or the end of the line is split off whole. */
  lemma WordsOfWord(w: string, rest: string)
    requires |w| > 0 && NoSpace(w)
    requires |rest| == 0 || IsSpace(rest[0])
    ensures Words(w + rest) == [w] + Words(rest)
  {
    var s := w + rest;
    assert WordEnd(s) == |w| by {
      WordEndIs(s, |w|);
    }
    assert s[..|w|] == w && s[|w|..] == rest;
  }

  lemma {:induction false} WordEndIs(s: string, n: nat)
    requires n <= |s|
    requires forall i :: 0 <= i < n ==> !IsSpace(s[i])
    requires n < |s| ==> IsSpace(s[n])
    ensures WordEnd(s) == n
    decreases n
  {
    if n > 0 {
      WordEndIs(s[1..], n - 1);
    }
  }

  lemma {:induction false} WordsAfterSpaces(k: nat, rest: string)
    ensures Words(Spaces(k) + rest) == Words(rest)
    decreases k
  {
    if k > 0 {
      var t := Spaces(k) + rest;
      assert t[0] == ' ' && IsSpace(t[0]);
      assert t[1..] == Spaces(k - 1) + rest;
      WordsAfterSpaces(k - 1, rest);
    } else {
      assert Spaces(k) + rest == rest;
    }
  }

  /** A column is its number's digits after at least one space. */
  lemma ColumnIs(n: nat) returns (k: nat)
    ensures k > 0 && Column(n) == Spaces(k) + Decimal(n)
    ensures NoSpace(Decimal(n))
  {
    var d := Decimal(n);
    if |d| < 8 {
      k := 9 - |d|;
      assert Column(n) == [' '] + (Spaces(8 - |d|) + d);
    } else {
      k := 1;
    }
    assert Spaces(k) == [' '] + Spaces(k - 1);
    forall i | 0 <= i < |d|
      ensures !IsSpace(d[i])
    {
      assert IsDigit(d[i]);
    }
  }

  lemma WordsOfColumn(n: nat, rest: string)
    requires |rest| == 0 || IsSpace(rest[0])
    ensures Words(Column(n) + rest) == [Decimal(n)] + Words(rest)
  {
    var d := Decimal(n);
    var k := ColumnIs(n);
    AppendAssociates(Spaces(k), d, rest);
    WordsAfterSpaces(k, d + rest);
    WordsOfWord(d, rest);
  }

  lemma AppendAssociates(a: string, b: string, c: string)
    ensures (a + b) + c == a + (b + c)
  {
  }

  /**
   * A snapshot line splits into the signature and the three numbers, and
   * each parses back: the hex through the daemons' signature parser, the
   * numbers as decimal digits.
   */
  lemma SnapshotLineParses(e: Dump.Entry)
    ensures Words(SnapshotLine(e)) ==
      [Print(e.signature), Decimal(e.record.entered), Decimal(e.record.updated), Decimal(e.record.reportCount)]
    ensures DecodeSignature(Print(e.signature)) == Some(e.signature)
    ensures DigitsValue(Decimal(e.record.entered)) == e.record.entered
    ensures DigitsValue(Decimal(e.record.updated)) == e.record.updated
    ensures DigitsValue(Decimal(e.record.reportCount)) == e.record.reportCount
  {
    var columns := ColumnsSplit(e.record.entered, e.record.updated, e.record.reportCount);
    PrintHasNoSpace(e.signature);
    WordsOfWord(Print(e.signature), columns);
    PrintDecodeRoundTrip(e.signature, e.signature);
    DecimalValue(e.record.entered);
    DecimalValue(e.record.updated);
    DecimalValue(e.record.reportCount);
  }

  lemma PrintHasNoSpace(h: Signature)
    ensures |Print(h)| > 0 && NoSpace(Print(h))
  {
    var hex := Print(h);
    forall i | 0 <= i < |hex|
      ensures !IsSpace(hex[i])
    {
      assert IsHexDigit(hex[i]);
    }
  }

  /** The three numeric columns split into their digits. */
  lemma ColumnsSplit(a: nat, b: nat, c: nat) returns (columns: string)
    ensures columns == Column(a) + (Column(b) + Column(c))
    ensures columns[0] == ' '
    ensures Words(columns) == [Decimal(a), Decimal(b), Decimal(c)]
  {
    var c1, c2, c3 := Column(a), Column(b), Column(c);
    columns := c1 + (c2 + c3);
    WordsOfColumn(c, []);
    assert c3 + [] == c3;
    WordsOfColumn(b, c3);
    WordsOfColumn(a, c2 + c3);
  }

  // ------------------------------------------------------ send-update.py

  /** The interpreter's native long: its byte order and whether it is 8 bytes wide (LP64) or 4 (ILP32). */
  datatype Host = Host(littleEndian: bool, lp64: bool)

  /** The `types` table; any other name raises KeyError. */
  function OpCode(name: string): (r: Option<u32>)
  {
    if name == "erase" then Some(Updates.ERASE)
    else if name == "report" then Some(Updates.REPORT)
    else if name == "whitelist" then Some(Updates.WHITELIST)
    else None
  }

  /** The table agrees with the daemons' names for update types, both ways. */
  lemma OpCodeNames(name: string, code: u32)
    ensures OpCode(name) == Some(code) ==> Updates.KindName(false, code) == name
    ensures code <= Updates.WHITELIST ==> OpCode(Updates.KindName(false, code)) == Some(code)
  {
  }

  /**
   * str.decode('hex'): pairs of hex digits of either case, one byte each;
   * an odd length or any other character raises TypeError.
   */
  function HexDecode(s: string): (r: Option<seq<byte>>)
    ensures r.Some? <==> |s| % 2 == 0 && forall i :: 0 <= i < |s| ==> IsHexDigit(s[i])
    ensures r.Some? ==> (|r.value| == |s| / 2
      && forall i :: 0 <= i < |s| / 2 ==> r.value[i] == HexValue(s[2 * i]) * 16 + HexValue(s[2 * i + 1]))
    decreases |s|
  {
    if |s| == 0 then Some([])
    else if |s| == 1 || !IsHexDigit(s[0]) || !IsHexDigit(s[1]) then None
    else
      match HexDecode(s[2..])
      case None => None
      case Some(rest) =>
        assert forall i :: 2 <= i < |s| ==> s[i] == s[2..][i - 2];
        HexDecodeStep(s, rest);
        Some([HexValue(s[0]) * 16 + HexValue(s[1])] + rest)
  }

  /** One step of the decoding: the first pair's byte in front of the rest's bytes decodes the whole text. */
  lemma HexDecodeStep(s: string, rest: seq<byte>)
    requires |s| >= 2 && forall i :: 0 <= i < |s| ==> IsHexDigit(s[i])
    requires |rest| == |s[2..]| / 2
    requires forall i :: 0 <= i < |s[2..]| / 2 ==> rest[i] == HexValue(s[2..][2 * i]) * 16 + HexValue(s[2..][2 * i + 1])
    ensures var out := [HexValue(s[0]) * 16 + HexValue(s[1])] + rest;
      |out| == |s| / 2
      && forall i :: 0 <= i < |s| / 2 ==> out[i] == HexValue(s[2 * i]) * 16 + HexValue(s[2 * i + 1])
  {
    var out := [HexValue(s[0]) * 16 + HexValue(s[1])] + rest;
    forall i | 1 <= i < |s| / 2
      ensures out[i] == HexValue(s[2 * i]) * 16 + HexValue(s[2 * i + 1])
    {
      assert out[i] == rest[i - 1];
      assert s[2 * i] == s[2..][2 * (i - 1)] && s[2 * i + 1] == s[2..][2 * (i - 1) + 1];
    }
  }

  /** Decoding what the daemons print gives the bytes back. */
  lemma HexDecodePrinted(h: Signature)
    ensures HexDecode(Print(h)) == Some(h)
  {
    var s := Print(h);
    assert |s| % 2 == 0;
    assert forall i :: 0 <= i < |s| ==> IsHexDigit(s[i]);
    var r := HexDecode(s);
    assert r.Some? && |r.value| == |h|;
    forall i | 0 <= i < |h|
      ensures r.value[i] == h[i]
    {
      assert s[2 * i] == HexByte(h[i])[0] && s[2 * i + 1] == HexByte(h[i])[1];
    }
    assert r.value == h;
  }

  /** struct '20s': the first twenty bytes, NUL-padded when the string is shorter. */
  function Field20(b: seq<byte>): (f: Signature)
    ensures |b| >= SIGNATURE_SIZE ==> f == b[..SIGNATURE_SIZE]
    ensures |b| < SIGNATURE_SIZE ==> f[..|b|] == b && forall i :: |b| <= i < SIGNATURE_SIZE ==> f[i] == 0
  {
    if |b| >= SIGNATURE_SIZE then b[..SIGNATURE_SIZE] else b + seq(SIGNATURE_SIZE - |b|, _ => 0)
  }

  /** A forty-digit hex argument names the same signature for the sender as for the daemons' parser. */
  lemma HexArgumentAgrees(arg: string)
    requires |arg| == HEX_SIZE && forall i :: 0 <= i < |arg| ==> IsHexDigit(arg[i])
    ensures HexDecode(arg).Some? && DecodeSignature(arg).Some?
    ensures Field20(HexDecode(arg).value) == DecodeSignature(arg).value
  {
    var b := HexDecode(arg).value;
    var h := DecodeSignature(arg).value;
    forall i | 0 <= i < SIGNATURE_SIZE
      ensures b[i] == h[i]
    {
      assert IsHexDigit(arg[2 * i]) && IsHexDigit(arg[2 * i + 1]);
    }
  }

  /** The command's signature argument: 'random' takes a fresh digest, anything else is hex. */
  function SignatureArgument(arg: string, random: Signature): (r: Option<seq<byte>>)
    ensures arg == "random" ==> r == Some(random)
    ensures arg != "random" ==> r == HexDecode(arg)
  {
    if arg == "random" then Some(random) else HexDecode(arg)
  }

  /** An unsigned long in the host's size and byte order. */
  function NativeLong(host: Host, x: u32): (b: seq<byte>)
    ensures |b| == (if host.lp64 then 8 else 4)
  {
    var be := BE32(x);
    var le := [be[3], be[2], be[1], be[0]];
    if host.lp64 then (if host.littleEndian then le + [0, 0, 0, 0] else [0, 0, 0, 0] + be)
    else (if host.littleEndian then le else be)
  }

  /**
   * generateUpdate as written, struct '20sLL' in native mode: native size,
   * native byte order, and on LP64 four pad bytes that align the first long.
   */
  function GenerateUpdateAsWritten(host: Host, code: u32, signature: seq<byte>, time: u32): (b: seq<byte>)
    ensures |b| == (if host.lp64 then 40 else Updates.UPDATE_SIZE)
    ensures b[..SIGNATURE_SIZE] == Field20(signature)
  {
    Field20(signature) + (if host.lp64 then [0, 0, 0, 0] else []) + NativeLong(host, code) + NativeLong(host, time)
  }

  /** generateUpdate in network order, struct '!20sLL': update.hpp's 28-byte layout. */
  function GenerateUpdate(code: u32, signature: seq<byte>, time: u32): (b: seq<byte>)
    ensures |b| == Updates.UPDATE_SIZE
    ensures Updates.Decode(b) == Updates.Update(Field20(signature), code, time)
  {
    var u := Updates.Make(Field20(signature), code, time);
    Updates.EncodeDecode(u);
    Updates.Encode(u)
  }

  /** The master's session reads exactly the update meant, on every host. */
  lemma GenerateUpdateDelivers(code: u32, signature: seq<byte>, time: u32)
    ensures Updates.ReadUpdates(GenerateUpdate(code, signature, time)) == [Updates.Update(Field20(signature), code, time)]
  {
    var u := Updates.Update(Field20(signature), code, time);
    Updates.ReadAfterSend([u], []);
    assert Updates.EncodeAll([u]) + [] == Updates.Encode(u);
  }

  /**
   * On an LP64 host the message is 40 bytes: the master reads one update
   * from the first 28, whose type field is the alignment padding, and drops
   * the rest. Every request therefore arrives as an erase.
   */
  lemma LP64UpdateArrivesAsErase(host: Host, code: u32, signature: seq<byte>, time: u32)
    requires host.lp64
    ensures var us := Updates.ReadUpdates(GenerateUpdateAsWritten(host, code, signature, time));
      |us| == 1 && us[0].hash == Field20(signature) && us[0].kind == Updates.ERASE
  {
    var b := GenerateUpdateAsWritten(host, code, signature, time);
    var us := Updates.ReadUpdates(b);
    assert |us| == 1;
    assert Updates.Encode(us[0]) == b[..28];
    assert BE32(us[0].kind) == b[20..24] == [0, 0, 0, 0];
    assert BE32(0) == [0, 0, 0, 0];
    BE32Injective(us[0].kind, 0);
  }

  /**
   * On a little-endian ILP32 host the size is right but both numbers arrive
   * byte-swapped; a report or whitelist request then carries a type the
   * master does not know, and the database is left as it was.
   */
  lemma ILP32LittleEndianSwapsFields(host: Host, code: u32, signature: seq<byte>, time: u32,
                                     s: Store.Store, now: u32)
    requires host.littleEndian && !host.lp64
    ensures Updates.ReadUpdates(GenerateUpdateAsWritten(host, code, signature, time))
      == [Updates.Update(Field20(signature), ByteSwap32(code), ByteSwap32(time))]
    ensures code == Updates.REPORT || code == Updates.WHITELIST ==>
      Store.ProcessUpdate(s, Updates.Update(Field20(signature), ByteSwap32(code), ByteSwap32(time)), now, true, true) == s
  {
    var u := Updates.Update(Field20(signature), ByteSwap32(code), ByteSwap32(time));
    ILP32LittleEndianLayout(host, code, signature, time);
    Updates.ReadAfterSend([u], []);
    assert Updates.EncodeAll([u]) + [] == Updates.Encode(u);
    if code == Updates.REPORT || code == Updates.WHITELIST {
      SwappedSmallCodeUnknown(code);
    }
  }

  lemma ILP32LittleEndianLayout(host: Host, code: u32, signature: seq<byte>, time: u32)
    requires host.littleEndian && !host.lp64
    ensures GenerateUpdateAsWritten(host, code, signature, time)
      == Updates.Encode(Updates.Update(Field20(signature), ByteSwap32(code), ByteSwap32(time)))
  {
  }

  /** A byte-swapped report or whitelist code has its value in the top byte, so it is no known update type. */
  lemma SwappedSmallCodeUnknown(code: u32)
    requires code == Updates.REPORT || code == Updates.WHITELIST
    ensures ByteSwap32(code) > Updates.WHITELIST
  {
    var r := ByteSwap32(code);
    BE32RoundTrip(r);
    assert BE32(code) == [0, 0, 0, code];
    assert BE32(r) == [code, 0, 0, 0];
    assert r == FromBE32([code, 0, 0, 0]) == code * 16777216;
  }

  /** Only a big-endian ILP32 host packs the update as update.hpp lays it out. */
  lemma ILP32BigEndianAgrees(host: Host, code: u32, signature: seq<byte>, time: u32)
    requires !host.littleEndian && !host.lp64
    ensures GenerateUpdateAsWritten(host, code, signature, time) == GenerateUpdate(code, signature, time)
  {
  }

  /**
   * The whole script: the bytes it sends to the master on port 5555 with
   * the given host, operation name, signature argument, fresh digest and
   * clock; None when a bad argument raises before anything is sent.
   */
  function SendUpdateAsWritten(host: Host, op: string, arg: string, random: Signature, now: u32): (r: Option<seq<byte>>)
    ensures r.Some? <==> OpCode(op).Some? && SignatureArgument(arg, random).Some?
  {
    match (OpCode(op), SignatureArgument(arg, random))
    case (Some(code), Some(signature)) => Some(GenerateUpdateAsWritten(host, code, signature, now))
    case _ => None
  }

  /** The script sending the update.hpp layout. */
  function SendUpdate(op: string, arg: string, random: Signature, now: u32): (r: Option<seq<byte>>)
    ensures r.Some? <==> OpCode(op).Some? && SignatureArgument(arg, random).Some?
  {
    match (OpCode(op), SignatureArgument(arg, random))
    case (Some(code), Some(signature)) => Some(GenerateUpdate(code, signature, now))
    case _ => None
  }

  /**
   * Sending a named operation on a forty-digit signature delivers one
   * update with that type, the signature the daemons would parse from the
   * same text, and the sender's clock.
   */
  lemma SendUpdateDelivers(op: string, arg: string, random: Signature, now: u32)
    requires OpCode(op).Some?
    requires |arg| == HEX_SIZE && forall i :: 0 <= i < |arg| ==> IsHexDigit(arg[i])
    ensures SendUpdate(op, arg, random, now).Some?
    ensures Updates.ReadUpdates(SendUpdate(op, arg, random, now).value)
      == [Updates.Update(DecodeSignature(arg).value, OpCode(op).value, now)]
  {
    HexArgumentAgrees(arg);
    assert arg != "random" by {
      assert |"random"| == 6;
    }
    GenerateUpdateDelivers(OpCode(op).value, HexDecode(arg).value, now);
  }
}
