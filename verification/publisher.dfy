/**
 * The bohuno update publisher: every five minutes it expires old snapshot
 * and update files, then writes either a new full snapshot or an update
 * covering the records changed since the last file. Directory listings are
 * sequences of names in iteration order; the database dumps themselves are
 * the range dumps of the store, named here by their (min, max) arguments.
 */
module Publisher {
  import opened Wrappers
  import opened Bytes

  const TIMER_DELAY: nat := 5
  const TIMER_INTERVAL: int := 5 * 60
  const SNAPSHOT_INTERVAL: nat := 4 * 60 * 60
  /** Snapshots older than eight hours plus two hours of clock skew are removed. */
  const SNAPSHOT_MAX_AGE: nat := 8 * 60 * 60 + 2 * 60 * 60
  const NO_OLDEST: u32 := 0xffff_ffff
  const DB_DOWN_RETRY: nat := 5

  /** A directory entry: its leaf name and whether it is a regular file. */
  datatype DirEntry = DirEntry(name: string, regular: bool)

  /** boost::bad_lexical_cast, which nothing in the publisher catches. */
  datatype CastError = BadLexicalCast

  // ------------------------------------------------------------ names

  /** A timestamp name is exactly ten decimal digits. */
  predicate IsTimestamp(s: string) {
    |s| == 10 && AllDigits(s)
  }

  /** is_timestamp: the length test, then a digit test per character. */
  method CheckTimestamp(s: string) returns (b: bool)
    ensures b <==> IsTimestamp(s)
  {
    if |s| != 10 {
      return false;
    }
    var i := 0;
    while i < 10
      invariant 0 <= i <= 10
      invariant forall j :: 0 <= j < i ==> IsDigit(s[j])
    {
      if !IsDigit(s[i]) {
        return false;
      }
      i := i + 1;
    }
    return true;
  }

  /** lexical_cast<uint32_t> of a digit string: the value, or a failure when it does not fit. */
  function CastU32(s: string): (r: Result<u32, CastError>)
    requires AllDigits(s)
  {
    var v := DigitsValue(s);
    if v < TWO32 then Success(v) else Failure(BadLexicalCast)
  }

  /**
   * parse_snapshot_file_name: a regular file whose name is a timestamp gives
   * that timestamp; ten digits above 4294967295 make the cast throw.
   */
  function ParseSnapshotName(e: DirEntry): (r: Result<Option<u32>, CastError>)
    ensures r.Failure? <==> e.regular && IsTimestamp(e.name) && DigitsValue(e.name) >= TWO32
    ensures r.Success? && r.value.Some? <==> e.regular && IsTimestamp(e.name) && DigitsValue(e.name) < TWO32
    ensures r.Success? && r.value.Some? ==> r.value.value == DigitsValue(e.name)
  {
    if e.regular && IsTimestamp(e.name) then
      var t :- CastU32(e.name);
      Success(Some(t))
    else Success(None)
  }

  /**
   * parse_update_file_name: twenty characters whose two ten-character halves
   * are timestamps give (min, max); no file-type test is made.
   */
  function ParseUpdateName(name: string): (r: Result<Option<(u32, u32)>, CastError>)
    ensures r.Success? && r.value.Some? <==>
      (|name| == 20 && IsTimestamp(name[..10]) && IsTimestamp(name[10..])
       && DigitsValue(name[..10]) < TWO32 && DigitsValue(name[10..]) < TWO32)
    ensures r.Success? && r.value.Some? ==>
      r.value.value == (DigitsValue(name[..10]), DigitsValue(name[10..]))
    ensures r.Failure? ==> |name| == 20 && IsTimestamp(name[..10]) && IsTimestamp(name[10..])
  {
    if |name| == 20 && IsTimestamp(name[..10]) && IsTimestamp(name[10..]) then
      var min :- CastU32(name[..10]);
      var max :- CastU32(name[10..]);
      Success(Some((min, max)))
    else Success(None)
  }

  /** lexical_cast<std::string> of a signed time value. */
  function SignedDecimal(x: int): (s: string)
    ensures x >= 0 ==> s == Decimal(x)
    ensures x < 0 ==> s == "-" + Decimal(-x)
  {
    if x >= 0 then Decimal(x) else "-" + Decimal(-x)
  }

  predicate TenDigitValue(t: int) {
    1_000_000_000 <= t < TWO32
  }

  lemma TenDigits(t: nat)
    requires TenDigitValue(t)
    ensures IsTimestamp(Decimal(t)) && DigitsValue(Decimal(t)) == t
  {
    assert Pow10(9) == 1_000_000_000 && Pow10(10) == 10_000_000_000;
    DecimalLengthExact(t, 10);
    DecimalValue(t);
  }

  /** A snapshot written at a ten-digit time is read back as that time. */
  lemma SnapshotNameRoundTrip(t: nat)
    requires TenDigitValue(t)
    ensures ParseSnapshotName(DirEntry(Decimal(t), true)) == Success(Some(t))
  {
    TenDigits(t);
  }

  /** An update name made from two ten-digit times is read back as that range. */
  lemma UpdateNameRoundTrip(min: nat, max: nat)
    requires TenDigitValue(min) && TenDigitValue(max)
    ensures ParseUpdateName(Decimal(min) + Decimal(max)) == Success(Some((min, max)))
  {
    TenDigits(min);
    TenDigits(max);
    var name := Decimal(min) + Decimal(max);
    assert name[..10] == Decimal(min);
    assert name[10..] == Decimal(max);
  }

  // ------------------------------------------------------- directory scans

  /** The timestamp a scan sees for an entry: its parsed value, else `none`. */
  function StampOr(e: DirEntry, none: int): int {
    match ParseSnapshotName(e)
    case Success(Some(t)) => t
    case _ => none
  }

  predicate ScanFails(dir: seq<DirEntry>) {
    exists i :: 0 <= i < |dir| && ParseSnapshotName(dir[i]).Failure?
  }

  datatype Snapshot = Snapshot(name: string, timestamp: u32)

  /**
   * The loop of find_most_recent_snapshot: the greatest timestamp so far,
   * starting from 0 and replaced only by a strictly greater one, with the
   * name it came from.
   */
  function MostRecentScan(dir: seq<DirEntry>): (r: Result<Snapshot, CastError>)
    ensures r.Failure? <==> ScanFails(dir)
    ensures r.Success? ==> forall i :: 0 <= i < |dir| ==> StampOr(dir[i], 0) <= r.value.timestamp
    ensures r.Success? && r.value.timestamp > 0 ==>
      exists i :: 0 <= i < |dir| && dir[i].name == r.value.name && StampOr(dir[i], 0) == r.value.timestamp
        && forall j :: 0 <= j < i ==> StampOr(dir[j], 0) < r.value.timestamp
    decreases |dir|
  {
    if |dir| == 0 then Success(Snapshot("", 0))
    else
      var front := dir[..|dir| - 1];
      var last := dir[|dir| - 1];
      assert forall i :: 0 <= i < |front| ==> front[i] == dir[i];
      var acc :- MostRecentScan(front);
      var t :- ParseSnapshotName(last);
      if t.Some? && t.value > acc.timestamp then Success(Snapshot(last.name, t.value)) else Success(acc)
  }

  /** find_most_recent_snapshot: the scan's result unless no timestamp above 0 was seen. */
  function MostRecentSnapshot(dir: seq<DirEntry>): (r: Result<Option<Snapshot>, CastError>)
    ensures r.Failure? <==> ScanFails(dir)
    ensures r.Success? && r.value.None? ==> forall i :: 0 <= i < |dir| ==> StampOr(dir[i], 0) == 0
    ensures r.Success? && r.value.Some? ==>
      r.value.value.timestamp > 0
      && (forall i :: 0 <= i < |dir| ==> StampOr(dir[i], 0) <= r.value.value.timestamp)
      && exists i :: 0 <= i < |dir| && dir[i].name == r.value.value.name
           && StampOr(dir[i], 0) == r.value.value.timestamp
           && forall j :: 0 <= j < i ==> StampOr(dir[j], 0) < r.value.value.timestamp
  {
    var s :- MostRecentScan(dir);
    if s.timestamp != 0 then Success(Some(s)) else Success(None)
  }

  /** The loop of find_oldest_snapshot: the least timestamp, starting from the 0xffffffff sentinel. */
  function OldestScan(dir: seq<DirEntry>): (r: Result<Snapshot, CastError>)
    ensures r.Failure? <==> ScanFails(dir)
    ensures r.Success? ==> forall i :: 0 <= i < |dir| ==> r.value.timestamp <= StampOr(dir[i], NO_OLDEST)
    ensures r.Success? && r.value.timestamp < NO_OLDEST ==>
      exists i :: 0 <= i < |dir| && dir[i].name == r.value.name && StampOr(dir[i], NO_OLDEST) == r.value.timestamp
    decreases |dir|
  {
    if |dir| == 0 then Success(Snapshot("", NO_OLDEST))
    else
      var front := dir[..|dir| - 1];
      var last := dir[|dir| - 1];
      assert forall i :: 0 <= i < |front| ==> front[i] == dir[i];
      var acc :- OldestScan(front);
      var t :- ParseSnapshotName(last);
      if t.Some? && t.value < acc.timestamp then Success(Snapshot(last.name, t.value)) else Success(acc)
  }

  /**
   * find_oldest_snapshot: the least timestamp, or none when it is still the
   * sentinel, which also hides a snapshot named 4294967295.
   */
  function OldestSnapshot(dir: seq<DirEntry>): (r: Result<Option<Snapshot>, CastError>)
    ensures r.Failure? <==> ScanFails(dir)
    ensures r.Success? && r.value.None? ==> forall i :: 0 <= i < |dir| ==> StampOr(dir[i], NO_OLDEST) == NO_OLDEST
    ensures r.Success? && r.value.Some? ==>
      (forall i :: 0 <= i < |dir| ==> r.value.value.timestamp <= StampOr(dir[i], NO_OLDEST))
      && exists i :: 0 <= i < |dir| && dir[i].name == r.value.value.name
           && StampOr(dir[i], NO_OLDEST) == r.value.value.timestamp
  {
    var s :- OldestScan(dir);
    if s.timestamp != NO_OLDEST then Success(Some(s)) else Success(None)
  }

  /** The sentinel hides a lone snapshot written at the last second of 32-bit time. */
  lemma LastSecondSnapshotIsInvisible()
    ensures OldestSnapshot([DirEntry(Decimal(NO_OLDEST), true)]) == Success(None)
  {
    TenDigits(NO_OLDEST);
    assert [DirEntry(Decimal(NO_OLDEST), true)][..0] == [];
  }

  datatype UpdateFile = UpdateFile(name: string, min: u32, max: u32)

  function UpdateMax(name: string): int {
    match ParseUpdateName(name)
    case Success(Some(r)) => r.1
    case _ => 0
  }

  predicate UpdateScanFails(dir: seq<string>) {
    exists i :: 0 <= i < |dir| && ParseUpdateName(dir[i]).Failure?
  }

  /** The loop of find_most_recent_update: the update with the strictly greatest max so far. */
  function MostRecentUpdateScan(dir: seq<string>): (r: Result<UpdateFile, CastError>)
    ensures r.Failure? <==> UpdateScanFails(dir)
    ensures r.Success? ==> forall i :: 0 <= i < |dir| ==> UpdateMax(dir[i]) <= r.value.max
    ensures r.Success? && r.value.max > 0 ==>
      exists i :: 0 <= i < |dir| && dir[i] == r.value.name
        && ParseUpdateName(dir[i]) == Success(Some((r.value.min, r.value.max)))
        && forall j :: 0 <= j < i ==> UpdateMax(dir[j]) < r.value.max
    decreases |dir|
  {
    if |dir| == 0 then Success(UpdateFile("", 0, 0))
    else
      var front := dir[..|dir| - 1];
      var last := dir[|dir| - 1];
      assert forall i :: 0 <= i < |front| ==> front[i] == dir[i];
      var acc :- MostRecentUpdateScan(front);
      var p :- ParseUpdateName(last);
      if p.Some? && p.value.1 > acc.max then Success(UpdateFile(last, p.value.0, p.value.1)) else Success(acc)
  }

  /** find_most_recent_update: none unless some update has a max above 0. */
  function MostRecentUpdate(dir: seq<string>): (r: Result<Option<UpdateFile>, CastError>)
    ensures r.Failure? <==> UpdateScanFails(dir)
    ensures r.Success? && r.value.None? ==> forall i :: 0 <= i < |dir| ==> UpdateMax(dir[i]) == 0
    ensures r.Success? && r.value.Some? ==>
      r.value.value.max > 0 && forall i :: 0 <= i < |dir| ==> UpdateMax(dir[i]) <= r.value.value.max
    ensures r.Success? && r.value.Some? ==>
      exists i :: 0 <= i < |dir| && dir[i] == r.value.value.name
        && ParseUpdateName(dir[i]) == Success(Some((r.value.value.min, r.value.value.max)))
  {
    var u :- MostRecentUpdateScan(dir);
    if u.max != 0 then Success(Some(u)) else Success(None)
  }

  // ------------------------------------------------------------- files

  /** A database dump to write: the file name and the [min, max] range of `updated` it covers. */
  datatype DumpPlan = DumpPlan(name: string, min: u32, max: u32)

  /**
   * make_snapshot's decision: a snapshot of everything updated up to now-1,
   * named now-1, once the latest snapshot (0 when there is none) is at least
   * four hours old. The age is a time_t minus a uint32_t, so on an ILP32
   * host it is an unsigned 32-bit difference.
   */
  function PlanSnapshot(lp64: bool, snapshots: seq<DirEntry>, now: int): (r: Result<Option<DumpPlan>, CastError>)
    ensures r.Failure? <==> ScanFails(snapshots)
    ensures r.Success? ==>
      var latest := MostRecentSnapshot(snapshots).value;
      var t := if latest.Some? then latest.value.timestamp else 0;
      (r.value.Some? <==> TimeMinus(lp64, now, t) >= SNAPSHOT_INTERVAL)
      && (r.value.Some? ==> r.value.value == DumpPlan(SignedDecimal(now - 1), 0, Wrap32(now - 1)))
  {
    var latest :- MostRecentSnapshot(snapshots);
    var t := if latest.Some? then latest.value.timestamp else 0;
    if TimeMinus(lp64, now, t) >= SNAPSHOT_INTERVAL then Success(Some(DumpPlan(SignedDecimal(now - 1), 0, Wrap32(now - 1))))
    else Success(None)
  }

  /**
   * A latest snapshot stamped later than the clock: on LP64 the negative age
   * holds the next snapshot back until the clock passes the stamp, while on
   * ILP32 the unsigned age is nearly 2^32 and a snapshot is made at once.
   */
  lemma SnapshotFromTheFuture(snapshots: seq<DirEntry>, now: int)
    requires MostRecentSnapshot(snapshots).Success? && MostRecentSnapshot(snapshots).value.Some?
    requires var t := MostRecentSnapshot(snapshots).value.value.timestamp;
      t - (TWO32 - SNAPSHOT_INTERVAL) <= now < t
    ensures PlanSnapshot(true, snapshots, now) == Success(None)
    ensures PlanSnapshot(false, snapshots, now).Success? && PlanSnapshot(false, snapshots, now).value.Some?
  {
  }

  /**
   * make_update's decision: the update starts where the latest update ended,
   * or at the latest snapshot when there is no update, ends at now-1, and is
   * named by its two ends; nothing is written when neither exists. The
   * start is copied into a time_t before it is printed, so on an ILP32 host
   * a start of 2^31 or more is printed negative.
   */
  function PlanUpdate(lp64: bool, updates: seq<string>, snapshots: seq<DirEntry>, now: int): (r: Result<Option<DumpPlan>, CastError>)
    ensures r.Success? && r.value.Some? ==>
      r.value.value.min > 0 && r.value.value.max == Wrap32(now - 1)
      && r.value.value.name == SignedDecimal(TimeOfU32(lp64, r.value.value.min)) + SignedDecimal(now - 1)
    ensures r.Success? && r.value.Some? && (lp64 || r.value.value.min < TWO31) ==>
      r.value.value.name == Decimal(r.value.value.min) + SignedDecimal(now - 1)
    ensures r.Success? && r.value.Some? && !lp64 && r.value.value.min >= TWO31 ==>
      r.value.value.name[0] == '-'
    ensures MostRecentUpdate(updates).Success? && MostRecentUpdate(updates).value.Some? ==>
      r.Success? && r.value.Some? && r.value.value.min == MostRecentUpdate(updates).value.value.max
    ensures MostRecentUpdate(updates) == Success(None) && MostRecentSnapshot(snapshots).Success? ==>
      r.Success? && (r.value.Some? <==> MostRecentSnapshot(snapshots).value.Some?)
      && (r.value.Some? ==> r.value.value.min == MostRecentSnapshot(snapshots).value.value.timestamp)
    ensures r.Failure? ==> UpdateScanFails(updates) || ScanFails(snapshots)
  {
    var lastUpdate :- MostRecentUpdate(updates);
    var start :- if lastUpdate.Some? then Success(lastUpdate.value.max)
                 else
                   var snap :- MostRecentSnapshot(snapshots);
                   Success(if snap.Some? then snap.value.timestamp else 0);
    if start != 0 then Success(Some(DumpPlan(SignedDecimal(TimeOfU32(lp64, start)) + SignedDecimal(now - 1), start, Wrap32(now - 1))))
    else Success(None)
  }

  /**
   * Successive updates chain: the name of the update written at `now` parses
   * back with the previous update's end as its start, so no interval between
   * two updates is left uncovered. On ILP32 this needs the previous end to
   * be below 2^31; UpdatesChainBreaksOnIlp32 shows what happens otherwise.
   */
  lemma UpdatesChain(lp64: bool, updates: seq<string>, snapshots: seq<DirEntry>, now: int)
    requires MostRecentUpdate(updates).Success? && MostRecentUpdate(updates).value.Some?
    requires TenDigitValue(MostRecentUpdate(updates).value.value.max) && TenDigitValue(now - 1)
    requires lp64 || MostRecentUpdate(updates).value.value.max < TWO31
    ensures var p := PlanUpdate(lp64, updates, snapshots, now).value.value;
      ParseUpdateName(p.name) == Success(Some((MostRecentUpdate(updates).value.value.max, now - 1)))
  {
    UpdateNameRoundTrip(MostRecentUpdate(updates).value.value.max, now - 1);
  }

  /**
   * On ILP32 an update ending at 2^31 or later is followed by one whose
   * name starts with '-', which parse_update_file_name does not accept as
   * an update name.
   */
  lemma UpdatesChainBreaksOnIlp32(updates: seq<string>, snapshots: seq<DirEntry>, now: int)
    requires MostRecentUpdate(updates).Success? && MostRecentUpdate(updates).value.Some?
    requires MostRecentUpdate(updates).value.value.max >= TWO31
    ensures var p := PlanUpdate(false, updates, snapshots, now).value.value;
      p.min == MostRecentUpdate(updates).value.value.max && ParseUpdateName(p.name) == Success(None)
  {
    var p := PlanUpdate(false, updates, snapshots, now).value.value;
    if |p.name| == 20 {
      assert p.name[..10][0] == '-';
    }
  }

  /** The entries of a listing kept and removed by an expiry pass, each in listing order. */
  datatype Split<T> = Split(kept: seq<T>, removed: seq<T>)

  /**
   * expire_snapshots: every snapshot whose timestamp is below now minus ten
   * hours (in 32-bit arithmetic) is removed; other entries are kept.
   */
  function ExpireSnapshots(dir: seq<DirEntry>, clock: int): (r: Result<Split<DirEntry>, CastError>)
    ensures r.Failure? <==> ScanFails(dir)
    ensures r.Success? ==>
      |r.value.kept| + |r.value.removed| == |dir|
      && (forall i :: 0 <= i < |r.value.removed| ==>
            (r.value.removed[i] in dir && StampOr(r.value.removed[i], NO_OLDEST) < Wrap32(clock - SNAPSHOT_MAX_AGE)))
      && (forall i :: 0 <= i < |r.value.kept| ==>
            (r.value.kept[i] in dir && StampOr(r.value.kept[i], TWO32) >= Wrap32(clock - SNAPSHOT_MAX_AGE)))
    decreases |dir|
  {
    if |dir| == 0 then Success(Split([], []))
    else
      var rest :- ExpireSnapshots(dir[1..], clock);
      assert forall e :: e in dir[1..] ==> e in dir;
      var t :- ParseSnapshotName(dir[0]);
      if t.Some? && t.value < Wrap32(clock - SNAPSHOT_MAX_AGE) then Success(Split(rest.kept, [dir[0]] + rest.removed))
      else Success(Split([dir[0]] + rest.kept, rest.removed))
  }

  /** The comment's promise to keep two recent snapshots does not hold: old enough snapshots all go. */
  lemma ExpireSnapshotsKeepsNoMinimum(t1: nat, t2: nat, clock: int)
    requires TenDigitValue(t1) && TenDigitValue(t2)
    requires t1 < Wrap32(clock - SNAPSHOT_MAX_AGE) && t2 < Wrap32(clock - SNAPSHOT_MAX_AGE)
    ensures var dir := [DirEntry(Decimal(t1), true), DirEntry(Decimal(t2), true)];
      ExpireSnapshots(dir, clock) == Success(Split([], dir))
  {
    var dir := [DirEntry(Decimal(t1), true), DirEntry(Decimal(t2), true)];
    TenDigits(t1);
    TenDigits(t2);
    assert ParseSnapshotName(dir[0]) == Success(Some(t1));
    assert ParseSnapshotName(dir[1]) == Success(Some(t2));
    assert dir[1..] == [dir[1]];
    assert [dir[1]][1..] == [];
    var one := [dir[1]];
    assert ExpireSnapshots(one[1..], clock) == Success(Split([], []));
    assert ParseSnapshotName(one[0]) == Success(Some(t2));
    assert ExpireSnapshots(one, clock) == Success(Split([], [one[0]] + []));
    assert [one[0]] + [] == one;
    assert dir[1..] == one;
    assert ExpireSnapshots(dir, clock) == Success(Split([], [dir[0]] + one));
    assert [dir[0]] + one == dir;
  }

  /** expire_updates: every update whose max is below the oldest remaining snapshot is removed. */
  function ExpireUpdates(dir: seq<string>, oldest: u32): (r: Result<Split<string>, CastError>)
    ensures r.Failure? <==> UpdateScanFails(dir)
    ensures r.Success? ==>
      |r.value.kept| + |r.value.removed| == |dir|
      && (forall i :: 0 <= i < |r.value.removed| ==>
            (r.value.removed[i] in dir && ParseUpdateName(r.value.removed[i]).Success?
             && ParseUpdateName(r.value.removed[i]).value.Some? && UpdateMax(r.value.removed[i]) < oldest))
      && (forall i :: 0 <= i < |r.value.kept| ==>
            (r.value.kept[i] in dir
             && (ParseUpdateName(r.value.kept[i]) == Success(None) || UpdateMax(r.value.kept[i]) >= oldest)))
    decreases |dir|
  {
    if |dir| == 0 then Success(Split([], []))
    else
      var rest :- ExpireUpdates(dir[1..], oldest);
      assert forall e :: e in dir[1..] ==> e in dir;
      var p :- ParseUpdateName(dir[0]);
      if p.Some? && p.value.1 < oldest then Success(Split(rest.kept, [dir[0]] + rest.removed))
      else Success(Split([dir[0]] + rest.kept, rest.removed))
  }

  // -------------------------------------------------------------- tick

  /**
   * The outcome of one timer tick of `snapshot`: the files removed, the
   * dumps whose files were written, and the delay before the next tick; or a crash when a
   * ten-digit name does not fit in 32 bits.
   */
  datatype TickOutcome =
    | Crashed
    | Ticked(removedSnapshots: seq<DirEntry>, removedUpdates: seq<string>,
             snapshot: Option<DumpPlan>, update: Option<DumpPlan>, delay: int)

  /**
   * updated::snapshot. With the database down, retry in five seconds.
   * Otherwise expire snapshots (read against a second clock reading),
   * expire updates only if a snapshot went, write a snapshot when one is
   * due, and if none was written (not due, or its dump failed) write an
   * update; the next tick is five minutes after this one started. The
   * outcomes of the two database dumps are parameters; a failed dump is
   * logged and leaves no file.
   */
  function Tick(lp64: bool, up: bool, snapshots: seq<DirEntry>, updates: seq<string>, now: int, clock: int,
                snapshotDumpOk: bool, updateDumpOk: bool, elapsed: int): (r: TickOutcome)
    ensures !up ==> r == Ticked([], [], None, None, DB_DOWN_RETRY)
    ensures r.Ticked? && r.removedUpdates != [] ==> r.removedSnapshots != []
    ensures r.Ticked? && r.snapshot.Some? ==> r.update.None?
    ensures r.Ticked? && up ==> r.delay == TIMER_INTERVAL - elapsed
    ensures up && !ScanFails(snapshots) && !UpdateScanFails(updates) ==> r.Ticked?
    ensures up && r.Ticked? ==>
      var snaps := ExpireSnapshots(snapshots, clock);
      snaps.Success? && r.removedSnapshots == snaps.value.removed
      && var us := UpdatesExpiry(snaps.value, updates);
      us.Success? && r.removedUpdates == us.value.removed
      && var plan := PlanSnapshot(lp64, snaps.value.kept, now);
      plan.Success?
      && (r.snapshot.Some? <==> plan.value.Some? && snapshotDumpOk)
      && (r.snapshot.Some? ==> r.snapshot == plan.value)
      && (r.snapshot.None? ==>
            var pu := PlanUpdate(lp64, us.value.kept, snaps.value.kept, now);
            pu.Success?
            && (r.update.Some? <==> pu.value.Some? && updateDumpOk)
            && (r.update.Some? ==> r.update == pu.value))
  {
    if !up then Ticked([], [], None, None, DB_DOWN_RETRY)
    else
      match ExpireSnapshots(snapshots, clock)
      case Failure(_) => Crashed
      case Success(snaps) =>
        assert !ScanFails(snapshots) ==> !ScanFails(snaps.kept);
        match UpdatesExpiry(snaps, updates)
        case Failure(_) => Crashed
        case Success(us) =>
          assert !UpdateScanFails(updates) ==> !UpdateScanFails(us.kept);
          match PlanSnapshot(lp64, snaps.kept, now)
          case Failure(_) => Crashed
          case Success(plan) =>
            if plan.Some? && snapshotDumpOk then
              Ticked(snaps.removed, us.removed, plan, None, TIMER_INTERVAL - elapsed)
            else
              match PlanUpdate(lp64, us.kept, snaps.kept, now)
              case Failure(_) => Crashed
              case Success(u) =>
                Ticked(snaps.removed, us.removed, None, if updateDumpOk then u else None, TIMER_INTERVAL - elapsed)
  }

  /**
   * The update expiry of a tick: it runs only when some snapshot was
   * removed and a snapshot remains, against the oldest remaining one;
   * otherwise every update is kept.
   */
  function UpdatesExpiry(snaps: Split<DirEntry>, updates: seq<string>): (r: Result<Split<string>, CastError>)
    ensures r.Success? && r.value.removed != [] ==> snaps.removed != []
    ensures r.Success? && r.value.removed != [] ==>
      OldestSnapshot(snaps.kept).Success? && OldestSnapshot(snaps.kept).value.Some?
      && forall i :: 0 <= i < |r.value.removed| ==>
           UpdateMax(r.value.removed[i]) < OldestSnapshot(snaps.kept).value.value.timestamp
    ensures r.Success? ==> |r.value.kept| + |r.value.removed| == |updates|
    ensures r.Success? ==> forall i :: 0 <= i < |r.value.kept| ==> r.value.kept[i] in updates
    ensures r.Failure? ==> ScanFails(snaps.kept) || UpdateScanFails(updates)
  {
    if snaps.removed == [] then Success(Split(updates, []))
    else
      match OldestSnapshot(snaps.kept)
      case Failure(e) => Failure(e)
      case Success(None) => Success(Split(updates, []))
      case Success(Some(o)) => ExpireUpdates(updates, o.timestamp)
  }
}
