/**
 * The signature store: the primary hash database from signature to record,
 * and the secondary B-tree index the database maintains over it, keyed by
 * the record's `updated` time with duplicates ordered by signature.
 * Operations of the master (apply updates, expire), of the replica-side
 * database (get, dumps) and of the bohuno client (lookup, import) live here.
 */
module Store {
  import opened Bytes
  import opened Wrappers
  import opened Hashes
  import opened Records
  import opened Updates
  import opened Dump

  type Store = map<Signature, Record>

  const MAX_RECORD_AGE: nat := 3 * 28 * 86400
  const MAX_RECORDS_TO_EXPIRE: nat := 3600
  const EXPIRE_INTERVAL: nat := 60
  const IMPORT_BATCH_SIZE: nat := 25000
  const EXPORT_PROGRESS_EVERY: nat := 100000

  // -------------------------------------------------------------- index

  /**
   * create_time_key: the secondary key is the `sizeof(time_t)` bytes stored
   * from the record's `updated_` field on. With a 32-bit time_t that is the
   * big-endian update time; on an LP64 host time_t has eight bytes, so the
   * key runs on into `report_count_`, the next field of the record.
   */
  function TimeKey(r: Record, lp64: bool): (k: seq<byte>)
    ensures |k| == (if lp64 then 8 else 4)
    ensures FromBE32(k[..4]) == r.updated
    ensures lp64 ==> FromBE32(k[4..]) == r.reportCount
  {
    BE32RoundTrip(r.updated);
    BE32RoundTrip(r.reportCount);
    var k := BE32(r.updated) + (if lp64 then BE32(r.reportCount) else []);
    assert k[..4] == BE32(r.updated);
    assert lp64 ==> k[4..] == BE32(r.reportCount);
    k
  }

  /**
   * compare_time_key: ntohl both keys and compare the numbers. The function
   * is declared but no database registers it (there is no set_bt_compare),
   * so the index is ordered by Berkeley DB's default byte comparison.
   */
  function CompareTimeKey(a: seq<byte>, b: seq<byte>): (c: int)
    requires |a| == 4 && |b| == 4
  {
    var x, y := FromBE32(a), FromBE32(b);
    if x < y then -1 else if x > y then 1 else 0
  }

  /**
   * On a 32-bit key the comparator orders entries by update time, and agrees
   * with the byte comparison the database actually uses.
   */
  lemma CompareTimeKeyOrdersByTime(r1: Record, r2: Record)
    ensures CompareTimeKey(TimeKey(r1, false), TimeKey(r2, false)) < 0 <==> r1.updated < r2.updated
    ensures CompareTimeKey(TimeKey(r1, false), TimeKey(r2, false)) == 0 <==> r1.updated == r2.updated
    ensures CompareTimeKey(TimeKey(r1, false), TimeKey(r2, false)) == -CompareTimeKey(TimeKey(r2, false), TimeKey(r1, false))
    ensures CompareTimeKey(TimeKey(r1, false), TimeKey(r2, false)) < 0 <==> BytesLess(TimeKey(r1, false), TimeKey(r2, false))
  {
    assert TimeKey(r1, false) == BE32(r1.updated) && TimeKey(r2, false) == BE32(r2.updated);
    BE32OrderIsNumeric(r1.updated, r2.updated);
  }

  /**
   * Index order (DB_DUP|DB_DUPSORT with default comparisons): by key, then
   * duplicates by signature bytes. The key is the update time, followed on
   * LP64 hosts by the report count.
   */
  predicate Before(lp64: bool, s: Store, a: Signature, b: Signature)
    requires a in s && b in s
  {
    s[a].updated < s[b].updated
    || (s[a].updated == s[b].updated && lp64 && s[a].reportCount < s[b].reportCount)
    || (s[a].updated == s[b].updated && (!lp64 || s[a].reportCount == s[b].reportCount) && BytesLess(a, b))
  }

  /** The index order is the byte order of the keys, then of the signatures. */
  lemma BeforeIsKeyOrder(lp64: bool, s: Store, a: Signature, b: Signature)
    requires a in s && b in s
    ensures var ka, kb := TimeKey(s[a], lp64), TimeKey(s[b], lp64);
      Before(lp64, s, a, b) <==> BytesLess(ka, kb) || (ka == kb && BytesLess(a, b))
  {
    var x, y := s[a], s[b];
    var ka, kb := TimeKey(x, lp64), TimeKey(y, lp64);
    BE32OrderIsNumeric(x.updated, y.updated);
    BE32Injective(x.updated, y.updated);
    if lp64 {
      BE32OrderIsNumeric(x.reportCount, y.reportCount);
      BE32Injective(x.reportCount, y.reportCount);
      assert ka == BE32(x.updated) + BE32(x.reportCount);
      assert kb == BE32(y.updated) + BE32(y.reportCount);
      BytesLessAppend(BE32(x.updated), BE32(y.updated), BE32(x.reportCount), BE32(y.reportCount));
    } else {
      assert ka == BE32(x.updated) && kb == BE32(y.updated);
    }
  }

  /** `idx` lists every stored signature once, in index order. */
  predicate IsIndexOf(lp64: bool, s: Store, idx: seq<Signature>) {
    (forall i :: 0 <= i < |idx| ==> idx[i] in s)
    && (forall k :: k in s ==> k in idx)
    && (forall i, j {:trigger Before(lp64, s, idx[i], idx[j])} :: 0 <= i < j < |idx| ==> Before(lp64, s, idx[i], idx[j]))
  }

  lemma BeforeIrreflexive(lp64: bool, s: Store, a: Signature)
    requires a in s
    ensures !Before(lp64, s, a, a)
  {
    BytesLessIrreflexive(a);
  }

  lemma IndexDistinct(lp64: bool, s: Store, idx: seq<Signature>, i: nat, j: nat)
    requires IsIndexOf(lp64, s, idx) && i < |idx| && j < |idx| && i != j
    ensures idx[i] != idx[j]
  {
    if i < j {
      BeforeIrreflexive(lp64, s, idx[i]);
    } else {
      BeforeIrreflexive(lp64, s, idx[j]);
    }
  }

  /** The index of a store is unique: the ordering is total on distinct signatures. */
  lemma {:induction false} IndexUnique(lp64: bool, s: Store, idx1: seq<Signature>, idx2: seq<Signature>)
    requires IsIndexOf(lp64, s, idx1) && IsIndexOf(lp64, s, idx2)
    ensures idx1 == idx2
    decreases |idx1|
  {
    if |idx1| > 0 && |idx2| > 0 {
      var a, b := idx1[0], idx2[0];
      if a != b {
        assert a in idx2;
        var j :| 0 <= j < |idx2| && idx2[j] == a;
        assert b in idx1;
        var i :| 0 <= i < |idx1| && idx1[i] == b;
        assert Before(lp64, s, b, a) && Before(lp64, s, a, b);
        BytesLessTrichotomy(a, b);
        assert false;
      }
      var s' := map k | k in s && k != a :: s[k];
      forall i | 1 <= i < |idx1| ensures idx1[i] != a { IndexDistinct(lp64, s, idx1, 0, i); }
      forall i | 1 <= i < |idx2| ensures idx2[i] != a { IndexDistinct(lp64, s, idx2, 0, i); }
      forall k | k in s' ensures k in idx1[1..] && k in idx2[1..] {
        assert k in idx1 && k in idx2 && k != a;
      }
      SortedTail(lp64, s, s', idx1);
      SortedTail(lp64, s, s', idx2);
      IndexUnique(lp64, s', idx1[1..], idx2[1..]);
      assert idx1 == [a] + idx1[1..] && idx2 == [a] + idx2[1..];
    } else {
      IndexEmpty(lp64, s, idx1);
      IndexEmpty(lp64, s, idx2);
    }
  }

  lemma IndexEmpty(lp64: bool, s: Store, idx: seq<Signature>)
    requires IsIndexOf(lp64, s, idx)
    ensures |idx| == 0 <==> s == map[]
  {
    if |idx| > 0 {
      assert idx[0] in s;
    }
    if s != map[] {
      var k :| k in s;
      assert k in idx;
    }
  }

  lemma SortedTail(lp64: bool, s: Store, s': Store, idx: seq<Signature>)
    requires IsIndexOf(lp64, s, idx) && |idx| > 0
    requires s' == map k | k in s && k != idx[0] :: s[k]
    requires forall i :: 1 <= i < |idx| ==> idx[i] != idx[0]
    ensures forall i, j {:trigger Before(lp64, s', idx[1..][i], idx[1..][j])} ::
      0 <= i < j < |idx| - 1 ==> Before(lp64, s', idx[1..][i], idx[1..][j])
  {
    forall i, j | 0 <= i < j < |idx| - 1
      ensures Before(lp64, s', idx[1..][i], idx[1..][j])
    {
      assert Before(lp64, s, idx[i + 1], idx[j + 1]);
    }
  }

  /** DB_SET_RANGE: the first index position whose time is at least `from`. */
  function SetRange(lp64: bool, s: Store, idx: seq<Signature>, from: u32, i: nat): (p: nat)
    requires IsIndexOf(lp64, s, idx) && i <= |idx|
    requires forall j :: 0 <= j < i ==> s[idx[j]].updated < from
    ensures i <= p <= |idx|
    ensures forall j :: 0 <= j < p ==> s[idx[j]].updated < from
    ensures forall j :: p <= j < |idx| ==> s[idx[j]].updated >= from
    decreases |idx| - i
  {
    if i == |idx| then i
    else if s[idx[i]].updated >= from then
      assert forall j :: i <= j < |idx| ==> s[idx[j]].updated >= s[idx[i]].updated by {
        forall j | i < j < |idx| ensures s[idx[j]].updated >= s[idx[i]].updated {
          assert Before(lp64, s, idx[i], idx[j]);
        }
      }
      i
    else SetRange(lp64, s, idx, from, i + 1)
  }

  // ------------------------------------------------------- master updates

  /** The stored record, or the zeroed record the C++ starts from when there is none. */
  function Current(s: Store, h: Signature): (r: Record)
    ensures h in s ==> r == s[h]
    ensures h !in s ==> r == Zero
  {
    if h in s then s[h] else Zero
  }

  /**
   * master::process_update with its helpers. A report or whitelist update
   * applies record::report/whitelist with the update's time to the stored or
   * zero record; an erase resets it with the server's time and stores it even
   * when the signature was unknown; any other code is ignored. A failing get
   * (`getOk` false) or put (`putOk` false) aborts with the store unchanged.
   */
  function ProcessUpdate(s: Store, u: Update, now: u32, getOk: bool, putOk: bool): (s': Store)
    ensures forall k :: k != u.hash ==> (k in s' <==> k in s) && (k in s ==> s'[k] == s[k])
    ensures (u.kind > WHITELIST || !getOk || !putOk) ==> s' == s
    ensures getOk && putOk && u.kind == REPORT ==>
      u.hash in s' && s'[u.hash].reportCount == Wrap32(Current(s, u.hash).reportCount + 1)
      && s'[u.hash].whitelistCount == Current(s, u.hash).whitelistCount
    ensures getOk && putOk && u.kind == WHITELIST ==>
      u.hash in s' && s'[u.hash].whitelistCount == Wrap32(Current(s, u.hash).whitelistCount + 1)
      && s'[u.hash].reportCount == Current(s, u.hash).reportCount
    ensures getOk && putOk && u.kind == ERASE ==>
      u.hash in s' && Unreported(s'[u.hash]) && s'[u.hash].updated == now
      && s'[u.hash].entered == Current(s, u.hash).entered
    ensures getOk && putOk && u.kind == REPORT ==> s'[u.hash] == Records.Report(Current(s, u.hash), u.time, now)
    ensures getOk && putOk && u.kind == WHITELIST ==> s'[u.hash] == Records.Whitelist(Current(s, u.hash), u.time, now)
    ensures getOk && putOk && u.kind == ERASE ==> s'[u.hash] == Records.Reset(Current(s, u.hash), 0, now)
  {
    if !getOk || !putOk then s
    else if u.kind == REPORT then s[u.hash := Report(Current(s, u.hash), u.time, now)]
    else if u.kind == WHITELIST then s[u.hash := Whitelist(Current(s, u.hash), u.time, now)]
    else if u.kind == ERASE then s[u.hash := Reset(Current(s, u.hash), 0, now)]
    else s
  }

  /** A session's updates applied in arrival order, with no database failures. */
  function ApplyAll(s: Store, us: seq<Update>, now: u32): (s': Store)
    ensures forall k :: (forall i :: 0 <= i < |us| ==> us[i].hash != k) ==>
      (k in s' <==> k in s) && (k in s ==> s'[k] == s[k])
    decreases |us|
  {
    if |us| == 0 then s else ApplyAll(ProcessUpdate(s, us[0], now, true, true), us[1..], now)
  }

  /** n report updates of one signature, all stamped t. */
  function Reports(h: Signature, t: u32, n: nat): (us: seq<Update>)
    ensures |us| == n && forall i :: 0 <= i < n ==> us[i] == Update(h, REPORT, t)
    decreases n
  {
    if n == 0 then [] else [Update(h, REPORT, t)] + Reports(h, t, n - 1)
  }

  /** n reports of a fresh signature leave it with report count n (below 2^32). */
  lemma {:induction false} RepeatedReportsCount(s: Store, h: Signature, t: u32, now: u32, n: nat)
    requires h !in s && n < TWO32
    ensures var s' := ApplyAll(s, Reports(h, t, n), now);
      (n > 0 ==> h in s' && s'[h].reportCount == n && s'[h].whitelistCount == 0)
    decreases n
  {
    if n > 0 {
      var s1 := ProcessUpdate(s, Update(h, REPORT, t), now, true, true);
      assert ApplyAll(s, Reports(h, t, n), now) == ApplyAll(s1, Reports(h, t, n - 1), now);
      assert s1[h].reportCount == 1;
      RepeatedReportsFrom(s1, h, t, now, n - 1, 1);
    }
  }

  lemma {:induction false} RepeatedReportsFrom(s: Store, h: Signature, t: u32, now: u32, n: nat, c: nat)
    requires h in s && s[h].reportCount == c && s[h].whitelistCount == 0 && c + n < TWO32
    ensures var s' := ApplyAll(s, Reports(h, t, n), now);
      h in s' && s'[h].reportCount == c + n && s'[h].whitelistCount == 0
    decreases n
  {
    if n > 0 {
      var s1 := ProcessUpdate(s, Update(h, REPORT, t), now, true, true);
      assert ApplyAll(s, Reports(h, t, n), now) == ApplyAll(s1, Reports(h, t, n - 1), now);
      assert s1[h].reportCount == c + 1;
      RepeatedReportsFrom(s1, h, t, now, n - 1, c + 1);
    }
  }

  // -------------------------------------------------------------- expire

  predicate Expirable(r: Record, to: u32) {
    r.updated < to && r.reportCount <= 1
  }

  /**
   * The cursor walk of master::expire from index position i: it stops at the
   * first record not older than `to` or at the end of the index, and deletes
   * records with at most one report until `budget` deletions have been made.
   * The result lists the deleted positions in order.
   */
  function Sweep(lp64: bool, s: Store, idx: seq<Signature>, i: nat, to: u32, budget: nat): (ps: seq<nat>)
    requires IsIndexOf(lp64, s, idx) && i <= |idx| && budget > 0
    ensures |ps| <= budget
    ensures forall k :: 0 <= k < |ps| ==> i <= ps[k] < |idx| && Expirable(s[idx[ps[k]]], to)
    ensures forall a, b :: 0 <= a < b < |ps| ==> ps[a] < ps[b]
    decreases |idx| - i
  {
    if i == |idx| || s[idx[i]].updated >= to then []
    else if s[idx[i]].reportCount <= 1 then
      if budget == 1 then [i]
      else [i] + Sweep(lp64, s, idx, i + 1, to, budget - 1)
    else Sweep(lp64, s, idx, i + 1, to, budget)
  }

  /**
   * The sweep misses nothing: below its budget it deletes every expirable
   * record from position i on, and at its budget every expirable record it
   * left lies after the last one it deleted.
   */
  lemma {:induction false} SweepComplete(lp64: bool, s: Store, idx: seq<Signature>, i: nat, to: u32, budget: nat)
    requires IsIndexOf(lp64, s, idx) && i <= |idx| && budget > 0
    ensures var ps := Sweep(lp64, s, idx, i, to, budget);
      |ps| < budget ==> forall j :: i <= j < |idx| && Expirable(s[idx[j]], to) ==> j in ps
    decreases |idx| - i
  {
    var ps := Sweep(lp64, s, idx, i, to, budget);
    if i == |idx| {
    } else if s[idx[i]].updated >= to {
      forall j | i < j < |idx| ensures s[idx[j]].updated >= to {
        assert Before(lp64, s, idx[i], idx[j]);
      }
    } else if s[idx[i]].reportCount <= 1 {
      if budget > 1 {
        SweepComplete(lp64, s, idx, i + 1, to, budget - 1);
        assert ps == [i] + Sweep(lp64, s, idx, i + 1, to, budget - 1);
      }
    } else {
      SweepComplete(lp64, s, idx, i + 1, to, budget);
    }
  }

  /** At its budget, every expirable record the sweep left lies after the last one it deleted. */
  lemma {:induction false} SweepStopsInOrder(lp64: bool, s: Store, idx: seq<Signature>, i: nat, to: u32, budget: nat, j: nat)
    requires IsIndexOf(lp64, s, idx) && i <= j < |idx| && budget > 0
    requires Expirable(s[idx[j]], to)
    requires |Sweep(lp64, s, idx, i, to, budget)| == budget && j !in Sweep(lp64, s, idx, i, to, budget)
    ensures var ps := Sweep(lp64, s, idx, i, to, budget); j > ps[|ps| - 1]
    decreases |idx| - i
  {
    var ps := Sweep(lp64, s, idx, i, to, budget);
    if s[idx[i]].updated >= to {
      assert false;
    } else if s[idx[i]].reportCount <= 1 {
      assert j != i;
      if budget > 1 {
        var rest := Sweep(lp64, s, idx, i + 1, to, budget - 1);
        assert ps == [i] + rest;
        SweepStopsInOrder(lp64, s, idx, i + 1, to, budget - 1, j);
      }
    } else {
      assert j != i;
      SweepStopsInOrder(lp64, s, idx, i + 1, to, budget, j);
    }
  }

  /** The signatures at the given index positions. */
  function KeysAt(idx: seq<Signature>, ps: seq<nat>): (d: set<Signature>)
    requires forall k :: 0 <= k < |ps| ==> ps[k] < |idx|
    ensures forall k :: 0 <= k < |ps| ==> idx[ps[k]] in d
    ensures forall h :: h in d ==> exists k :: 0 <= k < |ps| && idx[ps[k]] == h
  {
    if |ps| == 0 then {} else {idx[ps[0]]} + KeysAt(idx, ps[1..])
  }

  lemma KeysAtCount(lp64: bool, s: Store, idx: seq<Signature>, ps: seq<nat>)
    requires IsIndexOf(lp64, s, idx)
    requires forall k :: 0 <= k < |ps| ==> ps[k] < |idx|
    requires forall a, b :: 0 <= a < b < |ps| ==> ps[a] < ps[b]
    ensures |KeysAt(idx, ps)| == |ps|
  {
    var q := seq(|ps|, k requires 0 <= k < |ps| => idx[ps[k]]);
    forall a, b | 0 <= a < b < |q| ensures q[a] != q[b] {
      IndexDistinct(lp64, s, idx, ps[a], ps[b]);
    }
    DistinctCard(q);
    var d := KeysAt(idx, ps);
    forall h | h in d ensures h in q {
      var k :| 0 <= k < |ps| && idx[ps[k]] == h;
      assert q[k] == h;
    }
    forall h | h in q ensures h in d {
      var k :| 0 <= k < |q| && q[k] == h;
      assert idx[ps[k]] in d;
    }
    assert d == set h | h in q;
  }

  datatype ExpireOutcome = ExpireOutcome(store: Store, deleted: nat, updatedTo: u32)

  /** The store with the given signatures deleted. */
  function Without(s: Store, gone: set<Signature>): (kept: Store)
    ensures forall k :: k in kept <==> k in s && k !in gone
    ensures forall k :: k in kept ==> kept[k] == s[k]
  {
    map k | k in s && k !in gone :: s[k]
  }

  /**
   * master::expire(updated_from, updated_to). Positions at the first index
   * entry not older than `from` and sweeps up to `to`, deleting at most 3600
   * records with at most one report. `updatedTo` comes back as the time of
   * the last deleted record; when the sweep started but deleted nothing it is
   * the htonl'd `from` the cursor key was built from (`le` is the host's byte
   * order), and when there was nothing at or after `from` it is `to` itself.
   */
  function Expire(lp64: bool, le: bool, s: Store, idx: seq<Signature>, from: u32, to: u32): (e: ExpireOutcome)
    requires IsIndexOf(lp64, s, idx)
    ensures e.deleted <= MAX_RECORDS_TO_EXPIRE
    ensures |e.store.Keys| + e.deleted == |s.Keys|
    ensures forall k :: k in e.store ==> k in s && e.store[k] == s[k]
    ensures forall k :: k in s && k !in e.store ==> from <= s[k].updated && Expirable(s[k], to)
    ensures e.deleted < MAX_RECORDS_TO_EXPIRE ==>
      forall k :: k in s && from <= s[k].updated && Expirable(s[k], to) ==> k !in e.store
    ensures e.deleted > 0 ==> from <= e.updatedTo < to
    ensures e.deleted > 0 ==> forall k :: k in s && k !in e.store ==> s[k].updated <= e.updatedTo
    ensures e.deleted == MAX_RECORDS_TO_EXPIRE ==>
      forall k :: k in e.store && from <= s[k].updated && Expirable(s[k], to) ==> e.updatedTo <= s[k].updated
    ensures e.deleted == 0 ==> e.store == s
    ensures e.deleted == 0 ==>
      e.updatedTo == (if exists k :: k in s && s[k].updated >= from then Htonl(le, from) else to)
  {
    var p := SetRange(lp64, s, idx, from, 0);
    if p == |idx| then
      assert !exists k :: k in s && s[k].updated >= from;
      ExpireOutcome(s, 0, to)
    else
      assert SweepStart(lp64, s, idx, from, p);
      SweepFrom(lp64, le, s, idx, from, to, p)
  }

  /** The sweep from position p, the first index entry not older than `from`. */
  function SweepFrom(lp64: bool, le: bool, s: Store, idx: seq<Signature>, from: u32, to: u32, p: nat): (e: ExpireOutcome)
    requires IsIndexOf(lp64, s, idx) && SweepStart(lp64, s, idx, from, p) && p < |idx|
    ensures e.deleted <= MAX_RECORDS_TO_EXPIRE
    ensures |e.store.Keys| + e.deleted == |s.Keys|
    ensures forall k :: k in e.store ==> k in s && e.store[k] == s[k]
    ensures e.deleted == 0 ==> e.store == s && e.updatedTo == Htonl(le, from)
    ensures exists k :: k in s && s[k].updated >= from
    ensures forall k :: k in s && k !in e.store ==> from <= s[k].updated && Expirable(s[k], to)
    ensures e.deleted < MAX_RECORDS_TO_EXPIRE ==>
      forall k :: k in s && from <= s[k].updated && Expirable(s[k], to) ==> k !in e.store
    ensures e.deleted > 0 ==> from <= e.updatedTo < to
    ensures e.deleted > 0 ==> forall k :: k in s && k !in e.store ==> s[k].updated <= e.updatedTo
    ensures e.deleted == MAX_RECORDS_TO_EXPIRE ==>
      forall k :: k in e.store && from <= s[k].updated && Expirable(s[k], to) ==> e.updatedTo <= s[k].updated
  {
    var ps := Sweep(lp64, s, idx, p, to, MAX_RECORDS_TO_EXPIRE);
    var e := ExpireOutcome(Without(s, KeysAt(idx, ps)), |ps|,
                           if |ps| > 0 then s[idx[ps[|ps| - 1]]].updated else Htonl(le, from));
    SweptSize(lp64, s, idx, to, p, ps, e);
    SweptBounds(lp64, s, idx, from, to, p, ps, e);
    e
  }

  /** What a sweep from index position p removes: at most 3600 records, each one counted. */
  lemma SweptSize(lp64: bool, s: Store, idx: seq<Signature>, to: u32, p: nat, ps: seq<nat>, e: ExpireOutcome)
    requires IsIndexOf(lp64, s, idx) && p < |idx|
    requires ps == Sweep(lp64, s, idx, p, to, MAX_RECORDS_TO_EXPIRE)
    requires e.store == Without(s, KeysAt(idx, ps)) && e.deleted == |ps|
    ensures e.deleted <= MAX_RECORDS_TO_EXPIRE
    ensures |e.store.Keys| + e.deleted == |s.Keys|
    ensures forall k :: k in e.store ==> k in s && e.store[k] == s[k]
    ensures e.deleted == 0 ==> e.store == s
  {
    RemovedCount(lp64, s, idx, ps, e.store);
  }

  /** Which records a sweep from the first entry not older than `from` removes, and where it stops. */
  lemma SweptBounds(lp64: bool, s: Store, idx: seq<Signature>, from: u32, to: u32, p: nat, ps: seq<nat>, e: ExpireOutcome)
    requires IsIndexOf(lp64, s, idx) && SweepStart(lp64, s, idx, from, p) && p < |idx|
    requires ps == Sweep(lp64, s, idx, p, to, MAX_RECORDS_TO_EXPIRE)
    requires e.store == Without(s, KeysAt(idx, ps)) && e.deleted == |ps|
    requires |ps| > 0 ==> e.updatedTo == s[idx[ps[|ps| - 1]]].updated
    ensures exists k :: k in s && s[k].updated >= from
    ensures forall k :: k in s && k !in e.store ==> from <= s[k].updated && Expirable(s[k], to)
    ensures e.deleted < MAX_RECORDS_TO_EXPIRE ==>
      forall k :: k in s && from <= s[k].updated && Expirable(s[k], to) ==> k !in e.store
    ensures e.deleted > 0 ==> from <= e.updatedTo < to
    ensures e.deleted > 0 ==> forall k :: k in s && k !in e.store ==> s[k].updated <= e.updatedTo
    ensures e.deleted == MAX_RECORDS_TO_EXPIRE ==>
      forall k :: k in e.store && from <= s[k].updated && Expirable(s[k], to) ==> e.updatedTo <= s[k].updated
  {
    ExpireFacts(lp64, s, idx, from, to, p, ps, e.store);
  }

  lemma RemovedCount(lp64: bool, s: Store, idx: seq<Signature>, ps: seq<nat>, kept: Store)
    requires IsIndexOf(lp64, s, idx)
    requires forall k :: 0 <= k < |ps| ==> ps[k] < |idx|
    requires forall a, b :: 0 <= a < b < |ps| ==> ps[a] < ps[b]
    requires kept == Without(s, KeysAt(idx, ps))
    ensures |kept.Keys| + |ps| == |s.Keys|
    ensures |ps| == 0 ==> kept == s
  {
    var gone := KeysAt(idx, ps);
    KeysAtCount(lp64, s, idx, ps);
    assert gone <= s.Keys;
    RemoveKeys(s, gone, kept);
  }

  /** Removing a set of stored keys shrinks the store by exactly that many. */
  lemma RemoveKeys(s: Store, gone: set<Signature>, kept: Store)
    requires gone <= s.Keys
    requires kept == Without(s, gone)
    ensures |kept.Keys| + |gone| == |s.Keys|
    ensures gone == {} ==> kept == s
  {
    var rest := s.Keys - gone;
    forall k ensures k in kept.Keys <==> k in rest {
    }
    assert kept.Keys == rest;
    assert s.Keys == rest + gone && rest * gone == {};
    if gone == {} {
      assert kept.Keys == s.Keys;
    }
  }

  lemma ExpireFacts(lp64: bool, s: Store, idx: seq<Signature>, from: u32, to: u32, p: nat, ps: seq<nat>, kept: Store)
    requires IsIndexOf(lp64, s, idx) && SweepStart(lp64, s, idx, from, p) && p < |idx|
    requires ps == Sweep(lp64, s, idx, p, to, MAX_RECORDS_TO_EXPIRE)
    requires kept == Without(s, KeysAt(idx, ps))
    ensures exists k :: k in s && s[k].updated >= from
    ensures forall k :: k in s && k !in kept ==> from <= s[k].updated && Expirable(s[k], to)
    ensures |ps| < MAX_RECORDS_TO_EXPIRE ==>
      forall k :: k in s && from <= s[k].updated && Expirable(s[k], to) ==> k !in kept
    ensures |ps| > 0 ==> from <= s[idx[ps[|ps| - 1]]].updated < to
    ensures |ps| > 0 ==> forall k :: k in s && k !in kept ==> s[k].updated <= s[idx[ps[|ps| - 1]]].updated
    ensures |ps| == MAX_RECORDS_TO_EXPIRE ==>
      forall k :: k in kept && from <= s[k].updated && Expirable(s[k], to) ==> s[idx[ps[|ps| - 1]]].updated <= s[k].updated
  {
    assert exists k :: k in s && s[k].updated >= from by {
      assert idx[p] in s && s[idx[p]].updated >= from;
    }
    forall k | k in s && k !in kept
      ensures from <= s[k].updated && Expirable(s[k], to)
    {
      SweptAreExpirable(lp64, s, idx, from, to, p, ps, k);
    }
    if |ps| < MAX_RECORDS_TO_EXPIRE {
      forall k | k in s && from <= s[k].updated && Expirable(s[k], to)
        ensures k !in kept
      {
        SweepTakesAllBelowBudget(lp64, s, idx, from, to, p, ps, k);
      }
    }
    if |ps| > 0 {
      var last := s[idx[ps[|ps| - 1]]].updated;
      assert from <= last < to;
      forall k | k in s && k !in kept
        ensures s[k].updated <= last
      {
        SweptNotAfterLast(lp64, s, idx, ps, k);
      }
      if |ps| == MAX_RECORDS_TO_EXPIRE {
        forall k | k in kept && from <= s[k].updated && Expirable(s[k], to)
          ensures last <= s[k].updated
        {
          LeftAfterLast(lp64, s, idx, from, to, p, ps, k);
        }
      }
    }
  }

  /** Where a sweep starts: every earlier entry is older than `from`, every later one is not. */
  predicate SweepStart(lp64: bool, s: Store, idx: seq<Signature>, from: u32, p: nat)
    requires IsIndexOf(lp64, s, idx)
  {
    p <= |idx|
    && (forall j :: 0 <= j < p ==> s[idx[j]].updated < from)
    && (forall j :: p <= j < |idx| ==> s[idx[j]].updated >= from)
  }

  lemma PositionOf(lp64: bool, s: Store, idx: seq<Signature>, k: Signature) returns (j: nat)
    requires IsIndexOf(lp64, s, idx) && k in s
    ensures j < |idx| && idx[j] == k
  {
    assert k in idx;
    j :| 0 <= j < |idx| && idx[j] == k;
  }

  lemma SweptAreExpirable(lp64: bool, s: Store, idx: seq<Signature>, from: u32, to: u32, p: nat, ps: seq<nat>, k: Signature)
    requires IsIndexOf(lp64, s, idx) && SweepStart(lp64, s, idx, from, p) && p < |idx|
    requires ps == Sweep(lp64, s, idx, p, to, MAX_RECORDS_TO_EXPIRE)
    requires k in KeysAt(idx, ps)
    ensures k in s && from <= s[k].updated && Expirable(s[k], to)
  {
    var a :| 0 <= a < |ps| && idx[ps[a]] == k;
  }

  lemma SweepTakesAllBelowBudget(lp64: bool, s: Store, idx: seq<Signature>, from: u32, to: u32, p: nat, ps: seq<nat>, k: Signature)
    requires IsIndexOf(lp64, s, idx) && SweepStart(lp64, s, idx, from, p) && p < |idx|
    requires ps == Sweep(lp64, s, idx, p, to, MAX_RECORDS_TO_EXPIRE) && |ps| < MAX_RECORDS_TO_EXPIRE
    requires k in s && from <= s[k].updated && Expirable(s[k], to)
    ensures k in KeysAt(idx, ps)
  {
    SweepComplete(lp64, s, idx, p, to, MAX_RECORDS_TO_EXPIRE);
    var j := PositionOf(lp64, s, idx, k);
    assert j >= p;
    var a :| 0 <= a < |ps| && ps[a] == j;
  }

  lemma SweptNotAfterLast(lp64: bool, s: Store, idx: seq<Signature>, ps: seq<nat>, k: Signature)
    requires IsIndexOf(lp64, s, idx) && |ps| > 0
    requires forall k :: 0 <= k < |ps| ==> ps[k] < |idx|
    requires forall a, b :: 0 <= a < b < |ps| ==> ps[a] < ps[b]
    requires k in KeysAt(idx, ps)
    ensures s[k].updated <= s[idx[ps[|ps| - 1]]].updated
  {
    var a :| 0 <= a < |ps| && idx[ps[a]] == k;
    if a < |ps| - 1 {
      assert Before(lp64, s, idx[ps[a]], idx[ps[|ps| - 1]]);
    }
  }

  lemma LeftAfterLast(lp64: bool, s: Store, idx: seq<Signature>, from: u32, to: u32, p: nat, ps: seq<nat>, k: Signature)
    requires IsIndexOf(lp64, s, idx) && SweepStart(lp64, s, idx, from, p) && p < |idx|
    requires ps == Sweep(lp64, s, idx, p, to, MAX_RECORDS_TO_EXPIRE) && |ps| == MAX_RECORDS_TO_EXPIRE
    requires k in s && k !in KeysAt(idx, ps) && from <= s[k].updated && Expirable(s[k], to)
    ensures s[idx[ps[|ps| - 1]]].updated <= s[k].updated
  {
    var j := PositionOf(lp64, s, idx, k);
    assert j >= p;
    if j in ps {
      assert false;
    }
    SweepStopsInOrder(lp64, s, idx, p, to, MAX_RECORDS_TO_EXPIRE, j);
    assert Before(lp64, s, idx[ps[|ps| - 1]], idx[j]);
  }

  // ----------------------------------------------------- expiry schedule

  /** The expire_status file: absent, present but unreadable, or holding the position reached. */
  datatype StatusFile = NoStatusFile | UnreadableStatusFile | StatusFile(position: u32)

  /** The effect of one expiry timer tick: the store, the status file and when to run again. */
  datatype ExpireRun = ExpireRun(store: Store, status: StatusFile, rescheduleIn: Option<nat>)

  function ExpireFrom(status: StatusFile): u32 {
    if status.StatusFile? then status.position else 0
  }

  /** The cut-off: now minus 84 days in 32-bit arithmetic. */
  function Cutoff(now: u32): u32 {
    Wrap32(now - MAX_RECORD_AGE)
  }

  /**
   * master::handle_expire. Reads where the last run stopped (0 without a
   * status file; an unreadable one ends the tick without rescheduling),
   * expires up to the cut-off, and when something was deleted persists the
   * time of the last deleted record (a failed write also ends the tick
   * without rescheduling). The next run is in one second while deletions
   * keep happening more than a minute behind the cut-off, else in a minute.
   */
  function HandleExpire(lp64: bool, le: bool, now: u32, status: StatusFile, s: Store, idx: seq<Signature>, writeOk: bool): (run: ExpireRun)
    requires IsIndexOf(lp64, s, idx)
    ensures status.UnreadableStatusFile? ==> run == ExpireRun(s, status, None)
    ensures forall k :: k in run.store ==> k in s && run.store[k] == s[k]
    ensures forall k :: k in s && k !in run.store ==>
      ExpireFrom(status) <= s[k].updated && Expirable(s[k], Cutoff(now))
    ensures run.status != status ==>
      run.status.StatusFile? && ExpireFrom(status) <= run.status.position < Cutoff(now)
    ensures run.store == s ==> run.status == status
    ensures run.rescheduleIn.Some? ==> run.rescheduleIn.value == 1 || run.rescheduleIn.value == EXPIRE_INTERVAL
    ensures run.rescheduleIn == Some(1) ==> run.store != s
    ensures !status.UnreadableStatusFile? && run.store == s ==> run.rescheduleIn == Some(EXPIRE_INTERVAL)
    ensures !status.UnreadableStatusFile? ==>
      var e := Expire(lp64, le, s, idx, ExpireFrom(status), Cutoff(now));
      && run.store == e.store
      && (run.rescheduleIn == Some(1) <==> run.store != s && writeOk && Wrap32(Cutoff(now) - e.updatedTo) > EXPIRE_INTERVAL)
      && (run.rescheduleIn.None? <==> run.store != s && !writeOk)
      && (run.store != s && writeOk ==> run.status == StatusFile(e.updatedTo))
  {
    if status.UnreadableStatusFile? then ExpireRun(s, status, None)
    else
      var e := Expire(lp64, le, s, idx, ExpireFrom(status), Cutoff(now));
      Reschedule(s, status, Cutoff(now), e, writeOk)
  }

  /**
   * The second half of handle_expire, once the expiry pass `e` has run: the
   * status file is written only after a deletion, and the delay follows.
   */
  function Reschedule(s: Store, status: StatusFile, to: u32, e: ExpireOutcome, writeOk: bool): (run: ExpireRun)
    requires |e.store.Keys| + e.deleted == |s.Keys|
    requires e.deleted == 0 ==> e.store == s
    ensures run.store == e.store
    ensures run.store == s ==> run.status == status && run.rescheduleIn == Some(EXPIRE_INTERVAL)
    ensures run.rescheduleIn.Some? ==> run.rescheduleIn.value == 1 || run.rescheduleIn.value == EXPIRE_INTERVAL
    ensures run.rescheduleIn == Some(1) <==> run.store != s && writeOk && Wrap32(to - e.updatedTo) > EXPIRE_INTERVAL
    ensures run.rescheduleIn.None? <==> run.store != s && !writeOk
    ensures run.store != s ==> e.deleted > 0
    ensures run.status != status ==> run.store != s && writeOk && run.status == StatusFile(e.updatedTo)
    ensures run.store != s && writeOk ==> run.status == StatusFile(e.updatedTo)
  {
    if e.deleted == 0 then ExpireRun(s, status, Some(EXPIRE_INTERVAL))
    else
      assert e.store != s by {
        assert |e.store.Keys| < |s.Keys|;
      }
      if !writeOk then ExpireRun(e.store, status, None)
      else
        var delay := if Wrap32(to - e.updatedTo) > EXPIRE_INTERVAL then 1 else EXPIRE_INTERVAL;
        ExpireRun(e.store, StatusFile(e.updatedTo), Some(delay))
  }

  /**
   * Expiry never loses its place: after a run, every record it could have
   * deleted but left (because the per-run limit was hit) is at or after the
   * newly persisted position, so the next run starting there still sees it.
   */
  lemma ExpireResumesWithoutSkipping(lp64: bool, le: bool, now: u32, status: StatusFile, s: Store, idx: seq<Signature>)
    requires IsIndexOf(lp64, s, idx) && !status.UnreadableStatusFile?
    ensures var run := HandleExpire(lp64, le, now, status, s, idx, true);
      forall k :: k in run.store && ExpireFrom(status) <= s[k].updated && Expirable(s[k], Cutoff(now)) ==>
        ExpireFrom(run.status) <= s[k].updated
  {
    var e := Expire(lp64, le, s, idx, ExpireFrom(status), Cutoff(now));
    if e.deleted > 0 {
      assert |e.store.Keys| < |s.Keys|;
    }
  }

  // ------------------------------------------------------ client lookups

  datatype Found = Found(found: bool, record: Record)

  /**
   * database::get: the record is zeroed first; a signature that is not 40
   * characters or is not stored yields "not found" with the zero record; a
   * stored record is returned, but counts as found only if it has a report
   * or a whitelisting.
   */
  function Get(s: Store, hex: string): (r: Found)
    ensures r.found <==> (DecodeSignature(hex).Some? && DecodeSignature(hex).value in s
                          && !Unreported(s[DecodeSignature(hex).value]))
    ensures r.record == if DecodeSignature(hex).Some? then Current(s, DecodeSignature(hex).value) else Zero
  {
    match DecodeSignature(hex)
    case None => Found(false, Zero)
    case Some(h) =>
      if h !in s then Found(false, Zero)
      else Found(!(s[h].reportCount == 0 && s[h].whitelistCount == 0), s[h])
  }

  /** After an erase reaches the master, lookups by that signature report "not found". */
  lemma EraseHidesSignature(s: Store, h: Signature, now: u32)
    ensures !Get(ProcessUpdate(s, Update(h, ERASE, 0), now, true, true), Print(h)).found
  {
    PrintDecodeRoundTrip(h, h);
  }

  /**
   * bohuno database::lookup as written: the test that is meant to say "not
   * reset" asks for both counts to be non-zero, so a signature that was only
   * reported (or only whitelisted) comes back "not found".
   */
  function LookupAsWritten(s: Store, h: Signature): (r: Found)
    ensures r.found <==> h in s && s[h].reportCount != 0 && s[h].whitelistCount != 0
    ensures r.found ==> Lookup(s, h).found
    ensures r.record == Current(s, h)
  {
    if h !in s then Found(false, Zero)
    else Found(s[h].reportCount != 0 && s[h].whitelistCount != 0, s[h])
  }

  lemma LookupAsWrittenMissesReported(s: Store, h: Signature)
    requires h in s && s[h].reportCount > 0 && s[h].whitelistCount == 0
    ensures !LookupAsWritten(s, h).found && Lookup(s, h).found
  {
  }

  /** bohuno database::lookup with the "not reset" test its comment describes (that of database::get). */
  function Lookup(s: Store, h: Signature): (r: Found)
    ensures r.found <==> h in s && !Unreported(s[h])
    ensures r.record == Current(s, h)
  {
    if h !in s then Found(false, Zero)
    else Found(!(s[h].reportCount == 0 && s[h].whitelistCount == 0), s[h])
  }

  /** The bohuno lookup by signature and the server lookup by its printed form agree. */
  lemma LookupAgreesWithGet(s: Store, h: Signature)
    ensures Lookup(s, h) == Get(s, Print(h))
  {
    PrintDecodeRoundTrip(h, h);
  }

  /**
   * lookup_last: DB_PREV on a fresh index cursor yields the last index entry,
   * i.e. a record with the greatest update time; none when the store is empty.
   */
  function LookupLast(lp64: bool, s: Store, idx: seq<Signature>): (r: Option<Record>)
    requires IsIndexOf(lp64, s, idx)
    ensures r.None? <==> s == map[]
    ensures r.Some? ==> exists k :: k in s && s[k] == r.value
    ensures r.Some? ==> forall k :: k in s ==> s[k].updated <= r.value.updated
  {
    IndexEmpty(lp64, s, idx);
    if |idx| == 0 then None
    else
      var last := idx[|idx| - 1];
      assert forall k :: k in s ==> s[k].updated <= s[last].updated by {
        forall k | k in s ensures s[k].updated <= s[last].updated {
          var j := PositionOf(lp64, s, idx, k);
          if j < |idx| - 1 {
            assert Before(lp64, s, idx[j], idx[|idx| - 1]);
          }
        }
      }
      Some(s[last])
  }

  /** database::empty: true exactly when lookup_last finds nothing. */
  function IsEmpty(lp64: bool, s: Store, idx: seq<Signature>): (b: bool)
    requires IsIndexOf(lp64, s, idx)
    ensures b <==> |s| == 0
  {
    LookupLast(lp64, s, idx).None?
  }

  /** database::insert: a put that replaces any previous record. */
  function Insert(s: Store, h: Signature, r: Record): (s': Store)
    ensures h in s' && s'[h] == r
    ensures forall k :: k != h ==> (k in s' <==> k in s) && (k in s ==> s'[k] == s[k])
  {
    s[h := r]
  }

  // ------------------------------------------------------ import / export

  function SignaturesOf(es: seq<Entry>): (ks: seq<Signature>)
    ensures |ks| == |es| && forall i :: 0 <= i < |es| ==> ks[i] == es[i].signature
  {
    seq(|es|, i requires 0 <= i < |es| => es[i].signature)
  }

  /** The entries put one after another, a later one replacing an earlier one with the same signature. */
  function PutAll(s: Store, es: seq<Entry>): (s': Store)
    ensures forall k :: k !in SignaturesOf(es) ==> (k in s' <==> k in s) && (k in s ==> s'[k] == s[k])
    ensures forall k :: k in SignaturesOf(es) ==> k in s'
    ensures |es| > 0 ==> s'[es[|es| - 1].signature] == es[|es| - 1].record
    decreases |es|
  {
    if |es| == 0 then s
    else
      assert SignaturesOf(es) == [es[0].signature] + SignaturesOf(es[1..]);
      PutAll(Insert(s, es[0].signature, es[0].record), es[1..])
  }

  datatype ImportOutcome = ImportOutcome(store: Store, count: nat, progress: seq<nat>)

  /**
   * bohuno database::import (and pyzord-import's copy of it): the version
   * word is read and ignored, every complete 52-byte record is put in stream
   * order (a later duplicate replaces an earlier one), and a progress
   * callback fires per 25000 records and once more at the end.
   */
  function Import(s: Store, stream: seq<byte>): (o: ImportOutcome)
    ensures o.count == |ReadDump(stream).entries|
    ensures o.store == PutAll(s, ReadDump(stream).entries)
    ensures o.progress == ImportProgress(o.count, |stream| >= HEADER_SIZE, IMPORT_BATCH_SIZE)
  {
    var rd := ReadDump(stream);
    ImportOutcome(PutAll(s, rd.entries), |rd.entries|, ImportProgress(|rd.entries|, rd.enteredLoop, IMPORT_BATCH_SIZE))
  }

  /** `order` lists every stored signature exactly once (the hash database's cursor order). */
  predicate IsEnumeration(s: Store, order: seq<Signature>) {
    (forall i :: 0 <= i < |order| ==> order[i] in s)
    && (forall k :: k in s ==> k in order)
    && (forall i, j :: 0 <= i < j < |order| ==> order[i] != order[j])
  }

  function EntriesOf(s: Store, order: seq<Signature>): (es: seq<Entry>)
    requires forall i :: 0 <= i < |order| ==> order[i] in s
    ensures |es| == |order|
    ensures forall i :: 0 <= i < |es| ==> es[i] == Entry(order[i], s[order[i]])
  {
    seq(|order|, i requires 0 <= i < |order| => Entry(order[i], s[order[i]]))
  }

  datatype DumpOutcome = DumpOutcome(bytes: seq<byte>, count: nat, progress: seq<nat>)

  /**
   * pyzord-export's dump: the version 2 header, then every record as
   * signature and image in cursor order, with a progress line per 100000.
   */
  function Export(s: Store, order: seq<Signature>): (o: DumpOutcome)
    requires IsEnumeration(s, order)
    ensures |o.bytes| >= HEADER_SIZE && o.bytes[..HEADER_SIZE] == Header(DUMP_VERSION)
    ensures o.count == |s.Keys|
    ensures ReadDump(o.bytes) == ImportRead(true, EntriesOf(s, order))
    ensures o.progress == ExportProgress(o.count, EXPORT_PROGRESS_EVERY)
  {
    var es := EntriesOf(s, order);
    ReadAfterWrite(es, []);
    assert EncodeDump(es) + [] == EncodeDump(es);
    EnumerationSize(s, order);
    DumpOutcome(EncodeDump(es), |order|, ExportProgress(|order|, EXPORT_PROGRESS_EVERY))
  }

  /** A list without repetitions has as many members as entries. */
  lemma {:induction false} DistinctCard(order: seq<Signature>)
    requires forall i, j :: 0 <= i < j < |order| ==> order[i] != order[j]
    ensures |set k | k in order| == |order|
    decreases |order|
  {
    if |order| > 0 {
      var tail := order[1..];
      DistinctCard(tail);
      assert (set k | k in order) == {order[0]} + (set k | k in tail);
      assert order[0] !in tail;
    }
  }

  lemma EnumerationSize(s: Store, order: seq<Signature>)
    requires IsEnumeration(s, order)
    ensures |order| == |s.Keys|
  {
    DistinctCard(order);
    assert s.Keys == set k | k in order;
  }

  /** Putting the entries of `order` over t, seen at one signature k. */
  lemma {:induction false} PutAllEntriesAt(t: Store, s: Store, order: seq<Signature>, k: Signature)
    requires forall i :: 0 <= i < |order| ==> order[i] in s
    ensures var p := PutAll(t, EntriesOf(s, order));
      (k in p <==> k in t || k in order)
      && (k in order ==> p[k] == s[k])
      && (k in t && k !in order ==> p[k] == t[k])
    decreases |order|
  {
    if |order| > 0 {
      var es := EntriesOf(s, order);
      assert es[1..] == EntriesOf(s, order[1..]);
      assert PutAll(t, es) == PutAll(Insert(t, order[0], s[order[0]]), es[1..]);
      PutAllEntriesAt(Insert(t, order[0], s[order[0]]), s, order[1..], k);
      assert k in order <==> k == order[0] || k in order[1..];
      if k == order[0] && k !in order[1..] {
        assert es[0] == Entry(k, s[k]);
      }
    }
  }

  lemma PutAllEnumeration(s: Store, order: seq<Signature>)
    requires IsEnumeration(s, order)
    ensures PutAll(map[], EntriesOf(s, order)) == s
  {
    var p := PutAll(map[], EntriesOf(s, order));
    forall k ensures (k in p <==> k in s) && (k in s ==> p[k] == s[k]) {
      PutAllEntriesAt(map[], s, order, k);
    }
    SameMaps(p, s);
  }

  lemma SameMaps(p: Store, s: Store)
    requires forall k :: (k in p <==> k in s) && (k in s ==> p[k] == s[k])
    ensures p == s
  {
    assert p.Keys == s.Keys;
  }

  /** Importing an export into an empty database reproduces the database. */
  lemma ImportAfterExport(s: Store, order: seq<Signature>)
    requires IsEnumeration(s, order)
    ensures Import(map[], Export(s, order).bytes).store == s
    ensures Import(map[], Export(s, order).bytes).count == |s.Keys|
  {
    PutAllEnumeration(s, order);
  }

  // ------------------------------------------------------------ dumps

  /** The entries of the records whose update time lies in [min, max], in cursor order. */
  function InRange(s: Store, order: seq<Signature>, min: u32, max: u32): (es: seq<Entry>)
    requires forall i :: 0 <= i < |order| ==> order[i] in s
    ensures forall i :: 0 <= i < |es| ==>
      (es[i].signature in s && es[i].record == s[es[i].signature] && min <= es[i].record.updated <= max)
    ensures forall i :: 0 <= i < |order| && min <= s[order[i]].updated <= max ==>
      exists j :: 0 <= j < |es| && es[j].signature == order[i]
    ensures |es| <= |order|
  {
    if |order| == 0 then []
    else
      var rest := InRange(s, order[1..], min, max);
      assert forall i :: 1 <= i < |order| ==> order[i] == order[1..][i - 1];
      if min <= s[order[0]].updated <= max then
        InRangeCovers(s, order, min, max, rest);
        [Entry(order[0], s[order[0]])] + rest
      else rest
  }

  /** Putting the first record in front of the entries found for the rest keeps every in-range record listed. */
  lemma InRangeCovers(s: Store, order: seq<Signature>, min: u32, max: u32, rest: seq<Entry>)
    requires |order| > 0 && forall i :: 0 <= i < |order| ==> order[i] in s
    requires forall i :: 1 <= i < |order| && min <= s[order[i]].updated <= max ==>
      exists j :: 0 <= j < |rest| && rest[j].signature == order[i]
    ensures var es := [Entry(order[0], s[order[0]])] + rest;
      forall i :: 0 <= i < |order| && min <= s[order[i]].updated <= max ==>
        exists j :: 0 <= j < |es| && es[j].signature == order[i]
  {
    var es := [Entry(order[0], s[order[0]])] + rest;
    forall i | 0 <= i < |order| && min <= s[order[i]].updated <= max
      ensures exists j :: 0 <= j < |es| && es[j].signature == order[i]
    {
      if i == 0 {
        assert es[0].signature == order[0];
      } else {
        var j :| 0 <= j < |rest| && rest[j].signature == order[i];
        assert es[j + 1].signature == order[i];
      }
    }
  }

  /**
   * database::dump_modified_records: scans the whole primary database and
   * writes, after the version 2 header, each record updated within
   * [min, max]; returns how many it wrote.
   */
  function DumpModifiedRecords(s: Store, order: seq<Signature>, min: u32, max: u32): (o: DumpOutcome)
    requires IsEnumeration(s, order)
    ensures |o.bytes| >= HEADER_SIZE && o.bytes[..HEADER_SIZE] == Header(DUMP_VERSION)
    ensures var es := ReadDump(o.bytes).entries;
      o.count == |es|
      && (forall i :: 0 <= i < |es| ==>
            (es[i].signature in s && es[i].record == s[es[i].signature] && min <= es[i].record.updated <= max))
      && (forall k :: k in s && min <= s[k].updated <= max ==> exists j :: 0 <= j < |es| && es[j].signature == k)
  {
    var es := InRange(s, order, min, max);
    ReadAfterWrite(es, []);
    assert EncodeDump(es) + [] == EncodeDump(es);
    forall k | k in s && min <= s[k].updated <= max
      ensures exists j :: 0 <= j < |es| && es[j].signature == k
    {
      assert k in order;
    }
    DumpOutcome(EncodeDump(es), |es|, [])
  }

  /** How many index entries from position i onwards have an update time of at most `max`. */
  function RunLength(lp64: bool, s: Store, idx: seq<Signature>, i: nat, max: u32): (n: nat)
    requires IsIndexOf(lp64, s, idx) && i <= |idx|
    ensures i + n <= |idx|
    ensures forall j :: i <= j < i + n ==> s[idx[j]].updated <= max
    ensures i + n < |idx| ==> s[idx[i + n]].updated > max
    decreases |idx| - i
  {
    if i == |idx| || s[idx[i]].updated > max then 0 else 1 + RunLength(lp64, s, idx, i + 1, max)
  }

  /** Index entries from position i onwards while their update time is at most `max`. */
  function TakeUpTo(lp64: bool, s: Store, idx: seq<Signature>, i: nat, max: u32): (es: seq<Entry>)
    requires IsIndexOf(lp64, s, idx) && i <= |idx|
    ensures |es| <= |idx| - i
    ensures forall j :: 0 <= j < |es| ==> es[j] == Entry(idx[i + j], s[idx[i + j]]) && s[idx[i + j]].updated <= max
    ensures i + |es| < |idx| ==> s[idx[i + |es|]].updated > max
  {
    var n := RunLength(lp64, s, idx, i, max);
    seq(n, j requires 0 <= j < n => Entry(idx[i + j], s[idx[i + j]]))
  }

  /**
   * database::dump_modified_records2 as written: it positions the index
   * cursor at the first entry not older than `min`, but its loop fetches
   * DB_NEXT before writing, so that first entry is never written.
   */
  function DumpModifiedRecords2AsWritten(lp64: bool, s: Store, idx: seq<Signature>, min: u32, max: u32): (o: DumpOutcome)
    requires IsIndexOf(lp64, s, idx)
    ensures |o.bytes| >= HEADER_SIZE && o.bytes[..HEADER_SIZE] == Header(DUMP_VERSION)
    ensures var intended := ReadDump(DumpModifiedRecords2(lp64, s, idx, min, max).bytes).entries;
      ReadDump(o.bytes).entries == (if |intended| == 0 then [] else intended[1..])
    ensures o.count == |ReadDump(o.bytes).entries|
  {
    var p := SetRange(lp64, s, idx, min, 0);
    var es := if p == |idx| then [] else TakeUpTo(lp64, s, idx, p + 1, max);
    ReadAfterWrite(es, []);
    assert EncodeDump(es) + [] == EncodeDump(es);
    var all := TakeUpTo(lp64, s, idx, p, max);
    ReadAfterWrite(all, []);
    assert EncodeDump(all) + [] == EncodeDump(all);
    assert es == (if |all| == 0 then [] else all[1..]) by {
      if p < |idx| {
        TakeUpToNext(lp64, s, idx, p, max);
      }
    }
    DumpOutcome(EncodeDump(es), |es|, [])
  }

  /** Starting one index position later drops exactly the first entry taken. */
  lemma TakeUpToNext(lp64: bool, s: Store, idx: seq<Signature>, p: nat, max: u32)
    requires IsIndexOf(lp64, s, idx) && p < |idx|
    ensures var es := TakeUpTo(lp64, s, idx, p, max);
      TakeUpTo(lp64, s, idx, p + 1, max) == if |es| == 0 then [] else es[1..]
  {
    var es := TakeUpTo(lp64, s, idx, p, max);
    var rest := TakeUpTo(lp64, s, idx, p + 1, max);
    if |es| == 0 {
      if p + 1 < |idx| {
        IndexTimesOrdered(lp64, s, idx, p, p + 1);
      }
    } else {
      assert |rest| == |es| - 1;
    }
  }

  /** Position j of the index holds a record in [min, max] at or after the first entry not older than `min`, so TakeUpTo from there reaches it. */
  lemma {:induction false} TakeUpToReaches(lp64: bool, s: Store, idx: seq<Signature>, p: nat, min: u32, max: u32, j: nat)
    requires IsIndexOf(lp64, s, idx) && p <= j < |idx|
    requires forall i :: p <= i < |idx| ==> s[idx[i]].updated >= min
    requires s[idx[j]].updated <= max
    ensures j - p < |TakeUpTo(lp64, s, idx, p, max)|
    decreases j - p
  {
    if j > p {
      IndexTimesOrdered(lp64, s, idx, p, j);
      TakeUpToReaches(lp64, s, idx, p + 1, min, max, j);
    }
  }

  lemma IndexTimesOrdered(lp64: bool, s: Store, idx: seq<Signature>, a: nat, b: nat)
    requires IsIndexOf(lp64, s, idx) && a < b < |idx|
    ensures s[idx[a]].updated <= s[idx[b]].updated
  {
    assert Before(lp64, s, idx[a], idx[b]);
  }

  /**
   * dump_modified_records2 as intended: every record whose update time lies
   * in [min, max], in index (time) order, starting with the entry the cursor
   * was positioned on.
   */
  function DumpModifiedRecords2(lp64: bool, s: Store, idx: seq<Signature>, min: u32, max: u32): (o: DumpOutcome)
    requires IsIndexOf(lp64, s, idx)
    ensures |o.bytes| >= HEADER_SIZE && o.bytes[..HEADER_SIZE] == Header(DUMP_VERSION)
    ensures var es := ReadDump(o.bytes).entries;
      o.count == |es|
      && (forall i :: 0 <= i < |es| ==>
            (es[i].signature in s && es[i].record == s[es[i].signature] && min <= es[i].record.updated <= max))
      && (forall k :: k in s && min <= s[k].updated <= max ==> exists j :: 0 <= j < |es| && es[j].signature == k)
      && (forall i, j :: 0 <= i < j < |es| ==> es[i].record.updated <= es[j].record.updated)
  {
    var p := SetRange(lp64, s, idx, min, 0);
    var es := TakeUpTo(lp64, s, idx, p, max);
    ReadAfterWrite(es, []);
    assert EncodeDump(es) + [] == EncodeDump(es);
    RangeFacts(lp64, s, idx, min, max, p);
    DumpOutcome(EncodeDump(es), |es|, [])
  }

  lemma RangeFacts(lp64: bool, s: Store, idx: seq<Signature>, min: u32, max: u32, p: nat)
    requires IsIndexOf(lp64, s, idx) && p <= |idx|
    requires forall i :: 0 <= i < p ==> s[idx[i]].updated < min
    requires forall i :: p <= i < |idx| ==> s[idx[i]].updated >= min
    ensures var es := TakeUpTo(lp64, s, idx, p, max);
      (forall i :: 0 <= i < |es| ==>
         (es[i].signature in s && es[i].record == s[es[i].signature] && min <= es[i].record.updated <= max))
      && (forall k :: k in s && min <= s[k].updated <= max ==> exists j :: 0 <= j < |es| && es[j].signature == k)
      && (forall i, j :: 0 <= i < j < |es| ==> es[i].record.updated <= es[j].record.updated)
  {
    RangeComplete(lp64, s, idx, min, max, p);
    RangeOrdered(lp64, s, idx, max, p);
  }

  lemma RangeComplete(lp64: bool, s: Store, idx: seq<Signature>, min: u32, max: u32, p: nat)
    requires IsIndexOf(lp64, s, idx) && p <= |idx|
    requires forall i :: 0 <= i < p ==> s[idx[i]].updated < min
    requires forall i :: p <= i < |idx| ==> s[idx[i]].updated >= min
    ensures var es := TakeUpTo(lp64, s, idx, p, max);
      forall k :: k in s && min <= s[k].updated <= max ==> exists j :: 0 <= j < |es| && es[j].signature == k
  {
    var es := TakeUpTo(lp64, s, idx, p, max);
    forall k | k in s && min <= s[k].updated <= max
      ensures exists j :: 0 <= j < |es| && es[j].signature == k
    {
      var j := PositionOf(lp64, s, idx, k);
      TakeUpToReaches(lp64, s, idx, p, min, max, j);
      assert es[j - p].signature == k;
    }
  }

  lemma RangeOrdered(lp64: bool, s: Store, idx: seq<Signature>, max: u32, p: nat)
    requires IsIndexOf(lp64, s, idx) && p <= |idx|
    ensures var es := TakeUpTo(lp64, s, idx, p, max);
      forall i, j :: 0 <= i < j < |es| ==> es[i].record.updated <= es[j].record.updated
  {
    var es := TakeUpTo(lp64, s, idx, p, max);
    forall i, j | 0 <= i < j < |es|
      ensures es[i].record.updated <= es[j].record.updated
    {
      IndexTimesOrdered(lp64, s, idx, p + i, p + j);
    }
  }

  /**
   * The as-written dump loses a record: a store holding one record updated
   * exactly at `min` yields an update file without it.
   */
  lemma DumpModifiedRecords2SkipsFirst(lp64: bool, h: Signature, r: Record)
    ensures var s := map[h := r];
      IsIndexOf(lp64, s, [h])
      && DumpModifiedRecords2AsWritten(lp64, s, [h], r.updated, r.updated).count == 0
      && DumpModifiedRecords2(lp64, s, [h], r.updated, r.updated).count == 1
  {
    var s := map[h := r];
    assert IsIndexOf(lp64, s, [h]);
    var es := ReadDump(DumpModifiedRecords2(lp64, s, [h], r.updated, r.updated).bytes).entries;
    assert exists j :: 0 <= j < |es| && es[j].signature == h;
  }

  /**
   * database::get_updated_since: every record from the first index entry not
   * older than `since` to the end of the index, in index order.
   */
  function GetUpdatedSince(lp64: bool, s: Store, idx: seq<Signature>, since: u32): (rs: seq<Record>)
    requires IsIndexOf(lp64, s, idx)
    ensures forall i :: 0 <= i < |rs| ==> rs[i].updated >= since
    ensures forall k :: k in s && s[k].updated >= since ==> s[k] in rs
    ensures forall i, j :: 0 <= i < j < |rs| ==> rs[i].updated <= rs[j].updated
  {
    var p := SetRange(lp64, s, idx, since, 0);
    SuffixFacts(lp64, s, idx, since, p);
    RecordsFrom(lp64, s, idx, p)
  }

  function RecordsFrom(lp64: bool, s: Store, idx: seq<Signature>, p: nat): (rs: seq<Record>)
    requires IsIndexOf(lp64, s, idx) && p <= |idx|
    ensures |rs| == |idx| - p
    ensures forall i :: 0 <= i < |rs| ==> rs[i] == s[idx[p + i]]
  {
    seq(|idx| - p, i requires 0 <= i < |idx| - p => s[idx[p + i]])
  }

  lemma SuffixFacts(lp64: bool, s: Store, idx: seq<Signature>, since: u32, p: nat)
    requires IsIndexOf(lp64, s, idx) && p <= |idx|
    requires forall i :: 0 <= i < p ==> s[idx[i]].updated < since
    requires forall i :: p <= i < |idx| ==> s[idx[i]].updated >= since
    ensures var rs := RecordsFrom(lp64, s, idx, p);
      (forall i :: 0 <= i < |rs| ==> rs[i].updated >= since)
      && (forall k :: k in s && s[k].updated >= since ==> s[k] in rs)
      && (forall i, j :: 0 <= i < j < |rs| ==> rs[i].updated <= rs[j].updated)
  {
    var rs := RecordsFrom(lp64, s, idx, p);
    forall k | k in s && s[k].updated >= since
      ensures s[k] in rs
    {
      var j := PositionOf(lp64, s, idx, k);
      assert rs[j - p] == s[k];
    }
    forall i, j | 0 <= i < j < |rs|
      ensures rs[i].updated <= rs[j].updated
    {
      IndexTimesOrdered(lp64, s, idx, p + i, p + j);
    }
  }
}
