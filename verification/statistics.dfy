/**
 * statistics_ring: per-second request counts over a fixed window. A ring
 * of buckets, each stamped with the second it counts; the current bucket
 * moves forward one place per elapsed second, zeroing what it passes.
 * The clock is a parameter.
 */
module Statistics {
  const DEFAULT_SECONDS: nat := 300

  datatype Bucket = Bucket(time: int, count: nat)

  datatype Ring = Ring(buckets: seq<Bucket>, current: nat, total: nat)

  predicate Valid(r: Ring) {
    |r.buckets| > 0 && r.current < |r.buckets|
  }

  function Sum(bs: seq<Bucket>): nat
    decreases |bs|
  {
    if |bs| == 0 then 0 else Sum(bs[..|bs| - 1]) + bs[|bs| - 1].count
  }

  /** Every report is counted in the total, and the buckets hold no more than it. */
  predicate Sound(r: Ring) {
    Valid(r) && Sum(r.buckets) <= r.total
  }

  /**
   * The constructor: `seconds` empty buckets, the first one current and
   * stamped with the present second. The vector must not be empty, since
   * the first bucket is written at once.
   */
  function New(seconds: nat, now: int): (r: Ring)
    requires seconds > 0
    ensures Sound(r) && |r.buckets| == seconds && r.current == 0 && r.total == 0
    ensures r.buckets[0] == Bucket(now, 0)
    ensures forall i :: 0 < i < seconds ==> r.buckets[i] == Bucket(0, 0)
  {
    var bs := seq(seconds, i => if i == 0 then Bucket(now, 0) else Bucket(0, 0));
    SumZero(bs);
    Ring(bs, 0, 0)
  }

  lemma {:induction false} SumZero(bs: seq<Bucket>)
    requires forall i :: 0 <= i < |bs| ==> bs[i].count == 0
    ensures Sum(bs) == 0
    decreases |bs|
  {
    if |bs| > 0 {
      SumZero(bs[..|bs| - 1]);
    }
  }

  /** Replacing one bucket changes the sum by the difference of the counts. */
  lemma {:induction false} SumUpdate(bs: seq<Bucket>, p: nat, b: Bucket)
    requires p < |bs|
    ensures Sum(bs[p := b]) + bs[p].count == Sum(bs) + b.count
    decreases |bs|
  {
    var n := |bs|;
    var bs' := bs[p := b];
    assert bs'[..n - 1] == if p == n - 1 then bs[..n - 1] else bs[..n - 1][p := b];
    if p < n - 1 {
      SumUpdate(bs[..n - 1], p, b);
    }
  }

  // ------------------------------------------------------------ advance

  /** One iteration of advance's loop: the next bucket (cyclically) becomes current, empty and stamped t. */
  function Tick(r: Ring, t: int): (r': Ring)
    requires Valid(r)
    ensures Valid(r') && |r'.buckets| == |r.buckets| && r'.total == r.total
    ensures r'.current == (r.current + 1) % |r.buckets|
    ensures r'.buckets[r'.current] == Bucket(t, 0)
    ensures forall i :: 0 <= i < |r.buckets| && i != r'.current ==> r'.buckets[i] == r.buckets[i]
  {
    var c := if r.current + 1 == |r.buckets| then 0 else r.current + 1;
    Ring(r.buckets[c := Bucket(t, 0)], c, r.total)
  }

  /** The loop from second t to now, one tick per second. */
  function TicksFrom(r: Ring, t: int, now: int): (r': Ring)
    requires Valid(r)
    ensures Valid(r') && |r'.buckets| == |r.buckets| && r'.total == r.total
    decreases now - t + 1
  {
    if t > now then r else TicksFrom(Tick(r, t), t + 1, now)
  }

  /**
   * advance: when the clock has moved past the current bucket's second,
   * tick once for every second after it up to now; otherwise (the same
   * second, or the clock went back) nothing changes.
   */
  function Advance(r: Ring, now: int): (r': Ring)
    requires Valid(r)
    ensures Valid(r') && |r'.buckets| == |r.buckets| && r'.total == r.total
  {
    TicksFrom(r, r.buckets[r.current].time + 1, now)
  }

  /** Ticking never raises the sum of the counts. */
  lemma {:induction false} TicksFromLowersSum(r: Ring, t: int, now: int)
    requires Valid(r)
    ensures Sum(TicksFrom(r, t, now).buckets) <= Sum(r.buckets)
    decreases now - t + 1
  {
    if t <= now {
      var r1 := Tick(r, t);
      SumUpdate(r.buckets, r1.current, Bucket(t, 0));
      assert r1.buckets == r.buckets[r1.current := Bucket(t, 0)];
      TicksFromLowersSum(r1, t + 1, now);
    }
  }

  /** The position e places after c on a ring of n, for e up to one turn. */
  function Forward(c: nat, e: nat, n: nat): (p: nat)
    requires c < n && e <= n
    ensures p < n
  {
    if c + e >= n then c + e - n else c + e
  }

  /** The loop moves the current bucket one place per tick, wrapping at the end. */
  lemma {:induction false} TicksFromCurrent(r: Ring, t: int, now: int)
    requires Valid(r) && t <= now + 1 && now - t + 1 <= |r.buckets|
    ensures TicksFrom(r, t, now).current == Forward(r.current, now - t + 1, |r.buckets|)
    decreases now - t + 1
  {
    if t <= now {
      TicksFromCurrent(Tick(r, t), t + 1, now);
    }
  }

  /** After at least one tick the current bucket is empty and stamped with now. */
  lemma {:induction false} TicksFromStamps(r: Ring, t: int, now: int)
    requires Valid(r) && t <= now
    ensures var r' := TicksFrom(r, t, now); r'.buckets[r'.current] == Bucket(now, 0)
    decreases now - t
  {
    if t < now {
      TicksFromStamps(Tick(r, t), t + 1, now);
    } else {
      assert TicksFrom(Tick(r, t), t + 1, now) == Tick(r, t);
    }
  }

  /** How many ticks after c the position p is next visited: 1 for the bucket after c, n for c itself. */
  function Ahead(p: nat, c: nat, n: nat): (d: nat)
    requires p < n && c < n
    ensures 1 <= d <= n
  {
    if p > c then p - c else p + n - c
  }

  lemma AheadStep(p: nat, c: nat, n: nat)
    requires p < n && c < n
    ensures var c1 := if c + 1 == n then 0 else c + 1;
      p != c1 ==> Ahead(p, c1, n) == Ahead(p, c, n) - 1
    ensures var c1 := if c + 1 == n then 0 else c + 1;
      p == c1 ==> Ahead(p, c, n) == 1 && Ahead(p, c1, n) == n
  {
  }

  /**
   * The buckets the loop passes over are emptied, the others keep their
   * counts: after the ticks from t to now, a bucket fewer than
   * now - t + 2 places ahead of the starting one counts 0.
   */
  lemma {:induction false} TicksFromEmpties(r: Ring, t: int, now: int, p: nat)
    requires Valid(r) && p < |r.buckets|
    ensures var r' := TicksFrom(r, t, now);
      Ahead(p, r.current, |r.buckets|) <= now - t + 1 ==> r'.buckets[p].count == 0
    ensures var r' := TicksFrom(r, t, now);
      Ahead(p, r.current, |r.buckets|) > now - t + 1 ==> r'.buckets[p] == r.buckets[p]
    decreases now - t + 1
  {
    if t <= now {
      var r1 := Tick(r, t);
      AheadStep(p, r.current, |r.buckets|);
      TicksFromEmpties(r1, t + 1, now, p);
    }
  }

  /** A gap of a whole window or more leaves every bucket empty. */
  lemma WindowPassedEmptiesAll(r: Ring, now: int)
    requires Valid(r) && now - r.buckets[r.current].time >= |r.buckets|
    ensures forall p :: 0 <= p < |r.buckets| ==> Advance(r, now).buckets[p].count == 0
  {
    forall p | 0 <= p < |r.buckets|
      ensures Advance(r, now).buckets[p].count == 0
    {
      TicksFromEmpties(r, r.buckets[r.current].time + 1, now, p);
    }
  }

  /** Nothing moves while the clock has not passed the current bucket's second. */
  lemma SameSecondKeepsRing(r: Ring, now: int)
    requires Valid(r) && now <= r.buckets[r.current].time
    ensures Advance(r, now) == r
  {
  }

  /**
   * The ring moves one place per elapsed second (within one turn), and
   * the new current bucket is empty and stamped now.
   */
  lemma AdvanceMoves(r: Ring, now: int)
    requires Valid(r) && now > r.buckets[r.current].time
    ensures now - r.buckets[r.current].time <= |r.buckets| ==>
      Advance(r, now).current == Forward(r.current, now - r.buckets[r.current].time, |r.buckets|)
    ensures Advance(r, now).buckets[Advance(r, now).current] == Bucket(now, 0)
  {
    if now - r.buckets[r.current].time <= |r.buckets| {
      TicksFromCurrent(r, r.buckets[r.current].time + 1, now);
    }
    TicksFromStamps(r, r.buckets[r.current].time + 1, now);
  }

  /** advance's loop, as written: step the iterator, wrap at the end, zero and stamp. */
  method AdvanceLoop(r: Ring, now: int) returns (r': Ring)
    requires Valid(r)
    ensures r' == Advance(r, now)
  {
    r' := r;
    if r.buckets[r.current].time != now {
      var t := r.buckets[r.current].time + 1;
      while t <= now
        invariant Valid(r')
        invariant TicksFrom(r', t, now) == Advance(r, now)
        decreases now - t
      {
        var c := r'.current + 1;
        if c == |r'.buckets| {
          c := 0;
        }
        r' := Ring(r'.buckets[c := Bucket(t, 0)], c, r'.total);
        t := t + 1;
      }
    }
  }

  // ------------------------------------------------------------ counting

  /** report: the total and the (advanced) current bucket each go up by one. */
  function Report(r: Ring, now: int): (r': Ring)
    requires Valid(r)
    ensures Valid(r') && r'.total == r.total + 1 && |r'.buckets| == |r.buckets|
    ensures r'.current == Advance(r, now).current
    ensures r'.buckets[r'.current].count == Advance(r, now).buckets[r'.current].count + 1
    ensures forall i :: 0 <= i < |r.buckets| && i != r'.current ==> r'.buckets[i] == Advance(r, now).buckets[i]
  {
    var a := Advance(r, now);
    var b := a.buckets[a.current];
    Ring(a.buckets[a.current := Bucket(b.time, b.count + 1)], a.current, a.total + 1)
  }

  /** The buckets never hold more than the total: advancing only empties, reporting adds one to each. */
  lemma ReportKeepsSound(r: Ring, now: int)
    requires Sound(r)
    ensures Sound(Report(r, now))
  {
    var a := Advance(r, now);
    TicksFromLowersSum(r, r.buckets[r.current].time + 1, now);
    var b := a.buckets[a.current];
    SumUpdate(a.buckets, a.current, Bucket(b.time, b.count + 1));
  }

  lemma AdvanceKeepsSound(r: Ring, now: int)
    requires Sound(r)
    ensures Sound(Advance(r, now))
  {
    TicksFromLowersSum(r, r.buckets[r.current].time + 1, now);
  }

  /** total(): the number of reports since construction. */
  function Total(r: Ring): nat {
    r.total
  }

  /** Reports counted one by one. */
  function ReportAll(r: Ring, times: seq<int>): (r': Ring)
    requires Valid(r)
    ensures Valid(r')
    decreases |times|
  {
    if |times| == 0 then r else ReportAll(Report(r, times[0]), times[1..])
  }

  /** The total counts every report, whenever it came. */
  lemma {:induction false} TotalCountsReports(r: Ring, times: seq<int>)
    requires Valid(r)
    ensures Total(ReportAll(r, times)) == Total(r) + |times|
    decreases |times|
  {
    if |times| > 0 {
      TotalCountsReports(Report(r, times[0]), times[1..]);
    }
  }

  /** average: after advancing, the integer mean count per bucket (the division truncates). */
  function Average(r: Ring, now: int): (a: nat)
    requires Valid(r)
    ensures a * |r.buckets| <= Sum(Advance(r, now).buckets) < (a + 1) * |r.buckets|
  {
    Sum(Advance(r, now).buckets) / |r.buckets|
  }

  /** The average never exceeds the total divided by the window. */
  lemma AverageBounded(r: Ring, now: int)
    requires Sound(r)
    ensures Average(r, now) * |r.buckets| <= Total(r)
  {
    AdvanceKeepsSound(r, now);
  }

  /** average's summing loop. */
  method AverageLoop(r: Ring, now: int) returns (a: nat)
    requires Valid(r)
    ensures a == Average(r, now)
  {
    var adv := AdvanceLoop(r, now);
    var total := 0;
    var i := 0;
    while i < |adv.buckets|
      invariant 0 <= i <= |adv.buckets|
      invariant total == Sum(adv.buckets[..i])
    {
      assert adv.buckets[..i + 1][..i] == adv.buckets[..i];
      total := total + adv.buckets[i].count;
      i := i + 1;
    }
    assert adv.buckets[..i] == adv.buckets;
    a := total / |adv.buckets|;
  }
}
