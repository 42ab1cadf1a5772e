/**
 * The reply decision of the two Pyzor UDP daemons: server::handle_receive_from
 * (the replica server, which checks against database::get and forwards
 * reports to the master) and pyzord::handle_receive_from (the bohuno daemon,
 * which checks against its downloaded store and accepts no reports). The
 * socket, the clock and the store are parameters; a datagram becomes a
 * reply packet, the new counters and whether the next receive is armed.
 */
module Udp {
  import opened Wrappers
  import opened Bytes
  import opened Hashes
  import opened Records
  import Store
  import Packet
  import Statistics

  const PROTOCOL_VERSION: string := "2.0"
  const LOOPBACK: string := "127.0.0.1"

  /** packet::get on the request: the stored value, or "" for a missing name. */
  function Value(req: Packet.Packet, name: string): (v: string)
    ensures name in req.attributes ==> v == req.attributes[name]
    ensures name !in req.attributes ==> v == ""
  {
    Packet.Get(req, name).0
  }

  // ------------------------------------------------------------ requests

  /** The operations the daemons tell apart by the Op value. */
  datatype Op = ShutdownOp | StatisticsOp | CheckOp | ReportOp | WhitelistOp | PingOp | OtherOp

  function OpOf(op: string): Op {
    if op == "shutdown" then ShutdownOp
    else if op == "statistics" then StatisticsOp
    else if op == "check" then CheckOp
    else if op == "report" then ReportOp
    else if op == "whitelist" then WhitelistOp
    else if op == "ping" then PingOp
    else OtherOp
  }

  predicate AdminOp(op: Op) { op == ShutdownOp || op == StatisticsOp }

  predicate DigestOp(op: Op) { op == CheckOp || op == ReportOp || op == WhitelistOp }

  /** The request as both daemons parse it: into an empty packet. */
  function Request(data: string): Packet.Parsed {
    Packet.Parse(Packet.Packet(map[]), data)
  }

  /** How a request is sorted before its operation is looked at. */
  datatype Verdict = Malformed | WrongVersion | Accepted(op: Op, digest: string)

  /**
   * The parse and version checks. An accepted request names its operation,
   * and one that carries a digest carries forty hex digits.
   */
  function Sort(data: string): (v: Verdict)
    ensures v.Malformed? <==> !Request(data).valid
    ensures v.WrongVersion? <==> Request(data).valid && Value(Request(data).packet, "PV") != PROTOCOL_VERSION
    ensures v.Accepted? ==> "Op" in Request(data).packet.attributes
    ensures v.Accepted? && DigestOp(v.op) ==> Packet.IsDigest(v.digest)
  {
    var req := Request(data);
    if !req.valid then Malformed
    else if Value(req.packet, "PV") != PROTOCOL_VERSION then WrongVersion
    else
      var op := Value(req.packet, "Op");
      assert DigestOp(OpOf(op)) ==> op in Packet.DIGEST_OPS;
      Accepted(OpOf(op), Value(req.packet, "Op-Digest"))
  }

  /** The Thread of the request, echoed in every reply ("" if the request had none). */
  function Thread(data: string): string {
    Value(Request(data).packet, "Thread")
  }

  // ------------------------------------------------------------ replies

  /** What varies between replies: the code, its diagnostic and any further fields. */
  datatype Answer = Answer(code: string, diag: string, fields: map<string, string>)

  const OK_ANSWER: Answer := Answer("200", "OK", map[])
  const BAD_REQUEST: Answer := Answer("400", "Bad Request", map[])
  const UNAUTHORIZED: Answer := Answer("401", "Unauthorized", map[])
  const NOT_SUPPORTED: Answer := Answer("501", "Not supported operation", map[])
  const VERSION_NOT_SUPPORTED: Answer := Answer("505", "Version Not Supported", map[])

  /** The four names every reply carries. */
  predicate HeadName(k: string) {
    k == "Thread" || k == "PV" || k == "Code" || k == "Diag"
  }

  /**
   * The reply packet: the request's Thread echoed, PV 2.0, the code and
   * diagnostic, and the answer's fields, which never use one of the four
   * names (so the order of the sets does not matter).
   */
  function Reply(thread: string, a: Answer): (p: Packet.Packet)
    requires forall k :: k in a.fields ==> !HeadName(k)
    ensures "Thread" in p.attributes && p.attributes["Thread"] == thread
    ensures "PV" in p.attributes && p.attributes["PV"] == PROTOCOL_VERSION
    ensures "Code" in p.attributes && p.attributes["Code"] == a.code
    ensures "Diag" in p.attributes && p.attributes["Diag"] == a.diag
    ensures forall k :: k in a.fields ==> k in p.attributes && p.attributes[k] == a.fields[k]
    ensures forall k :: k in p.attributes ==> HeadName(k) || k in a.fields
  {
    assert HeadName("Thread") && HeadName("PV") && HeadName("Code") && HeadName("Diag");
    Packet.Packet(map["Thread" := thread, "PV" := PROTOCOL_VERSION, "Code" := a.code, "Diag" := a.diag] + a.fields)
  }

  /** The value of a reply field, "" when absent or when nothing is sent. */
  function FieldOf(reply: Option<Packet.Packet>, name: string): string {
    if reply.Some? && name in reply.value.attributes then reply.value.attributes[name] else ""
  }

  /** The head fields of a sent reply. */
  lemma ReplyHead(thread: string, a: Answer)
    requires forall k :: k in a.fields ==> !HeadName(k)
    ensures FieldOf(Some(Reply(thread, a)), "Code") == a.code
    ensures FieldOf(Some(Reply(thread, a)), "Thread") == thread
    ensures FieldOf(Some(Reply(thread, a)), "PV") == PROTOCOL_VERSION
  {
  }

  /** A field of the answer, read from the sent reply. */
  lemma ReplyField(thread: string, a: Answer, name: string)
    requires forall k :: k in a.fields ==> !HeadName(k)
    requires name in a.fields
    ensures FieldOf(Some(Reply(thread, a)), name) == a.fields[name]
  {
  }

  /** lexical_cast of the two counts a check returns. */
  function Counts(reportCount: nat, whitelistCount: nat): (m: map<string, string>)
    ensures forall k :: k in m ==> !HeadName(k)
    ensures "Count" in m && m["Count"] == Decimal(reportCount)
    ensures "WL-Count" in m && m["WL-Count"] == Decimal(whitelistCount)
  {
    map["Count" := Decimal(reportCount), "WL-Count" := Decimal(whitelistCount)]
  }

  const AVERAGE_PREFIX: string := "Stats-Average-"
  const TOTAL_PREFIX: string := "Stats-Total-"

  /** The statistics fields, in the order they are set: each ring's average (after advancing) and total. */
  function StatsFields(stats: seq<(string, Statistics.Ring)>, now: int): (m: map<string, string>)
    requires forall i :: 0 <= i < |stats| ==> Statistics.Valid(stats[i].1)
    ensures forall k :: k in m ==> !HeadName(k)
    decreases |stats|
  {
    if |stats| == 0 then map[]
    else
      var n := |stats| - 1;
      var (name, ring) := stats[n];
      StatsFields(stats[..n], now)[AVERAGE_PREFIX + name := Decimal(Statistics.Average(ring, now))]
        [TOTAL_PREFIX + name := Decimal(Statistics.Total(ring))]
  }

  predicate DistinctNames(stats: seq<(string, Statistics.Ring)>) {
    forall i, j :: 0 <= i < j < |stats| ==> stats[i].0 != stats[j].0
  }

  lemma PrefixedDistinct(p: string, q: string, x: string, y: string)
    requires |p| == |q|
    ensures p + x == q + y ==> p == q && x == y
  {
    if p + x == q + y {
      assert p == (p + x)[..|p|] && x == (p + x)[|p|..];
      assert q == (q + y)[..|q|] && y == (q + y)[|q|..];
    }
  }

  lemma AverageNotTotal(x: string, y: string)
    ensures AVERAGE_PREFIX + x != TOTAL_PREFIX + y
  {
    assert (AVERAGE_PREFIX + x)[6] == 'A' && (TOTAL_PREFIX + y)[6] == 'T';
  }

  /** With distinct ring names, the reply carries every ring's average and total. */
  lemma {:induction false} StatsFieldsReport(stats: seq<(string, Statistics.Ring)>, now: int, i: nat)
    requires forall j :: 0 <= j < |stats| ==> Statistics.Valid(stats[j].1)
    requires DistinctNames(stats) && i < |stats|
    ensures var m := StatsFields(stats, now);
      AVERAGE_PREFIX + stats[i].0 in m && m[AVERAGE_PREFIX + stats[i].0] == Decimal(Statistics.Average(stats[i].1, now))
      && TOTAL_PREFIX + stats[i].0 in m && m[TOTAL_PREFIX + stats[i].0] == Decimal(Statistics.Total(stats[i].1))
    decreases |stats|
  {
    var n := |stats| - 1;
    if i < n {
      StatsFieldsReport(stats[..n], now, i);
      var a := stats[i].0;
      var b := stats[n].0;
      PrefixedDistinct(AVERAGE_PREFIX, AVERAGE_PREFIX, a, b);
      PrefixedDistinct(TOTAL_PREFIX, TOTAL_PREFIX, a, b);
      AverageNotTotal(a, b);
      AverageNotTotal(b, a);
    } else {
      AverageNotTotal(stats[n].0, stats[n].0);
    }
  }

  /**
   * A one-report record older than three 28-day months, which the server's
   * check ignores. The age is `time(NULL) - r.entered()`, a time_t minus a
   * uint32_t: unsigned 32-bit on an ILP32 host.
   */
  predicate Stale(lp64: bool, r: Record, now: int) {
    r.reportCount == 1 && TimeMinus(lp64, now, r.entered) > Store.MAX_RECORD_AGE
  }

  /**
   * A one-report record entered after the server's clock reading (the clock
   * was stepped back, or the record came from a faster host) is never stale
   * on LP64, but on ILP32 its unsigned age is nearly 2^32 seconds, so it is
   * treated as stale.
   */
  lemma FutureRecordStaleOnlyOnIlp32(r: Record, now: int)
    requires r.reportCount == 1
    requires r.entered - (TWO32 - Store.MAX_RECORD_AGE) < now < r.entered
    ensures Stale(false, r, now) && !Stale(true, r, now)
  {
  }

  /** The decision table of the reply codes, shared by both daemons. */
  function ExpectedCode(v: Verdict, admin: bool, supported: bool): string {
    match v
    case Malformed => "400"
    case WrongVersion => "505"
    case Accepted(op, _) =>
      if AdminOp(op) then (if admin then "200" else "401")
      else if supported then "200"
      else "501"
  }

  // ------------------------------------------------------------ the server

  datatype Server = Server(
    admins: set<string>,
    requests: Statistics.Ring,
    checks: Statistics.Ring,
    hits: Statistics.Ring,
    reports: Statistics.Ring,
    whitelists: Statistics.Ring,
    shutdown: bool)

  predicate ServerValid(s: Server) {
    Statistics.Valid(s.requests) && Statistics.Valid(s.checks) && Statistics.Valid(s.hits)
    && Statistics.Valid(s.reports) && Statistics.Valid(s.whitelists)
  }

  /** server::add_admin_address: only the admin set changes. */
  function AddAdmin(s: Server, address: string): (s': Server)
    ensures s' == s.(admins := s'.admins)
  {
    s.(admins := s.admins + {address})
  }

  /** server::authorize_admin_request: the sender's address string is one of the admin addresses. */
  predicate ServerAuthorized(s: Server, sender: string) {
    sender in s.admins
  }

  /** Adding an address admits that sender and keeps everyone admitted before. */
  lemma AddAdminAuthorizes(s: Server, address: string, sender: string)
    ensures ServerAuthorized(AddAdmin(s, address), sender) <==> sender == address || ServerAuthorized(s, sender)
  {
  }

  function ServerSupports(op: Op): bool {
    op == CheckOp || op == ReportOp || op == WhitelistOp || op == PingOp
  }

  /** The rings in the order the statistics reply lists them, under distinct names. */
  function ServerStats(s: Server): (st: seq<(string, Statistics.Ring)>)
    requires ServerValid(s)
    ensures |st| == 5 && DistinctNames(st)
    ensures forall i :: 0 <= i < |st| ==> Statistics.Valid(st[i].1)
  {
    [("Requests", s.requests), ("Checks", s.checks), ("Hits", s.hits),
     ("Reports", s.reports), ("Whitelists", s.whitelists)]
  }

  /** Every ring advanced to now, as reading the averages leaves them. */
  function ServerAdvanced(s: Server, now: int): (s': Server)
    requires ServerValid(s)
    ensures ServerValid(s') && s'.admins == s.admins && s'.shutdown == s.shutdown
    ensures s'.requests.total == s.requests.total && s'.checks.total == s.checks.total
    ensures s'.hits.total == s.hits.total && s'.reports.total == s.reports.total
    ensures s'.whitelists.total == s.whitelists.total
  {
    s.(requests := Statistics.Advance(s.requests, now), checks := Statistics.Advance(s.checks, now),
       hits := Statistics.Advance(s.hits, now), reports := Statistics.Advance(s.reports, now),
       whitelists := Statistics.Advance(s.whitelists, now))
  }

  datatype ServerHandled = ServerHandled(server: Server, answer: Answer, report: Option<string>)

  /** The work after the request was counted: admin operations, check, report, whitelist, ping. */
  function ServerOp(lp64: bool, s: Server, op: Op, digest: string, sender: string, store: Store.Store, now: int): (h: ServerHandled)
    requires ServerValid(s)
    ensures ServerValid(h.server) && h.server.admins == s.admins
    ensures forall k :: k in h.answer.fields ==> !HeadName(k)
    ensures h.report.Some? <==> op == ReportOp
    ensures h.report.Some? ==> h.report.value == digest
    ensures h.server.shutdown <==> s.shutdown || (op == ShutdownOp && ServerAuthorized(s, sender))
  {
    match op
    case ShutdownOp =>
      if !ServerAuthorized(s, sender) then ServerHandled(s, UNAUTHORIZED, None)
      else ServerHandled(s.(shutdown := true), OK_ANSWER, None)
    case StatisticsOp =>
      if !ServerAuthorized(s, sender) then ServerHandled(s, UNAUTHORIZED, None)
      else ServerHandled(ServerAdvanced(s, now), Answer("200", "OK", StatsFields(ServerStats(s), now)), None)
    case CheckOp =>
      var s1 := s.(checks := Statistics.Report(s.checks, now));
      var g := Store.Get(store, digest);
      if g.found && !Stale(lp64, g.record, now) then
        ServerHandled(s1.(hits := Statistics.Report(s1.hits, now)),
                      Answer("200", "OK", Counts(g.record.reportCount, g.record.whitelistCount)), None)
      else
        ServerHandled(s1, Answer("200", "OK", Counts(0, 0)), None)
    case ReportOp =>
      ServerHandled(s.(reports := Statistics.Report(s.reports, now)), OK_ANSWER, Some(digest))
    case WhitelistOp =>
      ServerHandled(s.(whitelists := Statistics.Report(s.whitelists, now)), OK_ANSWER, None)
    case PingOp =>
      ServerHandled(s, OK_ANSWER, None)
    case OtherOp =>
      ServerHandled(s, NOT_SUPPORTED, None)
  }

  /**
   * What one receive completion leads to: the new server state, the reply
   * sent (none on a receive error or an empty datagram), the digest handed
   * to database::report, and whether another receive is armed.
   */
  datatype ServerOutcome = ServerOutcome(server: Server, reply: Option<Packet.Packet>, report: Option<string>, listening: bool)

  /** server::handle_receive_from. */
  function ServerReceive(lp64: bool, s: Server, error: bool, data: string, sender: string, store: Store.Store, now: int): (o: ServerOutcome)
    requires ServerValid(s)
    ensures ServerValid(o.server) && o.server.admins == s.admins
    ensures o.listening <==> !o.server.shutdown
    ensures o.reply.None? <==> error || |data| == 0
  {
    if error || |data| == 0 then ServerOutcome(s, None, None, !s.shutdown)
    else
      match Sort(data)
      case Malformed => ServerOutcome(s, Some(Reply(Thread(data), BAD_REQUEST)), None, !s.shutdown)
      case WrongVersion => ServerOutcome(s, Some(Reply(Thread(data), VERSION_NOT_SUPPORTED)), None, !s.shutdown)
      case Accepted(op, digest) =>
        var s1 := s.(requests := Statistics.Report(s.requests, now));
        var h := ServerOp(lp64, s1, op, digest, sender, store, now);
        ServerOutcome(h.server, Some(Reply(Thread(data), h.answer)), h.report, !h.server.shutdown)
  }

  /** The reply code follows the decision table; the Thread is echoed and PV is 2.0. */
  lemma ServerReplyCode(lp64: bool, s: Server, data: string, sender: string, store: Store.Store, now: int)
    requires ServerValid(s) && |data| > 0
    ensures var v := Sort(data);
      var o := ServerReceive(lp64, s, false, data, sender, store, now);
      FieldOf(o.reply, "Code") == ExpectedCode(v, ServerAuthorized(s, sender), v.Accepted? && ServerSupports(v.op))
      && FieldOf(o.reply, "Thread") == Thread(data)
      && FieldOf(o.reply, "PV") == PROTOCOL_VERSION
  {
    match Sort(data)
    case Malformed => ReplyHead(Thread(data), BAD_REQUEST);
    case WrongVersion => ReplyHead(Thread(data), VERSION_NOT_SUPPORTED);
    case Accepted(op, digest) =>
      var s1 := s.(requests := Statistics.Report(s.requests, now));
      var h := ServerOp(lp64, s1, op, digest, sender, store, now);
      ServerOpCode(lp64, s1, op, digest, sender, store, now);
      ReplyHead(Thread(data), h.answer);
  }

  lemma ServerOpCode(lp64: bool, s: Server, op: Op, digest: string, sender: string, store: Store.Store, now: int)
    requires ServerValid(s)
    ensures ServerOp(lp64, s, op, digest, sender, store, now).answer.code
      == ExpectedCode(Accepted(op, digest), ServerAuthorized(s, sender), ServerSupports(op))
  {
  }

  /** A request that is not counted leaves every counter alone: a bad packet or a foreign version. */
  lemma ServerRejectsWithoutCounting(lp64: bool, s: Server, data: string, sender: string, store: Store.Store, now: int)
    requires ServerValid(s) && |data| > 0 && !Sort(data).Accepted?
    ensures ServerReceive(lp64, s, false, data, sender, store, now).server == s
    ensures ServerReceive(lp64, s, false, data, sender, store, now).report == None
  {
  }

  /** Only an admin's accepted shutdown request stops the server listening. */
  lemma ServerShutdownNeedsAdmin(lp64: bool, s: Server, error: bool, data: string, sender: string, store: Store.Store, now: int)
    requires ServerValid(s) && !s.shutdown
    ensures var o := ServerReceive(lp64, s, error, data, sender, store, now);
      !o.listening <==> (!error && |data| > 0 && Sort(data).Accepted? && Sort(data).op == ShutdownOp
                         && ServerAuthorized(s, sender))
  {
  }

  /**
   * A check answers with the stored counts when database::get finds the
   * record and it is not stale; otherwise with Count and WL-Count "0".
   * Exactly the answered hits are counted.
   */
  lemma ServerCheckCounts(lp64: bool, s: Server, data: string, sender: string, store: Store.Store, now: int)
    requires ServerValid(s) && |data| > 0 && Sort(data).Accepted? && Sort(data).op == CheckOp
    ensures var g := Store.Get(store, Sort(data).digest);
      var o := ServerReceive(lp64, s, false, data, sender, store, now);
      var hit := g.found && !Stale(lp64, g.record, now);
      FieldOf(o.reply, "Count") == (if hit then Decimal(g.record.reportCount) else Decimal(0))
      && FieldOf(o.reply, "WL-Count") == (if hit then Decimal(g.record.whitelistCount) else Decimal(0))
      && o.server.hits.total == s.hits.total + (if hit then 1 else 0)
  {
    var digest := Sort(data).digest;
    var s1 := s.(requests := Statistics.Report(s.requests, now));
    var h := ServerOp(lp64, s1, CheckOp, digest, sender, store, now);
    assert ServerReceive(lp64, s, false, data, sender, store, now).reply == Some(Reply(Thread(data), h.answer));
    ReplyField(Thread(data), h.answer, "Count");
    ReplyField(Thread(data), h.answer, "WL-Count");
  }

  /** A report is forwarded to the master exactly when an accepted report arrives, with its digest. */
  lemma ServerForwardsReports(lp64: bool, s: Server, error: bool, data: string, sender: string, store: Store.Store, now: int)
    requires ServerValid(s)
    ensures var o := ServerReceive(lp64, s, error, data, sender, store, now);
      o.report.Some? <==> !error && |data| > 0 && Sort(data).Accepted? && Sort(data).op == ReportOp
    ensures var o := ServerReceive(lp64, s, error, data, sender, store, now);
      o.report.Some? ==> o.report.value == Sort(data).digest && Packet.IsDigest(o.report.value)
  {
  }

  /** With an admin sender, statistics reports the average and total of every ring. */
  lemma ServerStatisticsReport(lp64: bool, s: Server, data: string, sender: string, store: Store.Store, now: int, i: nat)
    requires ServerValid(s) && |data| > 0 && Sort(data).Accepted? && Sort(data).op == StatisticsOp
    requires ServerAuthorized(s, sender) && i < 5
    ensures var st := ServerStats(s.(requests := Statistics.Report(s.requests, now)));
      var o := ServerReceive(lp64, s, false, data, sender, store, now);
      FieldOf(o.reply, AVERAGE_PREFIX + st[i].0) == Decimal(Statistics.Average(st[i].1, now))
      && FieldOf(o.reply, TOTAL_PREFIX + st[i].0) == Decimal(Statistics.Total(st[i].1))
  {
    var s1 := s.(requests := Statistics.Report(s.requests, now));
    var st := ServerStats(s1);
    var a := Answer("200", "OK", StatsFields(st, now));
    var h := ServerOp(lp64, s1, StatisticsOp, Sort(data).digest, sender, store, now);
    assert h.answer == a;
    assert ServerReceive(lp64, s, false, data, sender, store, now).reply == Some(Reply(Thread(data), a));
    StatsFieldsReport(st, now, i);
    ReplyField(Thread(data), a, AVERAGE_PREFIX + st[i].0);
    ReplyField(Thread(data), a, TOTAL_PREFIX + st[i].0);
  }

  /**
   * The counters stay consistent: a hit is counted only within a check,
   * and checks, reports and whitelists only within a counted request.
   */
  predicate Tallied(s: Server) {
    s.hits.total <= s.checks.total
    && s.checks.total + s.reports.total + s.whitelists.total <= s.requests.total
  }

  lemma ServerOpKeepsTally(lp64: bool, s: Server, op: Op, digest: string, sender: string, store: Store.Store, now: int)
    requires ServerValid(s) && s.checks.total + s.reports.total + s.whitelists.total < s.requests.total
    requires s.hits.total <= s.checks.total
    ensures Tallied(ServerOp(lp64, s, op, digest, sender, store, now).server)
  {
  }

  lemma ServerKeepsTally(lp64: bool, s: Server, error: bool, data: string, sender: string, store: Store.Store, now: int)
    requires ServerValid(s) && Tallied(s)
    ensures Tallied(ServerReceive(lp64, s, error, data, sender, store, now).server)
  {
    if !error && |data| > 0 && Sort(data).Accepted? {
      var s1 := s.(requests := Statistics.Report(s.requests, now));
      ServerOpKeepsTally(lp64, s1, Sort(data).op, Sort(data).digest, sender, store, now);
    }
  }

  // ------------------------------------------------------------ the bohuno daemon

  datatype Pyzord = Pyzord(requests: Statistics.Ring, checks: Statistics.Ring, hits: Statistics.Ring, shutdown: bool)

  predicate PyzordValid(p: Pyzord) {
    Statistics.Valid(p.requests) && Statistics.Valid(p.checks) && Statistics.Valid(p.hits)
  }

  /** pyzord::authorize_admin_request: only the loopback address is an admin. */
  predicate PyzordAuthorized(sender: string) {
    sender == LOOPBACK
  }

  function PyzordSupports(op: Op): bool {
    op == CheckOp || op == PingOp
  }

  function PyzordStats(p: Pyzord): seq<(string, Statistics.Ring)> {
    [("Requests", p.requests), ("Checks", p.checks), ("Hits", p.hits)]
  }

  datatype PyzordHandled = PyzordHandled(pyzord: Pyzord, answer: Answer)

  /**
   * The bohuno daemon's operations: no report or whitelist branch, and a
   * check answers with the looked-up record's counts whether or not the
   * lookup reports it found (a missing signature leaves the zero record).
   * A hit is counted by database::lookup as written, which finds a record
   * only when both of its counts are non-zero.
   * `prior` stands for the bytes pyzor::hash leaves unset for a digest of
   * another length, which the parser has already excluded.
   */
  function PyzordOp(p: Pyzord, op: Op, digest: string, sender: string, store: Store.Store, now: int,
                    prior: Signature): (h: PyzordHandled)
    requires PyzordValid(p)
    ensures PyzordValid(h.pyzord)
    ensures forall k :: k in h.answer.fields ==> !HeadName(k)
  {
    match op
    case ShutdownOp =>
      if !PyzordAuthorized(sender) then PyzordHandled(p, UNAUTHORIZED)
      else PyzordHandled(p.(shutdown := true), OK_ANSWER)
    case StatisticsOp =>
      if !PyzordAuthorized(sender) then PyzordHandled(p, UNAUTHORIZED)
      else
        var p' := p.(requests := Statistics.Advance(p.requests, now), checks := Statistics.Advance(p.checks, now),
                     hits := Statistics.Advance(p.hits, now));
        PyzordHandled(p', Answer("200", "OK", StatsFields(PyzordStats(p), now)))
    case CheckOp =>
      var p1 := p.(checks := Statistics.Report(p.checks, now));
      var l := Store.LookupAsWritten(store, FromHex(digest, prior));
      var p2 := if l.found then p1.(hits := Statistics.Report(p1.hits, now)) else p1;
      PyzordHandled(p2, Answer("200", "OK", Counts(l.record.reportCount, l.record.whitelistCount)))
    case PingOp =>
      PyzordHandled(p, OK_ANSWER)
    case _ =>
      PyzordHandled(p, NOT_SUPPORTED)
  }

  datatype PyzordOutcome = PyzordOutcome(pyzord: Pyzord, reply: Option<Packet.Packet>, listening: bool)

  /** pyzord::handle_receive_from. */
  function PyzordReceive(p: Pyzord, error: bool, data: string, sender: string, store: Store.Store, now: int,
                         prior: Signature): (o: PyzordOutcome)
    requires PyzordValid(p)
    ensures PyzordValid(o.pyzord)
    ensures o.listening <==> !o.pyzord.shutdown
    ensures o.reply.None? <==> error || |data| == 0
  {
    if error || |data| == 0 then PyzordOutcome(p, None, !p.shutdown)
    else
      match Sort(data)
      case Malformed => PyzordOutcome(p, Some(Reply(Thread(data), BAD_REQUEST)), !p.shutdown)
      case WrongVersion => PyzordOutcome(p, Some(Reply(Thread(data), VERSION_NOT_SUPPORTED)), !p.shutdown)
      case Accepted(op, digest) =>
        var p1 := p.(requests := Statistics.Report(p.requests, now));
        var h := PyzordOp(p1, op, digest, sender, store, now, prior);
        PyzordOutcome(h.pyzord, Some(Reply(Thread(data), h.answer)), !h.pyzord.shutdown)
  }

  /** The same decision table, with report and whitelist unsupported and admins only on loopback. */
  lemma PyzordReplyCode(p: Pyzord, data: string, sender: string, store: Store.Store, now: int, prior: Signature)
    requires PyzordValid(p) && |data| > 0
    ensures var v := Sort(data);
      var o := PyzordReceive(p, false, data, sender, store, now, prior);
      FieldOf(o.reply, "Code") == ExpectedCode(v, PyzordAuthorized(sender), v.Accepted? && PyzordSupports(v.op))
      && FieldOf(o.reply, "Thread") == Thread(data)
  {
    match Sort(data)
    case Malformed => ReplyHead(Thread(data), BAD_REQUEST);
    case WrongVersion => ReplyHead(Thread(data), VERSION_NOT_SUPPORTED);
    case Accepted(op, digest) =>
      var p1 := p.(requests := Statistics.Report(p.requests, now));
      var h := PyzordOp(p1, op, digest, sender, store, now, prior);
      PyzordOpCode(p1, op, digest, sender, store, now, prior);
      ReplyHead(Thread(data), h.answer);
  }

  lemma PyzordOpCode(p: Pyzord, op: Op, digest: string, sender: string, store: Store.Store, now: int, prior: Signature)
    requires PyzordValid(p)
    ensures PyzordOp(p, op, digest, sender, store, now, prior).answer.code
      == ExpectedCode(Accepted(op, digest), PyzordAuthorized(sender), PyzordSupports(op))
  {
  }

  /**
   * A check answers with the stored counts of the signature the digest
   * spells (zero for an absent one), and counts a hit exactly when the
   * lookup as written finds the record.
   */
  lemma PyzordCheckCounts(p: Pyzord, data: string, sender: string, store: Store.Store, now: int, prior: Signature)
    requires PyzordValid(p) && |data| > 0 && Sort(data).Accepted? && Sort(data).op == CheckOp
    ensures DecodeSignature(Sort(data).digest).Some?
    ensures var h := DecodeSignature(Sort(data).digest).value;
      var r := Store.Current(store, h);
      var o := PyzordReceive(p, false, data, sender, store, now, prior);
      FieldOf(o.reply, "Count") == Decimal(r.reportCount)
      && FieldOf(o.reply, "WL-Count") == Decimal(r.whitelistCount)
      && o.pyzord.hits.total == p.hits.total + (if Store.LookupAsWritten(store, h).found then 1 else 0)
  {
    var digest := Sort(data).digest;
    assert |digest| == HEX_SIZE;
    PyzordCheckAt(p, data, sender, store, now, prior, digest);
  }

  /** The same, for a check whose digest is known to decode. */
  lemma PyzordCheckAt(p: Pyzord, data: string, sender: string, store: Store.Store, now: int, prior: Signature,
                      digest: string)
    requires PyzordValid(p) && |data| > 0 && Sort(data) == Accepted(CheckOp, digest) && DecodeSignature(digest).Some?
    ensures var h := DecodeSignature(digest).value;
      var r := Store.Current(store, h);
      var o := PyzordReceive(p, false, data, sender, store, now, prior);
      FieldOf(o.reply, "Count") == Decimal(r.reportCount)
      && FieldOf(o.reply, "WL-Count") == Decimal(r.whitelistCount)
      && o.pyzord.hits.total == p.hits.total + (if Store.LookupAsWritten(store, h).found then 1 else 0)
  {
    var p1 := p.(requests := Statistics.Report(p.requests, now));
    var ph := PyzordOp(p1, CheckOp, digest, sender, store, now, prior);
    PyzordReceiveAccepted(p, data, sender, store, now, prior, CheckOp, digest);
    PyzordCheckOp(p1, digest, sender, store, now, prior);
    ReplyField(Thread(data), ph.answer, "Count");
    ReplyField(Thread(data), ph.answer, "WL-Count");
  }

  /** An accepted request is counted, handled, and answered with the handler's answer. */
  lemma PyzordReceiveAccepted(p: Pyzord, data: string, sender: string, store: Store.Store, now: int, prior: Signature,
                              op: Op, digest: string)
    requires PyzordValid(p) && |data| > 0 && Sort(data) == Accepted(op, digest)
    ensures var p1 := p.(requests := Statistics.Report(p.requests, now));
      var ph := PyzordOp(p1, op, digest, sender, store, now, prior);
      PyzordReceive(p, false, data, sender, store, now, prior) == PyzordOutcome(ph.pyzord, Some(Reply(Thread(data), ph.answer)), !ph.pyzord.shutdown)
  {
  }

  /** The check branch looks up the signature the digest spells. */
  lemma PyzordCheckOp(p: Pyzord, digest: string, sender: string, store: Store.Store, now: int, prior: Signature)
    requires PyzordValid(p) && DecodeSignature(digest).Some?
    ensures var h := DecodeSignature(digest).value;
      var r := Store.Current(store, h);
      var ph := PyzordOp(p, CheckOp, digest, sender, store, now, prior);
      ph.answer.fields == Counts(r.reportCount, r.whitelistCount)
      && ph.pyzord.hits.total == p.hits.total + (if Store.LookupAsWritten(store, h).found then 1 else 0)
  {
    assert FromHex(digest, prior) == DecodeSignature(digest).value;
  }

  /**
   * Where the copies disagree: a stale one-report record is a miss with
   * zero counts for the server, but the bohuno daemon reports its count.
   */
  lemma StaleRecordAnswersDiffer(lp64: bool, s: Server, p: Pyzord, data: string, sender: string, store: Store.Store, now: int,
                                 prior: Signature)
    requires ServerValid(s) && PyzordValid(p) && |data| > 0 && Sort(data).Accepted? && Sort(data).op == CheckOp
    requires DecodeSignature(Sort(data).digest).Some?
    requires DecodeSignature(Sort(data).digest).value in store
    requires Stale(lp64, store[DecodeSignature(Sort(data).digest).value], now)
    ensures FieldOf(ServerReceive(lp64, s, false, data, sender, store, now).reply, "Count") == Decimal(0)
    ensures FieldOf(PyzordReceive(p, false, data, sender, store, now, prior).reply, "Count") == Decimal(1)
  {
    ServerCheckCounts(lp64, s, data, sender, store, now);
    PyzordCheckCounts(p, data, sender, store, now, prior);
  }

  /**
   * The lookup's test shows in the daemon's statistics: a check of a record
   * that has reports but was never whitelisted answers its report count, yet
   * is not counted as a hit.
   */
  lemma ReportedOnlyCheckIsNoHit(p: Pyzord, data: string, sender: string, store: Store.Store, now: int, prior: Signature)
    requires PyzordValid(p) && |data| > 0 && Sort(data).Accepted? && Sort(data).op == CheckOp
    requires DecodeSignature(Sort(data).digest).Some?
    requires DecodeSignature(Sort(data).digest).value in store
    requires store[DecodeSignature(Sort(data).digest).value].reportCount > 0
    requires store[DecodeSignature(Sort(data).digest).value].whitelistCount == 0
    ensures var o := PyzordReceive(p, false, data, sender, store, now, prior);
      o.pyzord.hits.total == p.hits.total
      && FieldOf(o.reply, "Count") == Decimal(store[DecodeSignature(Sort(data).digest).value].reportCount)
  {
    PyzordCheckCounts(p, data, sender, store, now, prior);
  }

  // ------------------------------------------------------------ receive loop

  /** One receive completion, with the clock and the replica as they stand then. */
  datatype Receipt = Receipt(error: bool, data: string, sender: string, now: int, view: Store.Store)

  datatype ServerRun = ServerRun(server: Server, replies: seq<Packet.Packet>, reports: seq<string>, unread: nat)

  /**
   * The receive loop: completions are handled in order until one leaves
   * no receive armed; the receipts after it are never read.
   */
  function RunServer(lp64: bool, s: Server, rs: seq<Receipt>): (run: ServerRun)
    requires ServerValid(s)
    ensures ServerValid(run.server) && run.server.admins == s.admins
    ensures run.unread <= |rs|
    decreases |rs|
  {
    if |rs| == 0 || s.shutdown then ServerRun(s, [], [], |rs|)
    else
      var o := ServerReceive(lp64, s, rs[0].error, rs[0].data, rs[0].sender, rs[0].view, rs[0].now);
      var rest := RunServer(lp64, o.server, rs[1..]);
      ServerRun(rest.server,
                (if o.reply.Some? then [o.reply.value] else []) + rest.replies,
                (if o.report.Some? then [o.report.value] else []) + rest.reports,
                rest.unread)
  }

  predicate FromOutsiders(s: Server, rs: seq<Receipt>) {
    forall i :: 0 <= i < |rs| ==> !ServerAuthorized(s, rs[i].sender)
  }

  /** The receipts that carry a datagram: no error and at least one byte. */
  function Answered(rs: seq<Receipt>): nat
    decreases |rs|
  {
    if |rs| == 0 then 0 else (if rs[0].error || |rs[0].data| == 0 then 0 else 1) + Answered(rs[1..])
  }

  /**
   * Senders outside the admin set can never stop the server: it reads every
   * receipt, answers every one that carries a datagram, and stays up.
   */
  lemma {:induction false} OutsidersCannotStopServer(lp64: bool, s: Server, rs: seq<Receipt>)
    requires ServerValid(s) && !s.shutdown && FromOutsiders(s, rs)
    ensures var run := RunServer(lp64, s, rs);
      !run.server.shutdown && run.unread == 0 && |run.replies| == Answered(rs)
    decreases |rs|
  {
    if |rs| > 0 {
      var r := rs[0];
      ServerShutdownNeedsAdmin(lp64, s, r.error, r.data, r.sender, r.view, r.now);
      var o := ServerReceive(lp64, s, r.error, r.data, r.sender, r.view, r.now);
      assert FromOutsiders(o.server, rs[1..]) by {
        forall i | 0 <= i < |rs[1..]| ensures !ServerAuthorized(o.server, rs[1..][i].sender) {
          assert rs[1..][i] == rs[i + 1];
        }
      }
      OutsidersCannotStopServer(lp64, o.server, rs[1..]);
    }
  }

  /** The counters stay consistent over any run. */
  lemma {:induction false} RunKeepsTally(lp64: bool, s: Server, rs: seq<Receipt>)
    requires ServerValid(s) && Tallied(s)
    ensures Tallied(RunServer(lp64, s, rs).server)
    decreases |rs|
  {
    if |rs| > 0 && !s.shutdown {
      var r := rs[0];
      ServerKeepsTally(lp64, s, r.error, r.data, r.sender, r.view, r.now);
      RunKeepsTally(lp64, ServerReceive(lp64, s, r.error, r.data, r.sender, r.view, r.now).server, rs[1..]);
    }
  }
}
