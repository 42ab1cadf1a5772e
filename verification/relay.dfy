/**
 * The FIFO relay that carries updates towards the master: the local
 * pyzord's database object (database.cpp) and the slave (slave.cpp) keep a
 * deque of updates, send its front over one TCP connection, and pop it
 * only once the write has completed. Socket completions are events.
 */
module Relay {
  import opened Wrappers
  import opened Bytes
  import opened Hashes
  import opened Updates

  /** Which copy of the relay: they differ on a failed connect and on a lost ping. */
  datatype Side = Local | Slave

  /**
   * The queue, the connected_ flag, and whether an asynchronous write of
   * the front is outstanding (the socket's own state, which the code
   * keeps implicitly: a write is in progress exactly when one was started
   * and has not completed).
   */
  datatype Relay = Relay(queue: seq<Update>, connected: bool, writing: bool)

  /** What a completion handler hands to async_write: the front, or nothing. */
  datatype Step = Step(relay: Relay, sent: Option<Update>)

  const Initial: Relay := Relay([], false, false)

  /** Starting a write of the front, when there is one. */
  function SendFront(r: Relay): (s: Step)
    ensures |r.queue| > 0 ==> s.sent == Some(r.queue[0]) && s.relay == r.(writing := true)
    ensures |r.queue| == 0 ==> s == Step(r, None)
  {
    if |r.queue| > 0 then Step(r.(writing := true), Some(r.queue[0])) else Step(r, None)
  }

  /**
   * write_update: append; start a write only when connected and the queue
   * was empty before (otherwise a write is already under way, or will be
   * started on connect).
   */
  function WriteUpdate(r: Relay, u: Update): (s: Step)
    ensures s.relay.queue == r.queue + [u] && s.relay.connected == r.connected
    ensures s.sent.Some? <==> r.connected && |r.queue| == 0
    ensures s.sent.Some? ==> s.sent.value == u && s.relay.writing
    ensures s.sent.None? ==> s.relay.writing == r.writing
  {
    var r' := r.(queue := r.queue + [u]);
    if r.connected && |r.queue| == 0 then SendFront(r') else Step(r', None)
  }

  /**
   * handle_write_update: success pops exactly the front and sends the next
   * one if still connected; failure keeps the whole queue and marks the
   * relay disconnected (a reconnect is scheduled).
   */
  function WriteDone(r: Relay, ok: bool): (s: Step)
    requires r.writing && |r.queue| > 0
    ensures ok ==> s.relay.queue == r.queue[1..] && s.relay.connected == r.connected
    ensures ok ==> (s.sent.Some? <==> r.connected && |r.queue| > 1)
    ensures !ok ==> s == Step(Relay(r.queue, false, false), None)
  {
    if ok then
      var popped := Relay(r.queue[1..], r.connected, false);
      if r.connected then SendFront(popped) else Step(popped, None)
    else Step(Relay(r.queue, false, false), None)
  }

  /**
   * handle_connect: on success, connected and the front is sent if there
   * is one; on failure the slave marks itself disconnected while the local
   * database leaves the flag alone, and both retry after five seconds.
   */
  function ConnectDone(side: Side, r: Relay, ok: bool): (s: Step)
    requires !r.writing
    ensures ok ==> s.relay.connected && s.relay.queue == r.queue
    ensures ok ==> (s.sent.Some? <==> |r.queue| > 0)
    ensures !ok ==> s.sent.None? && s.relay.queue == r.queue
    ensures !ok ==> s.relay.connected == (side == Local && r.connected)
  {
    if ok then SendFront(r.(connected := true))
    else
      match side
      case Slave => Step(r.(connected := false), None)
      case Local => Step(r, None)
  }

  /**
   * database::handle_read_ping on error: the socket is closed and a
   * reconnect scheduled, but connected_ is not cleared.
   */
  function PingLost(r: Relay): (r': Relay)
    ensures r'.queue == r.queue && r'.connected == r.connected
  {
    r
  }

  /** database::up(). */
  function Up(r: Relay): bool {
    r.connected
  }

  /** After a lost ping the relay still reports itself up. */
  lemma PingLostStaysUp(r: Relay)
    requires Up(r)
    ensures Up(PingLost(r))
  {
  }

  /** A relay that is up when the ping is lost, with an empty queue: the next update is written to the closed socket. */
  lemma PingLostThenWriteToClosedSocket(r: Relay, u: Update)
    requires r.connected && |r.queue| == 0
    ensures WriteUpdate(PingLost(r), u).sent == Some(u)
  {
  }

  // ------------------------------------------------------------ traces

  /** A completion the relay can see. */
  datatype Event =
    | Post(u: Update)            // write_update, posted by erase/report/whitelist or a slave session
    | WriteCompleted(ok: bool)   // handle_write_update
    | ConnectCompleted(ok: bool) // handle_connect
    | PingFailed                 // handle_read_ping with an error

  /**
   * The events asio can deliver in this state: a write completes only when
   * one is outstanding, and a connect completes only when none is (closing
   * the socket aborts an outstanding write before any reconnect timer fires).
   */
  predicate Possible(r: Relay, e: Event) {
    match e
    case Post(_) => true
    case WriteCompleted(_) => r.writing && |r.queue| > 0
    case ConnectCompleted(_) => !r.writing
    case PingFailed => true
  }

  function Apply(side: Side, r: Relay, e: Event): (s: Step)
    requires Possible(r, e)
    ensures e.Post? ==> s.relay.queue == r.queue + [e.u]
    ensures e == WriteCompleted(true) ==> s.relay.queue == r.queue[1..]
    ensures !e.Post? && e != WriteCompleted(true) ==> s.relay.queue == r.queue
    ensures s.sent.Some? ==> e.Post? || e == WriteCompleted(true) || e == ConnectCompleted(true)
  {
    match e
    case Post(u) => WriteUpdate(r, u)
    case WriteCompleted(ok) => WriteDone(r, ok)
    case ConnectCompleted(ok) => ConnectDone(side, r, ok)
    case PingFailed => Step(PingLost(r), None)
  }

  /** The relay keeps its one invariant under every possible event. */
  lemma ApplyKeepsWriting(side: Side, r: Relay, e: Event)
    requires r.writing ==> |r.queue| > 0
    requires Possible(r, e)
    ensures Apply(side, r, e).relay.writing ==> |Apply(side, r, e).relay.queue| > 0
  {
  }

  /** Whether the whole trace can happen, from r on. */
  predicate PossibleTrace(side: Side, r: Relay, es: seq<Event>)
    requires r.writing ==> |r.queue| > 0
    decreases |es|
  {
    |es| == 0 ||
    (Possible(r, es[0]) &&
     (ApplyKeepsWriting(side, r, es[0]);
      PossibleTrace(side, Apply(side, r, es[0]).relay, es[1..])))
  }

  /** The relay after the trace, with the updates the master confirmed, in confirmation order. */
  datatype Run = Run(relay: Relay, delivered: seq<Update>)

  function RunTrace(side: Side, r: Relay, es: seq<Event>): (run: Run)
    requires r.writing ==> |r.queue| > 0
    requires PossibleTrace(side, r, es)
    ensures run.relay.writing ==> |run.relay.queue| > 0
    decreases |es|
  {
    if |es| == 0 then Run(r, [])
    else
      ApplyKeepsWriting(side, r, es[0]);
      var s := Apply(side, r, es[0]);
      var rest := RunTrace(side, s.relay, es[1..]);
      Run(rest.relay, Confirmed(r, es[0]) + rest.delivered)
  }

  /** The update the master confirms with this event: the front, on a successful write. */
  function Confirmed(r: Relay, e: Event): seq<Update>
    requires Possible(r, e)
  {
    if e == WriteCompleted(true) then [r.queue[0]] else []
  }

  function PostedBy(e: Event): seq<Update> {
    if e.Post? then [e.u] else []
  }

  /** The updates the trace posts, in order. */
  function Posted(es: seq<Event>): seq<Update>
    decreases |es|
  {
    if |es| == 0 then [] else PostedBy(es[0]) + Posted(es[1..])
  }

  /** One event: the confirmed update and the queue after it are the queue before it and the posted update. */
  lemma ApplyConserves(side: Side, r: Relay, e: Event)
    requires Possible(r, e)
    ensures Confirmed(r, e) + Apply(side, r, e).relay.queue == r.queue + PostedBy(e)
  {
    if e == WriteCompleted(true) {
      assert [r.queue[0]] + r.queue[1..] == r.queue;
    }
  }

  /**
   * Nothing is lost, duplicated or reordered: what the master confirmed,
   * followed by what is still queued, is what was queued at the start
   * followed by everything posted, in posting order.
   */
  lemma {:induction false} FifoNoneDropped(side: Side, r: Relay, es: seq<Event>)
    requires r.writing ==> |r.queue| > 0
    requires PossibleTrace(side, r, es)
    ensures RunTrace(side, r, es).delivered + RunTrace(side, r, es).relay.queue == r.queue + Posted(es)
    decreases |es|
  {
    if |es| == 0 {
      assert r.queue + [] == r.queue;
    } else {
      ApplyKeepsWriting(side, r, es[0]);
      var s := Apply(side, r, es[0]);
      FifoNoneDropped(side, s.relay, es[1..]);
      ApplyConserves(side, r, es[0]);
      var rest := RunTrace(side, s.relay, es[1..]);
      Splice(r.queue, Confirmed(r, es[0]), s.relay.queue, PostedBy(es[0]),
        rest.delivered, rest.relay.queue, Posted(es[1..]));
    }
  }

  /** The bookkeeping step of FifoNoneDropped, on plain sequences. */
  lemma Splice(q: seq<Update>, c: seq<Update>, q1: seq<Update>, p: seq<Update>,
               d: seq<Update>, q2: seq<Update>, ps: seq<Update>)
    requires c + q1 == q + p
    requires d + q2 == q1 + ps
    ensures (c + d) + q2 == q + (p + ps)
  {
    calc {
      (c + d) + q2;
      c + (d + q2);
      c + (q1 + ps);
      (c + q1) + ps;
      (q + p) + ps;
    }
  }

  /** Every write the relay starts is of the front of its queue. */
  lemma SendsOnlyTheFront(side: Side, r: Relay, e: Event)
    requires r.writing ==> |r.queue| > 0
    requires Possible(r, e)
    ensures Apply(side, r, e).sent.Some? ==>
      |Apply(side, r, e).relay.queue| > 0 && Apply(side, r, e).sent.value == Apply(side, r, e).relay.queue[0]
    ensures Apply(side, r, e).sent.Some? ==> Apply(side, r, e).relay.writing
  {
  }

  /**
   * A connected relay never sits on a non-empty queue without a write in
   * flight, except after a lost ping has closed its socket.
   */
  predicate Busy(r: Relay) {
    r.connected && |r.queue| > 0 ==> r.writing
  }

  lemma ApplyKeepsBusy(side: Side, r: Relay, e: Event)
    requires r.writing ==> |r.queue| > 0
    requires Busy(r) && Possible(r, e)
    ensures Busy(Apply(side, r, e).relay)
  {
  }

  // ------------------------------------------------------------ producers

  /**
   * database::erase, report and whitelist: an update of the given kind for
   * the hex hash, stamped with the current time, handed to write_update.
   * A hash text of the wrong length leaves the signature bytes as they
   * were (`prior`).
   */
  function Request(r: Relay, hex: string, kind: u32, now: u32, prior: Signature): (s: Step)
    ensures |s.relay.queue| == |r.queue| + 1
    ensures s.relay.queue[|r.queue|] == Update(FromHex(hex, prior), kind, now)
    ensures s.relay.queue[..|r.queue|] == r.queue
  {
    WriteUpdate(r, Make(FromHex(hex, prior), kind, now))
  }

  /** A correctly written hash reaches the queue as the signature it spells. */
  lemma RequestCarriesSignature(r: Relay, hex: string, kind: u32, now: u32, prior: Signature)
    requires DecodeSignature(hex).Some?
    ensures Request(r, hex, kind, now, prior).relay.queue[|r.queue|].hash == DecodeSignature(hex).value
  {
  }

  /**
   * slave::session::handle_read: each complete update read from a slave
   * session is handed to write_update in arrival order.
   */
  function Forward(stream: seq<byte>): (es: seq<Event>)
    ensures Posted(es) == ReadUpdates(stream)
    ensures forall i :: 0 <= i < |es| ==> es[i].Post?
  {
    PostsOf(ReadUpdates(stream))
  }

  function PostsOf(us: seq<Update>): (es: seq<Event>)
    ensures |es| == |us| && Posted(es) == us
    ensures forall i :: 0 <= i < |es| ==> es[i] == Post(us[i])
    decreases |us|
  {
    if |us| == 0 then [] else [Post(us[0])] + PostsOf(us[1..])
  }

  /** Updates a slave encodes and sends are queued at the master side exactly as sent. */
  lemma ForwardAfterSend(us: seq<Update>)
    ensures Posted(Forward(EncodeAll(us))) == us
  {
    ReadAfterSend(us, []);
    assert EncodeAll(us) + [] == EncodeAll(us);
  }
}
