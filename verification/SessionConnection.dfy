/** A run of the session against its connection: what the trace tells is what passed over the socket. */
module SessionConnection {
  import opened Codec
  import opened Stream
  import opened Transport
  import opened Session
  import opened SessionLaws

  /** What the trace tells is what k receive calls took from the wire and what the sends handed to the outlet. */
  predicate Connected(t: Thread, wire: Wire, outlet: Outlet, k: nat)
    requires |wire.buf| <= RBUF_SIZE
  {
    var r := ReceiveMany(wire, k);
    && t.wire == r.wire && Receipts(t.trace) == Frames(r.outcomes)
    && t.outlet == SendMany(outlet, Sends(t.trace)).outlet && AllValid(Sends(t.trace))
  }

  /** One more receive call. */
  lemma HeardConnected(t: Thread, wire: Wire, outlet: Outlet, k: nat)
    requires Ready(t) && |wire.buf| <= RBUF_SIZE && Connected(t, wire, outlet, k)
    ensures var r := Receive(t.wire); Connected(t.(wire := r.wire, trace := t.trace + Heard(r.outcome)), wire, outlet, k + 1)
  {
    hide Receive, ReceiveMany, Sends, Receipts, SendMany, Frames, AllValid;
    var o := Receive(t.wire).outcome;
    ReceiveOneMore(wire, k);
    FramesAppend(ReceiveMany(wire, k).outcomes, o);
    if o.Delivered? {
      OneMoreEvent(t.trace, Rx(o.frame));
      assert Sends(t.trace) + [] == Sends(t.trace);
    } else {
      assert t.trace + [] == t.trace;
      assert Receipts(t.trace) + [] == Receipts(t.trace);
    }
  }

  /** One more reply, if any. */
  lemma SaidConnected(t: Thread, a: Reaction, wire: Wire, outlet: Outlet, k: nat)
    requires |wire.buf| <= RBUF_SIZE && Connected(t, wire, outlet, k)
    requires a.reply.Some? ==> Valid(a.reply.value)
    ensures Connected(t.(sess := a.sess, outlet := Reply(t.outlet, a), trace := t.trace + Said(a)), wire, outlet, k)
  {
    hide Send, Valid, ReceiveMany, Sends, Receipts, SendMany, Frames;
    if a.reply.Some? {
      OneMoreEvent(t.trace, Tx(a.reply.value));
      SendManyAppend(outlet, Sends(t.trace), a.reply.value);
      assert Receipts(t.trace) + [] == Receipts(t.trace);
    } else {
      assert t.trace + [] == t.trace;
    }
  }

  lemma IterateConnected(cfg: Config, t: Thread, tick: Tick, wire: Wire, outlet: Outlet, k: nat) returns (k': nat)
    requires Ready(t) && |wire.buf| <= RBUF_SIZE && Connected(t, wire, outlet, k)
    ensures Connected(Iterate(cfg, t, tick), wire, outlet, k')
  {
    var s := OnTimeout(cfg, t.sess, tick.now);
    k' := k;
    if Receives(s.phase) {
      var r := Receive(t.wire);
      var a := OnReceive(cfg, s, r.outcome, tick.later);
      ReplyIsValid(cfg, s, r.outcome, tick.die, tick.later);
      hide Receive, Valid, Connected, OnReceive, Heard, Said, Reply;
      HeardConnected(t, wire, outlet, k);
      SaidConnected(t.(wire := r.wire, trace := t.trace + Heard(r.outcome)), a, wire, outlet, k + 1);
      k' := k + 1;
    } else if s.phase == WaitingUploadRequest {
      ReplyIsValid(cfg, s, Stopped, tick.die, tick.later);
      SaidConnected(t, OnPrepare(s, tick.die, tick.later), wire, outlet, k);
    }
  }

  lemma {:induction false} AfterConnected(cfg: Config, t: Thread, ticks: nat -> Tick, i: nat, n: nat, wire: Wire, outlet: Outlet, k: nat)
    returns (k': nat)
    requires Ready(t) && |wire.buf| <= RBUF_SIZE && Connected(t, wire, outlet, k)
    ensures Connected(After(cfg, t, ticks, i, n), wire, outlet, k')
    decreases n
  {
    hide Iterate, Connected;
    k' := k;
    if n > 0 && t.running && ticks(i).up {
      IterateProgress(cfg, t, ticks(i));
      k' := IterateConnected(cfg, t, ticks(i), wire, outlet, k);
      k' := AfterConnected(cfg, Iterate(cfg, t, ticks(i)), ticks, i + 1, n - 1, wire, outlet, k');
    }
  }

  /** In every state of every run the trace is what was received from the wire and handed to the socket, send by send. */
  lemma TraceIsConnection(cfg: Config, wire: Wire, outlet: Outlet, now: nat, ticks: nat -> Tick, n: nat) returns (k: nat)
    requires |wire.buf| <= RBUF_SIZE
    ensures Connected(After(cfg, Start(wire, outlet, now), ticks, 0, n), wire, outlet, k)
  {
    k := AfterConnected(cfg, Start(wire, outlet, now), ticks, 0, n, wire, outlet, 0);
  }

  /** On a stream of frames a session receives the leading ones, in order. */
  lemma SessionInput(cfg: Config, wire: Wire, outlet: Outlet, now: nat, ticks: nat -> Tick, n: nat, fs: seq<Frame>)
    requires |wire.buf| <= RBUF_SIZE && AllValid(fs) && Pending(wire) == EncodeAll(fs)
    ensures var u := After(cfg, Start(wire, outlet, now), ticks, 0, n);
      var got := Receipts(u.trace);
      got <= fs && Pending(u.wire) == EncodeAll(fs[|got|..])
  {
    hide ReceiveMany, AllValid, Pending, EncodeAll, Frames, After, Start, Receipts, Sends, SendMany;
    var k := TraceIsConnection(cfg, wire, outlet, now, ticks, n);
    Fifo(wire, fs, k);
  }

  lemma {:induction false} EncodeAllIsShort(fs: seq<Frame>)
    requires AllValid(fs)
    ensures |EncodeAll(fs)| <= |fs| * MAX_FRAME
  {
    hide Encode;
    if fs != [] {
      EncodeAllIsShort(fs[1..]);
    }
  }

  /** While the socket takes two frames, every reply of a session is on the wire, whole and in order. */
  lemma SessionOutput(cfg: Config, wire: Wire, outlet: Outlet, now: nat, ticks: nat -> Tick, n: nat)
    requires |wire.buf| <= RBUF_SIZE && Steady(outlet.script) && Accepts(outlet.script) >= 2 * MAX_FRAME
    ensures var u := After(cfg, Start(wire, outlet, now), ticks, 0, n);
      u.outlet.sent == outlet.sent + EncodeAll(Sends(u.trace))
  {
    var sends := Sends(After(cfg, Start(wire, outlet, now), ticks, 0, n).trace);
    hide ReceiveMany, AllValid, EncodeAll, Frames, After, Start, Receipts, Sends, SendMany, Steady, Accepts, Tells;
    var k := TraceIsConnection(cfg, wire, outlet, now, ticks, n);
    SessionDiscipline(cfg, wire, outlet, now, ticks, n);
    EncodeAllIsShort(sends);
    SteadySends(outlet, sends);
    SendManyBytes(outlet, sends);
  }
}
