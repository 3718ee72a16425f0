/** A schedule in which the two processes run to completion: what Agreement states is not empty. */
module Completion {
  import opened ByteOrder
  import opened Codec
  import opened FrameIO
  import opened Transport
  import opened Session
  import opened ClientScript
  import opened Agreement

  /** One more enabled action. */
  lemma {:induction false} Extend(cfg: Config, w: World, schedule: seq<Action>, a: Action)
    requires Enabled(Reach(cfg, w, schedule), a)
    ensures Reach(cfg, w, schedule + [a]) == Step(cfg, Reach(cfg, w, schedule), a)
    decreases |schedule|
  {
    hide Step, Enabled;
    if schedule == [] {
      assert schedule + [a] == [a] && [a][1..] == [];
    } else {
      assert (schedule + [a])[1..] == schedule[1..] + [a];
      Extend(cfg, if Enabled(w, schedule[0]) then Step(cfg, w, schedule[0]) else w, schedule[1..], a);
    }
  }

  predicate Reaches(cfg: Config, now: nat, schedule: seq<Action>, w: World) {
    Reach(cfg, Initial(now), schedule) == w
  }

  /** Performs an enabled action after a schedule. */
  lemma Do(cfg: Config, now: nat, schedule: seq<Action>, w: World, a: Action) returns (longer: seq<Action>, next: World)
    requires Reaches(cfg, now, schedule, w) && Enabled(w, a)
    ensures next == Step(cfg, w, a) && Reaches(cfg, now, longer, next)
  {
    hide Step, Enabled;
    Extend(cfg, Initial(now), schedule, a);
    longer := schedule + [a];
    next := Step(cfg, w, a);
  }

  /** Nothing is buffered, in flight or queued in either direction, and both processes are running. */
  predicate Quiet(w: World) {
    && w.client.open && w.client.buf == [] && w.client.out == []
    && w.server.running && !w.server.checked && w.server.buf == [] && w.server.out == []
    && w.up == Channel([], false) && w.down == Channel([], false)
  }

  lemma WholeFrame(f: Frame)
    requires Valid(f)
    ensures HEADER_SIZE <= |Encode(f)| <= RBUF_SIZE && Decode(Encode(f)) == Got(f, |Encode(f)|)
  {
    DecodeOfEncode(f, []);
    assert Encode(f) + [] == Encode(f);
  }

  lemma NothingBuffered(e: seq<byte>)
    ensures Decode([]).Incomplete? && [] + e == e && e[..|e|] == e && e[|e|..] == []
  {
  }

  /** The client sends a frame and the server takes it in one pass. */
  lemma ClientToServer(cfg: Config, now: nat, s: seq<Action>, w: World, f: Frame) returns (s': seq<Action>, w': World)
    requires Reaches(cfg, now, s, w) && Quiet(w)
    requires Valid(f) && MaySend(w.client.trace, f)
    requires Receives(w.server.sess.phase) && OnTimeout(cfg, w.server.sess, now) == w.server.sess
    ensures Reaches(cfg, now, s', w')
    ensures w' == w.(client := w.client.(trace := w.client.trace + [Tx(f)]),
                     server := Reacted(w.server, OnReceive(cfg, w.server.sess, Delivered(f), now), [Rx(f)], [], w.down))
  {
    hide Encode, Decode, Valid, MaySend, OnTimeout, OnReceive, Receives, Reaches;
    var e := Encode(f);
    WholeFrame(f);
    NothingBuffered(e);
    s', w' := Do(cfg, now, s, w, ClientSend(f));
    s', w' := Do(cfg, now, s', w', ClientWrite(|e|));
    assert w'.up.flight == e;
    s', w' := Do(cfg, now, s', w', ServerCheck(now));
    s', w' := Do(cfg, now, s', w', ServerRead(|e|));
    assert w'.server.buf == e;
    s', w' := Do(cfg, now, s', w', ServerTake(now));
  }

  /** The frame the server has queued reaches the client. */
  lemma ServerToClient(cfg: Config, now: nat, s: seq<Action>, w: World, f: Frame) returns (s': seq<Action>, w': World)
    requires Reaches(cfg, now, s, w) && w.server.out == Encode(f) && Quiet(w.(server := w.server.(out := [])))
    requires Valid(f) && Awaits(w.client.trace)
    ensures Reaches(cfg, now, s', w')
    ensures w' == w.(client := w.client.(trace := w.client.trace + [Rx(f)]), server := w.server.(out := []))
  {
    hide Encode, Decode, Valid, Awaits, Reaches;
    var e := Encode(f);
    WholeFrame(f);
    NothingBuffered(e);
    s', w' := Do(cfg, now, s, w, ServerWrite(|e|));
    assert w'.down.flight == e;
    s', w' := Do(cfg, now, s', w', ClientRead(|e|));
    assert w'.client.buf == e;
    s', w' := Do(cfg, now, s', w', ClientTake);
  }

  /** The server prepares the log and queues its notification. */
  lemma ServerPrepares(cfg: Config, now: nat, s: seq<Action>, w: World) returns (s': seq<Action>, w': World)
    requires Reaches(cfg, now, s, w) && Quiet(w)
    requires w.server.sess.phase == WaitingUploadRequest && OnTimeout(cfg, w.server.sess, now) == w.server.sess
    ensures Reaches(cfg, now, s', w')
    ensures w' == w.(server := Reacted(w.server, OnPrepare(w.server.sess, 0, now), [], [], w.down))
  {
    hide Encode, Decode, OnTimeout, OnPrepare, Reaches;
    s', w' := Do(cfg, now, s, w, ServerCheck(now));
    s', w' := Do(cfg, now, s', w', ServerPrepare(0, now));
  }

  /** A successful result message of the client. */
  function Success(msgType: byte): (f: Frame)
    ensures Valid(f) && f.msgType == msgType && f.seqNum == SEQ && f.status == STAT_SUCCESS
  {
    TextLengths(0);
    Made(SEQ, msgType, STAT_SUCCESS, [], 0)
  }

  lemma StartsHere(cfg: Config, now: nat)
    ensures Reaches(cfg, now, [], Initial(now))
  {
  }

  lemma Unfold(cfg: Config, now: nat, s: seq<Action>, w: World)
    requires Reaches(cfg, now, s, w)
    ensures Reach(cfg, Initial(now), s) == w
  {
  }

  /** With a clock that does not exceed the timeout the session can complete. */
  lemma CompletionIsReachable(cfg: Config, now: nat)
    requires cfg.sessionTimeoutMs >= 0
    ensures exists schedule :: Reach(cfg, Initial(now), schedule).server.sess.phase == Completed
  {
    hide Encode, Decode, Valid, Reaches, AckOk, AckBad, NotifyDone, Request, Success;
    var s: seq<Action>, w := [], Initial(now);
    assert Reaches(cfg, now, s, w) by { StartsHere(cfg, now); }
    ReplyFields(SEQ, 0);
    s, w := ClientToServer(cfg, now, s, w, Request());
    var ack, notify := AckOk(SEQ), NotifyDone(SEQ, 0);
    assert w.server.sess == Sess(WaitingUploadRequest, SEQ, now) && w.server.out == Encode(ack);
    assert Said(OnReceive(cfg, Sess(Init, 0, now), Delivered(Request()), now)) == [Tx(ack)];
    assert w.client.trace == [Tx(Request())];
    assert Quiet(w.(server := w.server.(out := [])));
    s, w := ServerToClient(cfg, now, s, w, ack);
    s, w := ServerPrepares(cfg, now, s, w);
    s, w := ServerToClient(cfg, now, s, w, notify);
    var login, download := Success(FTP_LOGIN_RESULT), Success(FTP_DOWNLOAD_RESULT);
    s, w := ClientToServer(cfg, now, s, w, login);
    s, w := ClientToServer(cfg, now, s, w, download);
    assert w.server.sess.phase == Completed;
    assert Reach(cfg, Initial(now), s) == w by { Unfold(cfg, now, s, w); }
  }
}
