/** Sessions that complete: every story that ends well is the run of some connection. */
module SessionCompletion {
  import opened ByteOrder
  import opened Codec
  import opened Sequences
  import opened Stream
  import opened Transport
  import opened Session
  import opened SessionLaws

  /** The i-th pass is not late for a session last active at the given time. */
  predicate InTime(cfg: Config, last: nat, ticks: nat -> Tick, i: nat) {
    ElapsedAsInt(ticks(i).now, last) <= cfg.sessionTimeoutMs
  }

  /** No pass is late with respect to the start or to an earlier activity, and the server is not shut down. */
  ghost predicate Timely(cfg: Config, now: nat, ticks: nat -> Tick) {
    && (forall i :: ticks(i).up)
    && (forall i :: InTime(cfg, now, ticks, i))
    && (forall i, j :: j < i ==> InTime(cfg, ticks(j).later, ticks, i))
  }

  /** From the i-th pass on the session is in time, unless its activity is renewed. */
  ghost predicate Fresh(cfg: Config, t: Thread, ticks: nat -> Tick, i: nat) {
    t.running && (forall j :: j >= i ==> ticks(j).up) && forall j :: j >= i ==> InTime(cfg, t.sess.lastActiveMs, ticks, j)
  }

  /** The frames still to come, undisturbed. */
  predicate Coming(t: Thread, fs: seq<Frame>) {
    Ready(t) && AllValid(fs) && Pending(t.wire) == EncodeAll(fs) && Breaks(t.wire.script) == 0
  }

  /** A pass in time takes the next frame. */
  lemma PassTakesNext(cfg: Config, t: Thread, ticks: nat -> Tick, i: nat, fs: seq<Frame>)
    requires Coming(t, fs) && fs != [] && Fresh(cfg, t, ticks, i) && Receives(t.sess.phase)
    ensures var u := Iterate(cfg, t, ticks(i)); var a := OnReceive(cfg, t.sess, Delivered(fs[0]), ticks(i).later);
      && Coming(u, fs[1..]) && u.running && u.sess == a.sess
      && u.trace == t.trace + [Rx(fs[0])] + Said(a)
  {
    hide Receive, Encode, Decode, Valid, Pending, Breaks, OnReceive, Send, Said;
    assert InTime(cfg, t.sess.lastActiveMs, ticks, i);
    ReceiveAccounts(t.wire);
    ReceiveNext(t.wire, fs[0], EncodeAll(fs[1..]));
  }

  function Received(es: seq<Event>): seq<Frame>
    requires forall i :: 0 <= i < |es| ==> es[i].Rx?
  {
    seq(|es|, i requires 0 <= i < |es| => es[i].frame)
  }

  /** A running session in time, with what it has come to and the frames still to come. */
  ghost predicate Stands(cfg: Config, t: Thread, ticks: nat -> Tick, i: nat, s: Sess, trace: seq<Event>, fs: seq<Frame>) {
    t.sess == s && t.trace == trace && Coming(t, fs) && Fresh(cfg, t, ticks, i)
  }

  lemma AfterUnfolds(cfg: Config, t: Thread, ticks: nat -> Tick, i: nat, n: nat)
    requires Ready(t) && t.running && ticks(i).up
    ensures var u := Iterate(cfg, t, ticks(i)); Ready(u) && After(cfg, t, ticks, i, n + 1) == After(cfg, u, ticks, i + 1, n)
  {
    hide Iterate;
    IterateProgress(cfg, t, ticks(i));
  }

  lemma PassesOverOne(cfg: Config, t: Thread, ticks: nat -> Tick, i: nat, n: nat, s: Sess, trace: seq<Event>, fs: seq<Frame>)
    requires Receives(s.phase) && fs != [] && fs[0].msgType != Expected(s.phase)
    requires Stands(cfg, t, ticks, i, s, trace, fs)
    ensures var u := Iterate(cfg, t, ticks(i));
      && Stands(cfg, u, ticks, i + 1, s, trace + [Rx(fs[0])], fs[1..])
      && Ready(t) && Ready(u) && After(cfg, t, ticks, i, n + 1) == After(cfg, u, ticks, i + 1, n)
  {
    PassTakesNext(cfg, t, ticks, i, fs);
    AfterUnfolds(cfg, t, ticks, i, n);
    hide Iterate, InTime, After;
    assert t.trace + [Rx(fs[0])] + [] == t.trace + [Rx(fs[0])];
  }

  lemma ReceivedCons(es: seq<Event>, rest: seq<Frame>, expected: byte)
    requires es != [] && Ignored(es, expected)
    ensures var fs := Received(es) + rest;
      && fs != [] && es[0] == Rx(fs[0]) && fs[0].msgType != expected
      && Ignored(es[1..], expected) && fs[1..] == Received(es[1..]) + rest
  {
  }

  lemma NothingReceived(es: seq<Event>, rest: seq<Frame>)
    requires es == []
    ensures Received(es) + rest == rest
  {
  }

  /** Frames of other types are passed over. */
  lemma {:induction false} PassesOver(cfg: Config, t: Thread, ticks: nat -> Tick, i: nat, s: Sess, trace: seq<Event>, es: seq<Event>, rest: seq<Frame>)
    requires Receives(s.phase) && Ignored(es, Expected(s.phase))
    requires Stands(cfg, t, ticks, i, s, trace, Received(es) + rest)
    ensures Ready(t) && Stands(cfg, After(cfg, t, ticks, i, |es|), ticks, i + |es|, s, trace + es, rest)
    decreases |es|
  {
    assert Ready(t);
    if es == [] {
      AfterNothing(cfg, t, ticks, i);
      NothingReceived(es, rest);
      assert trace + es == trace;
    } else {
      ReceivedCons(es, rest, Expected(s.phase));
      hide *;
      PassesOverOne(cfg, t, ticks, i, |es| - 1, s, trace, Received(es) + rest);
      PassesOver(cfg, Iterate(cfg, t, ticks(i)), ticks, i + 1, s, trace + [es[0]], es[1..], rest);
      ConcatCons(trace, es);
    }
  }

  /** The run goes on from where some passes left it. */
  lemma {:induction false} AfterAfter(cfg: Config, t: Thread, ticks: nat -> Tick, i: nat, m: nat, n: nat)
    requires Ready(t) && forall j :: j >= i ==> ticks(j).up
    ensures After(cfg, After(cfg, t, ticks, i, m), ticks, i + m, n) == After(cfg, t, ticks, i, m + n)
    decreases m
  {
    hide Iterate;
    if m > 0 && t.running {
      IterateProgress(cfg, t, ticks(i));
      AfterAfter(cfg, Iterate(cfg, t, ticks(i)), ticks, i + 1, m - 1, n);
    }
  }

  /** Whether a phase accepts f, moving on to another. */
  predicate Admits(cfg: Config, p: Phase, f: Frame) {
    Receives(p) && f.msgType == Expected(p) &&
    (if p == Init then cfg.validateVersion ==> f.major == VERSION_MAJOR else f.status == STAT_SUCCESS)
  }

  function Next(p: Phase): Phase {
    match p
    case Init => WaitingUploadRequest
    case WaitingUploadRequest => WaitingFtpLoginResult
    case WaitingFtpLoginResult => WaitingFtpDownloadResult
    case WaitingFtpDownloadResult => Completed
    case _ => Error
  }

  /** What a phase answers to the message it waits for. */
  function Answer(p: Phase, f: Frame): seq<Event> {
    if p == Init then [Tx(AckOk(f.seqNum))] else []
  }

  /** A session one phase further on, active at the given time. */
  function Advanced(s: Sess, f: Frame, later: nat): Sess {
    Sess(Next(s.phase), if s.phase == Init then f.seqNum else s.seqNum, later)
  }

  lemma AdmittingMovesOn(cfg: Config, s: Sess, f: Frame, later: nat)
    requires Admits(cfg, s.phase, f)
    ensures var a := OnReceive(cfg, s, Delivered(f), later); a.sess == Advanced(s, f, later) && Said(a) == Answer(s.phase, f)
  {
    hide AckOk, AckBad;
  }

  lemma StaysFresh(cfg: Config, u: Thread, now: nat, ticks: nat -> Tick, i: nat)
    requires Timely(cfg, now, ticks) && u.running && u.sess.lastActiveMs == ticks(i).later
    ensures Fresh(cfg, u, ticks, i + 1)
  {
    hide InTime;
  }

  lemma PassAdmits(cfg: Config, t: Thread, now: nat, ticks: nat -> Tick, i: nat, s: Sess, trace: seq<Event>, f: Frame, rest: seq<Frame>)
    requires Admits(cfg, s.phase, f) && Timely(cfg, now, ticks) && Stands(cfg, t, ticks, i, s, trace, [f] + rest)
    ensures Stands(cfg, Iterate(cfg, t, ticks(i)), ticks, i + 1, Advanced(s, f, ticks(i).later),
                   trace + [Rx(f)] + Answer(s.phase, f), rest)
  {
    PassTakesNext(cfg, t, ticks, i, [f] + rest);
    assert ([f] + rest)[1..] == rest;
    AdmittingMovesOn(cfg, s, f, ticks(i).later);
    var u := Iterate(cfg, t, ticks(i));
    StaysFresh(cfg, u, now, ticks, i);
    hide Iterate, InTime, Answer, OnReceive, Said;
  }

  lemma GoesOn(cfg: Config, t: Thread, now: nat, ticks: nat -> Tick, i: nat, n: nat, s: Sess, trace: seq<Event>, fs: seq<Frame>)
    requires Ready(t) && Timely(cfg, now, ticks)
    requires Stands(cfg, After(cfg, t, ticks, i, n), ticks, i + n, s, trace, fs)
    ensures After(cfg, t, ticks, i, n + 1) == Iterate(cfg, After(cfg, t, ticks, i, n), ticks(i + n))
  {
    hide Iterate, After, InTime;
    AfterOneMore(cfg, t, ticks, i, n);
  }

  /** A phase passes over what it does not wait for and takes what it does. */
  lemma StageTakes(cfg: Config, t: Thread, now: nat, ticks: nat -> Tick, i: nat, s: Sess, trace: seq<Event>,
                   es: seq<Event>, f: Frame, rest: seq<Frame>)
    requires Receives(s.phase) && Ignored(es, Expected(s.phase)) && Admits(cfg, s.phase, f) && Timely(cfg, now, ticks)
    requires Stands(cfg, t, ticks, i, s, trace, Received(es) + ([f] + rest))
    ensures Ready(t) && Stands(cfg, After(cfg, t, ticks, i, |es| + 1), ticks, i + |es| + 1, Advanced(s, f, ticks(i + |es|).later),
                               trace + es + [Rx(f)] + Answer(s.phase, f), rest)
  {
    hide *;
    PassesOver(cfg, t, ticks, i, s, trace, es, [f] + rest);
    var v, k, tr, fs := After(cfg, t, ticks, i, |es|), i + |es|, trace + es, [f] + rest;
    PassAdmits(cfg, v, now, ticks, k, s, tr, f, rest);
    GoesOn(cfg, t, now, ticks, i, |es|, s, tr, fs);
  }

  lemma StagePrepares(cfg: Config, t: Thread, now: nat, ticks: nat -> Tick, i: nat, s: Sess, trace: seq<Event>, fs: seq<Frame>)
    requires s.phase == WaitingUploadRequest && Prepared(ticks(i).die).status == STAT_SUCCESS && Timely(cfg, now, ticks)
    requires Stands(cfg, t, ticks, i, s, trace, fs)
    ensures Ready(t) && Stands(cfg, After(cfg, t, ticks, i, 1), ticks, i + 1, Advanced(s, AckOk(0), ticks(i).later),
                               trace + [Tx(NotifyDone(s.seqNum, ticks(i).die))], fs)
  {
    assert InTime(cfg, t.sess.lastActiveMs, ticks, i);
    AfterUnfolds(cfg, t, ticks, i, 0);
    var u := Iterate(cfg, t, ticks(i));
    AfterNothing(cfg, u, ticks, i + 1);
    StaysFresh(cfg, u, now, ticks, i);
    hide Coming, Prepared, NotifyDone, After, InTime, Send;
  }

  function InboundAfterUpload(s: Story): seq<Frame>
    requires Ignored(s.idle1, FTP_LOGIN_RESULT) && Ignored(s.idle2, FTP_DOWNLOAD_RESULT)
  {
    Received(s.idle1) + ([s.login] + (Received(s.idle2) + ([s.download] + [])))
  }

  /** The frames a story lets the client send. */
  function Inbound(s: Story): seq<Frame>
    requires Ignored(s.idle, UPLOAD_REQUEST) && Ignored(s.idle1, FTP_LOGIN_RESULT) && Ignored(s.idle2, FTP_DOWNLOAD_RESULT)
  {
    Received(s.idle) + ([s.upload] + InboundAfterUpload(s))
  }

  lemma StoryInPieces(s: Story)
    ensures FullTrace(s) ==
      ((([] + s.idle + [Rx(s.upload)] + [Tx(AckOk(s.upload.seqNum))]) + [Tx(NotifyDone(s.upload.seqNum, s.die))])
       + s.idle1 + [Rx(s.login)] + []) + s.idle2 + [Rx(s.download)] + []
  {
    hide AckOk, NotifyDone;
    assert UploadTrace(s) == [] + s.idle + [Rx(s.upload)] + [Tx(AckOk(s.upload.seqNum))];
    assert LoginTrace(s) + [Rx(s.login)] ==
      ((UploadTrace(s) + [Tx(NotifyDone(s.upload.seqNum, s.die))]) + s.idle1 + [Rx(s.login)] + []);
  }

  /** A session that stands in COMPLETED stops there. */
  lemma StaysCompleted(cfg: Config, t: Thread, now: nat, ticks: nat -> Tick, n: nat, s: Sess, trace: seq<Event>, fs: seq<Frame>)
    requires Ready(t) && Timely(cfg, now, ticks) && s.phase == Completed
    requires Stands(cfg, After(cfg, t, ticks, 0, n), ticks, n, s, trace, fs)
    ensures var u := After(cfg, t, ticks, 0, n + 1);
      !u.running && u.sess.phase == Completed && u.trace == trace && Pending(u.wire) == EncodeAll(fs)
  {
    hide Iterate, After, Pending, EncodeAll;
    GoesOn(cfg, t, now, ticks, 0, n, s, trace, fs);
    var v := After(cfg, t, ticks, 0, n);
    assert InTime(cfg, v.sess.lastActiveMs, ticks, n);
    CompletedEnds(cfg, v, ticks(n));
  }

  lemma TakesUpload(cfg: Config, t: Thread, now: nat, ticks: nat -> Tick, s: Story, s0: Sess, rest: seq<Frame>)
    requires Done(cfg, s) && Timely(cfg, now, ticks) && s0.phase == Init
    requires Stands(cfg, t, ticks, 0, s0, [], Received(s.idle) + ([s.upload] + rest))
    ensures var n := |s.idle| + 1;
      && Ready(t) && Stands(cfg, After(cfg, t, ticks, 0, n), ticks, n, Sess(WaitingUploadRequest, s.upload.seqNum, ticks(n - 1).later),
                            [] + s.idle + [Rx(s.upload)] + [Tx(AckOk(s.upload.seqNum))], rest)
  {
    hide After, AckOk, Stands, Timely, Received;
    StageTakes(cfg, t, now, ticks, 0, s0, [], s.idle, s.upload, rest);
  }

  lemma Prepares(cfg: Config, t: Thread, now: nat, ticks: nat -> Tick, i: nat, s: Story, s1: Sess, trace: seq<Event>, rest: seq<Frame>)
    requires Done(cfg, s) && Timely(cfg, now, ticks) && s1.phase == WaitingUploadRequest && ticks(i).die == s.die
    requires Stands(cfg, t, ticks, i, s1, trace, rest)
    ensures Ready(t) && Stands(cfg, After(cfg, t, ticks, i, 1), ticks, i + 1, Sess(WaitingFtpLoginResult, s1.seqNum, ticks(i).later),
                               trace + [Tx(NotifyDone(s1.seqNum, s.die))], rest)
  {
    hide After, AckOk, Stands, Timely, NotifyDone, Prepared;
    StagePrepares(cfg, t, now, ticks, i, s1, trace, rest);
  }

  lemma TakesResult(cfg: Config, t: Thread, now: nat, ticks: nat -> Tick, i: nat, s2: Sess, trace: seq<Event>,
                    es: seq<Event>, f: Frame, rest: seq<Frame>)
    requires s2.phase == WaitingFtpLoginResult || s2.phase == WaitingFtpDownloadResult
    requires Ignored(es, Expected(s2.phase)) && Admits(cfg, s2.phase, f) && Timely(cfg, now, ticks)
    requires Stands(cfg, t, ticks, i, s2, trace, Received(es) + ([f] + rest))
    ensures var n := |es| + 1;
      && Ready(t) && Stands(cfg, After(cfg, t, ticks, i, n), ticks, i + n, Sess(Next(s2.phase), s2.seqNum, ticks(i + n - 1).later),
                            trace + es + [Rx(f)] + [], rest)
  {
    hide After, AckOk, Stands, Timely, Received, Ignored, Admits;
    StageTakes(cfg, t, now, ticks, i, s2, trace, es, f, rest);
  }

  lemma StoryStarts(cfg: Config, wire: Wire, outlet: Outlet, now: nat, ticks: nat -> Tick, fs: seq<Frame>)
    requires Timely(cfg, now, ticks)
    requires |wire.buf| <= RBUF_SIZE && AllValid(fs) && Pending(wire) == EncodeAll(fs) && Breaks(wire.script) == 0
    ensures Stands(cfg, Start(wire, outlet, now), ticks, 0, Sess(Init, 0, now), [], fs)
  {
    hide InTime, Pending, EncodeAll, Breaks, AllValid;
  }

  lemma AlwaysUp(cfg: Config, now: nat, ticks: nat -> Tick)
    requires Timely(cfg, now, ticks)
    ensures forall j :: ticks(j).up
  {
    hide InTime;
  }

  lemma ResultsOfStory(cfg: Config, s: Story)
    requires Done(cfg, s)
    ensures Ignored(s.idle1, Expected(WaitingFtpLoginResult)) && Admits(cfg, WaitingFtpLoginResult, s.login)
    ensures Ignored(s.idle2, Expected(WaitingFtpDownloadResult)) && Admits(cfg, WaitingFtpDownloadResult, s.download)
    ensures Next(WaitingFtpLoginResult) == WaitingFtpDownloadResult && Next(WaitingFtpDownloadResult) == Completed
    ensures EncodeAll([]) == []
  {
  }

  lemma InboundInPieces(cfg: Config, s: Story)
    requires Done(cfg, s)
    ensures Ignored(s.idle, UPLOAD_REQUEST) && Ignored(s.idle1, FTP_LOGIN_RESULT) && Ignored(s.idle2, FTP_DOWNLOAD_RESULT)
    ensures Inbound(s) == Received(s.idle) + ([s.upload] + InboundAfterUpload(s))
    ensures InboundAfterUpload(s) == Received(s.idle1) + ([s.login] + (Received(s.idle2) + ([s.download] + [])))
  {
    hide Prepared, Received;
  }

  /** The first half of a story, up to the word that the log is ready. */
  lemma StoryUntilNotify(cfg: Config, t: Thread, now: nat, ticks: nat -> Tick, s: Story, s0: Sess, rest: seq<Frame>)
    requires Done(cfg, s) && Timely(cfg, now, ticks) && s0.phase == Init && ticks(|s.idle| + 1).die == s.die
    requires Stands(cfg, t, ticks, 0, s0, [], Received(s.idle) + ([s.upload] + rest))
    ensures var n := |s.idle| + 2;
      && Ready(t) && Stands(cfg, After(cfg, t, ticks, 0, n), ticks, n, Sess(WaitingFtpLoginResult, s.upload.seqNum, ticks(n - 1).later),
                            ([] + s.idle + [Rx(s.upload)] + [Tx(AckOk(s.upload.seqNum))]) + [Tx(NotifyDone(s.upload.seqNum, s.die))], rest)
  {
    hide *;
    var a, q := |s.idle|, s.upload.seqNum;
    TakesUpload(cfg, t, now, ticks, s, s0, rest);
    var t1 := After(cfg, t, ticks, 0, a + 1);
    Prepares(cfg, t1, now, ticks, a + 1, s, Sess(WaitingUploadRequest, q, ticks(a).later),
             [] + s.idle + [Rx(s.upload)] + [Tx(AckOk(q))], rest);
    AlwaysUp(cfg, now, ticks);
    AfterAfter(cfg, t, ticks, 0, a + 1, 1);
  }

  /** The second half, with both results. */
  lemma StoryFromNotify(cfg: Config, t: Thread, now: nat, ticks: nat -> Tick, i: nat, s: Story, s2: Sess, trace: seq<Event>)
    requires Done(cfg, s) && Timely(cfg, now, ticks) && s2.phase == WaitingFtpLoginResult
    requires Stands(cfg, t, ticks, i, s2, trace, Received(s.idle1) + ([s.login] + (Received(s.idle2) + ([s.download] + []))))
    ensures var n := |s.idle1| + |s.idle2| + 2;
      && Ready(t) && Stands(cfg, After(cfg, t, ticks, i, n), ticks, i + n, Sess(Completed, s2.seqNum, ticks(i + n - 1).later),
                            (trace + s.idle1 + [Rx(s.login)] + []) + s.idle2 + [Rx(s.download)] + [], [])
  {
    hide *;
    ResultsOfStory(cfg, s);
    var b, c := |s.idle1|, |s.idle2|;
    TakesResult(cfg, t, now, ticks, i, s2, trace, s.idle1, s.login, Received(s.idle2) + ([s.download] + []));
    var t3 := After(cfg, t, ticks, i, b + 1);
    TakesResult(cfg, t3, now, ticks, i + b + 1, Sess(WaitingFtpDownloadResult, s2.seqNum, ticks(i + b).later),
                trace + s.idle1 + [Rx(s.login)] + [], s.idle2, s.download, []);
    AlwaysUp(cfg, now, ticks);
    AfterAfter(cfg, t, ticks, i, b + 1, c + 1);
  }

  /**
    The converse of the discipline: when the inbound stream is that of a story that ends
    well, in whatever pieces it arrives, no pass is late and the die falls as told, the
    session completes and its trace is the story's, to the last event.
   */
  lemma EveryStoryHappens(cfg: Config, s: Story, wire: Wire, outlet: Outlet, now: nat, ticks: nat -> Tick)
    requires Done(cfg, s) && Timely(cfg, now, ticks) && ticks(|s.idle| + 1).die == s.die
    requires |wire.buf| <= RBUF_SIZE && AllValid(Inbound(s)) && Pending(wire) == EncodeAll(Inbound(s)) && Breaks(wire.script) == 0
    ensures var u := After(cfg, Start(wire, outlet, now), ticks, 0, |s.idle| + |s.idle1| + |s.idle2| + 5);
      !u.running && u.sess.phase == Completed && u.trace == FullTrace(s) && Pending(u.wire) == []
  {
    hide *;
    InboundInPieces(cfg, s);
    var t, s0 := Start(wire, outlet, now), Sess(Init, 0, now);
    var a, q := |s.idle|, s.upload.seqNum;
    var s2 := Sess(WaitingFtpLoginResult, q, ticks(a + 1).later);
    var trace := ([] + s.idle + [Rx(s.upload)] + [Tx(AckOk(q))]) + [Tx(NotifyDone(q, s.die))];
    var n := |s.idle1| + |s.idle2| + 2;
    ResultsOfStory(cfg, s);
    StoryStarts(cfg, wire, outlet, now, ticks, Inbound(s));
    StoryUntilNotify(cfg, t, now, ticks, s, s0, InboundAfterUpload(s));
    StoryFromNotify(cfg, After(cfg, t, ticks, 0, a + 2), now, ticks, a + 2, s, s2, trace);
    AlwaysUp(cfg, now, ticks);
    AfterAfter(cfg, t, ticks, 0, a + 2, n);
    StaysCompleted(cfg, t, now, ticks, a + 2 + n, Sess(Completed, q, ticks(a + n + 1).later),
                   (trace + s.idle1 + [Rx(s.login)] + []) + s.idle2 + [Rx(s.download)] + [], []);
    StoryInPieces(s);
  }
}
