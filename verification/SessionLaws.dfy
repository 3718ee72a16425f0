/** What holds of every run of the session loop. */
module SessionLaws {
  import opened ByteOrder
  import opened Codec
  import opened Transport
  import opened Session

  /** A session as session_thread starts it. */
  function Start(wire: Wire, outlet: Outlet, now: nat): Thread {
    Thread(Sess(Init, 0, now), true, wire, outlet, [])
  }

  /** The state after at most n passes of the loop: every state of a run is one of these. */
  function After(cfg: Config, t: Thread, ticks: nat -> Tick, i: nat, n: nat): (u: Thread)
    requires Ready(t)
    ensures Ready(u)
    decreases n
  {
    if n == 0 || !(t.running && ticks(i).up) then t
    else
      IterateProgress(cfg, t, ticks(i));
      After(cfg, Iterate(cfg, t, ticks(i)), ticks, i + 1, n - 1)
  }

  /** The loop ends after finitely many passes, whatever happens around it. */
  lemma {:induction false} RunEnds(cfg: Config, t: Thread, ticks: nat -> Tick, i: nat) returns (n: nat)
    requires Ready(t)
    ensures var u := After(cfg, t, ticks, i, n);
      u == Run(cfg, t, ticks, i) && !(u.running && ticks(i + n).up)
    decreases Left(t), |Pending(t.wire)|, t.running
  {
    hide Iterate, Pending;
    if !(t.running && ticks(i).up) {
      n := 0;
    } else {
      IterateProgress(cfg, t, ticks(i));
      n := RunEnds(cfg, Iterate(cfg, t, ticks(i)), ticks, i + 1);
      n := n + 1;
    }
  }

  /** The rank of the phase never decreases along a run. */
  lemma {:induction false} RankNeverDecreases(cfg: Config, t: Thread, ticks: nat -> Tick, i: nat, m: nat, n: nat)
    requires Ready(t) && m <= n
    ensures Rank(After(cfg, t, ticks, i, m).sess.phase) <= Rank(After(cfg, t, ticks, i, n).sess.phase)
    decreases n
  {
    hide Iterate, Rank;
    if n > 0 && t.running && ticks(i).up {
      IterateProgress(cfg, t, ticks(i));
      var u := Iterate(cfg, t, ticks(i));
      RankNeverDecreases(cfg, u, ticks, i + 1, if m == 0 then 0 else m - 1, n - 1);
    }
  }

  // ---- The frames sent ----

  function Sends(trace: seq<Event>): seq<Frame> {
    if trace == [] then []
    else
      var e := trace[|trace| - 1];
      Sends(trace[..|trace| - 1]) + (if e.Tx? then [e.frame] else [])
  }

  function Receipts(trace: seq<Event>): seq<Frame> {
    if trace == [] then []
    else
      var e := trace[|trace| - 1];
      Receipts(trace[..|trace| - 1]) + (if e.Rx? then [e.frame] else [])
  }

  /** The first upload request received. */
  function UploadRequest(trace: seq<Event>): Option<Frame> {
    if trace == [] then None
    else
      var u := UploadRequest(trace[..|trace| - 1]);
      var e := trace[|trace| - 1];
      if u.None? && e.Rx? && e.frame.msgType == UPLOAD_REQUEST then Some(e.frame) else u
  }

  lemma OneMoreEvent(trace: seq<Event>, e: Event)
    ensures Sends(trace + [e]) == Sends(trace) + (if e.Tx? then [e.frame] else [])
    ensures Receipts(trace + [e]) == Receipts(trace) + (if e.Rx? then [e.frame] else [])
    ensures UploadRequest(trace + [e]) ==
      if UploadRequest(trace).None? && e.Rx? && e.frame.msgType == UPLOAD_REQUEST then Some(e.frame) else UploadRequest(trace)
  {
    assert (trace + [e])[..|trace|] == trace;
  }

  /**
    At most one ACK_START followed by at most one NOTIFY_DONE, all with the sequence
    number of the upload request, and nothing before that request is received.
   */
  predicate Orderly(sends: seq<Frame>, upload: Option<Frame>) {
    && |sends| <= 2
    && (sends != [] ==> upload.Some? && sends[0].msgType == ACK_START && sends[0].seqNum == upload.value.seqNum)
    && (|sends| == 2 ==> sends[0].status == STAT_SUCCESS && sends[1].msgType == NOTIFY_DONE
                         && sends[1].seqNum == upload.value.seqNum)
  }

  predicate DisciplinedAt(sess: Sess, trace: seq<Event>) {
    var sends, upload := Sends(trace), UploadRequest(trace);
    && Orderly(sends, upload)
    && match sess.phase
       case Init => sends == [] && upload.None?
       case WaitingUploadRequest => |sends| == 1 && sends[0].status == STAT_SUCCESS && sess.seqNum == upload.value.seqNum
       case WaitingFtpLoginResult => |sends| == 2 && sends[1].status == STAT_SUCCESS
       case WaitingFtpDownloadResult => |sends| == 2 && sends[1].status == STAT_SUCCESS
       case WaitingCloudUploadResult => false
       case Completed => |sends| == 2 && sends[1].status == STAT_SUCCESS
       case Error => true
  }

  lemma ReplyIsValid(cfg: Config, s: Sess, o: Outcome, die: nat, later: nat)
    ensures Receives(s.phase) ==> var a := OnReceive(cfg, s, o, later); a.reply.Some? ==> Valid(a.reply.value)
    ensures Valid(OnPrepare(s, die, later).reply.value)
  {
    hide Valid, Prepared, Ascii;
  }

  lemma ReceiveDisciplined(cfg: Config, s: Sess, trace: seq<Event>, o: Outcome, now: nat)
    requires Receives(s.phase) && DisciplinedAt(s, trace)
    ensures var a := OnReceive(cfg, s, o, now); DisciplinedAt(a.sess, trace + Heard(o) + Said(a))
  {
    hide Sends, Receipts, UploadRequest, AckOk, AckBad;
    var a := OnReceive(cfg, s, o, now);
    assert trace + [] == trace;
    if o.Delivered? {
      OneMoreEvent(trace, Rx(o.frame));
      ReplyFields(o.frame.seqNum, 0);
      if a.reply.Some? {
        OneMoreEvent(trace + Heard(o), Tx(a.reply.value));
      } else {
        assert trace + Heard(o) + [] == trace + Heard(o);
      }
    }
  }

  lemma PrepareDisciplined(s: Sess, trace: seq<Event>, die: nat, now: nat)
    requires s.phase == WaitingUploadRequest && DisciplinedAt(s, trace)
    ensures var a := OnPrepare(s, die, now); DisciplinedAt(a.sess, trace + Said(a))
  {
    hide Sends, Receipts, UploadRequest, NotifyDone, Prepared;
    ReplyFields(s.seqNum, die);
    OneMoreEvent(trace, Tx(NotifyDone(s.seqNum, die)));
  }

  lemma IterateDisciplined(cfg: Config, t: Thread, tick: Tick)
    requires Ready(t) && DisciplinedAt(t.sess, t.trace)
    ensures var u := Iterate(cfg, t, tick); DisciplinedAt(u.sess, u.trace)
  {
    hide Receive, Send, Sends, Receipts, UploadRequest, OnReceive, OnPrepare, Heard, Said;
    var s := OnTimeout(cfg, t.sess, tick.now);
    if Receives(s.phase) {
      ReceiveDisciplined(cfg, s, t.trace, Receive(t.wire).outcome, tick.later);
    } else if s.phase == WaitingUploadRequest {
      PrepareDisciplined(s, t.trace, tick.die, tick.later);
    }
  }

  // ---- The way to completion ----

  /** The choices along a run that completes; idle stretches hold frames of other types, which are ignored. */
  datatype Story = Story(idle: seq<Event>, upload: Frame, die: nat,
                         idle1: seq<Event>, login: Frame,
                         idle2: seq<Event>, download: Frame)

  predicate Ignored(es: seq<Event>, expected: byte) {
    forall i :: 0 <= i < |es| ==> es[i].Rx? && es[i].frame.msgType != expected
  }

  predicate Uploading(cfg: Config, s: Story) {
    && Ignored(s.idle, UPLOAD_REQUEST) && s.upload.msgType == UPLOAD_REQUEST
    && (cfg.validateVersion ==> s.upload.major == VERSION_MAJOR)
  }

  predicate LoggingIn(cfg: Config, s: Story) {
    Uploading(cfg, s) && Prepared(s.die).status == STAT_SUCCESS && Ignored(s.idle1, FTP_LOGIN_RESULT)
  }

  predicate Downloading(cfg: Config, s: Story) {
    && LoggingIn(cfg, s)
    && s.login.msgType == FTP_LOGIN_RESULT && s.login.status == STAT_SUCCESS
    && Ignored(s.idle2, FTP_DOWNLOAD_RESULT)
  }

  predicate Done(cfg: Config, s: Story) {
    Downloading(cfg, s) && s.download.msgType == FTP_DOWNLOAD_RESULT && s.download.status == STAT_SUCCESS
  }

  function UploadTrace(s: Story): seq<Event> {
    s.idle + [Rx(s.upload), Tx(AckOk(s.upload.seqNum))]
  }

  function LoginTrace(s: Story): seq<Event> {
    UploadTrace(s) + [Tx(NotifyDone(s.upload.seqNum, s.die))] + s.idle1
  }

  function DownloadTrace(s: Story): seq<Event> {
    LoginTrace(s) + [Rx(s.login)] + s.idle2
  }

  /** Everything a completed session received and sent, in order. */
  function FullTrace(s: Story): seq<Event> {
    DownloadTrace(s) + [Rx(s.download)]
  }

  /** Every way a session can end in ERROR: at rest in some phase, or right after what made it fail. */
  predicate FailedStory(cfg: Config, trace: seq<Event>, s: Story) {
    || (Ignored(s.idle, UPLOAD_REQUEST) && trace == s.idle)
    || (&& Ignored(s.idle, UPLOAD_REQUEST) && s.upload.msgType == UPLOAD_REQUEST
        && cfg.validateVersion && s.upload.major != VERSION_MAJOR
        && trace == s.idle + [Rx(s.upload)] + [Tx(AckBad(s.upload.seqNum))])
    || (Uploading(cfg, s) && trace == UploadTrace(s))
    || (&& Uploading(cfg, s) && Prepared(s.die).status != STAT_SUCCESS
        && trace == UploadTrace(s) + [Tx(NotifyDone(s.upload.seqNum, s.die))])
    || (LoggingIn(cfg, s) && trace == LoginTrace(s))
    || (&& LoggingIn(cfg, s) && s.login.msgType == FTP_LOGIN_RESULT && s.login.status != STAT_SUCCESS
        && trace == LoginTrace(s) + [Rx(s.login)])
    || (Downloading(cfg, s) && trace == DownloadTrace(s))
    || (&& Downloading(cfg, s) && s.download.msgType == FTP_DOWNLOAD_RESULT && s.download.status != STAT_SUCCESS
        && trace == DownloadTrace(s) + [Rx(s.download)])
    || (Done(cfg, s) && trace == FullTrace(s))
  }

  predicate Tells(cfg: Config, sess: Sess, trace: seq<Event>, s: Story) {
    match sess.phase
    case Init => Ignored(s.idle, UPLOAD_REQUEST) && trace == s.idle
    case WaitingUploadRequest => Uploading(cfg, s) && trace == UploadTrace(s) && sess.seqNum == s.upload.seqNum
    case WaitingFtpLoginResult => LoggingIn(cfg, s) && trace == LoginTrace(s)
    case WaitingFtpDownloadResult => Downloading(cfg, s) && trace == DownloadTrace(s)
    case WaitingCloudUploadResult => false
    case Completed => Done(cfg, s) && trace == FullTrace(s)
    case Error => FailedStory(cfg, trace, s)
  }

  /** A timeout or a failed receive ends the story where it stands. */
  lemma FailureTells(cfg: Config, sess: Sess, trace: seq<Event>, s: Story)
    requires Tells(cfg, sess, trace, s)
    ensures Tells(cfg, sess.(phase := Error), trace, s)
  {
    hide Uploading, LoggingIn, Downloading, Done, UploadTrace, LoginTrace, DownloadTrace, FullTrace;
  }

  lemma UploadTells(cfg: Config, sess: Sess, f: Frame, now: nat, s: Story) returns (s': Story)
    requires sess.phase == Init && Ignored(s.idle, UPLOAD_REQUEST)
    ensures var a := OnUploadRequest(cfg, sess, Delivered(f), now); Tells(cfg, a.sess, s.idle + [Rx(f)] + Said(a), s')
  {
    hide AckOk, AckBad, LoginTrace, DownloadTrace, FullTrace, LoggingIn, Downloading, Done, NotifyDone, Prepared;
    if f.msgType == UPLOAD_REQUEST {
      s' := s.(upload := f);
      assert s.idle + [Rx(f)] + [Tx(AckOk(f.seqNum))] == UploadTrace(s');
    } else {
      s' := s.(idle := s.idle + [Rx(f)]);
      assert s.idle + [Rx(f)] + [] == s'.idle;
    }
  }

  lemma PrepareTells(cfg: Config, sess: Sess, die: nat, now: nat, s: Story) returns (s': Story)
    requires sess.phase == WaitingUploadRequest && Uploading(cfg, s) && sess.seqNum == s.upload.seqNum
    ensures var a := OnPrepare(sess, die, now); Tells(cfg, a.sess, UploadTrace(s) + Said(a), s')
  {
    hide AckOk, AckBad, NotifyDone, Prepared, DownloadTrace, FullTrace, Downloading, Done;
    s' := s.(die := die, idle1 := []);
    assert UploadTrace(s') == UploadTrace(s);
  }

  lemma LoginTells(cfg: Config, sess: Sess, f: Frame, now: nat, s: Story) returns (s': Story)
    requires sess.phase == WaitingFtpLoginResult && LoggingIn(cfg, s)
    ensures var a := OnResult(sess, Delivered(f), FTP_LOGIN_RESULT, WaitingFtpDownloadResult, now);
      Tells(cfg, a.sess, LoginTrace(s) + [Rx(f)], s')
  {
    hide AckOk, AckBad, NotifyDone, Prepared, FullTrace, Done;
    if f.msgType == FTP_LOGIN_RESULT {
      s' := s.(login := f, idle2 := []);
      assert LoginTrace(s') == LoginTrace(s);
    } else {
      s' := s.(idle1 := s.idle1 + [Rx(f)]);
      assert UploadTrace(s') == UploadTrace(s);
    }
  }

  lemma SameLogin(s: Story, s': Story)
    requires s'.idle == s.idle && s'.upload == s.upload && s'.die == s.die && s'.idle1 == s.idle1
    ensures LoginTrace(s') == LoginTrace(s)
  {
    hide AckOk, NotifyDone;
  }

  lemma SameDownload(s: Story, s': Story)
    requires s'.(download := s.download) == s
    ensures DownloadTrace(s') == DownloadTrace(s)
  {
    SameLogin(s, s');
  }

  lemma DownloadTells(cfg: Config, sess: Sess, f: Frame, now: nat, s: Story) returns (s': Story)
    requires sess.phase == WaitingFtpDownloadResult && Downloading(cfg, s)
    ensures var a := OnResult(sess, Delivered(f), FTP_DOWNLOAD_RESULT, Completed, now);
      Tells(cfg, a.sess, DownloadTrace(s) + [Rx(f)], s')
  {
    hide AckOk, AckBad, NotifyDone, Prepared, UploadTrace;
    if f.msgType == FTP_DOWNLOAD_RESULT {
      s' := s.(download := f);
      assert DownloadTrace(s') == DownloadTrace(s) by { SameDownload(s, s'); }
    } else {
      s' := s.(idle2 := s.idle2 + [Rx(f)]);
      assert LoginTrace(s') == LoginTrace(s) by { SameLogin(s, s'); }
    }
  }

  lemma ReceiveTells(cfg: Config, sess: Sess, trace: seq<Event>, o: Outcome, now: nat, s: Story) returns (s': Story)
    requires Receives(sess.phase) && Tells(cfg, sess, trace, s)
    ensures var a := OnReceive(cfg, sess, o, now); Tells(cfg, a.sess, trace + Heard(o) + Said(a), s')
  {
    hide AckOk, AckBad, UploadTrace, LoginTrace, DownloadTrace, FullTrace, Uploading, Done, FailedStory;
    s' := s;
    assert trace + [] == trace;
    if o.Delivered? {
      assert trace + Heard(o) + [] == trace + [Rx(o.frame)];
      match sess.phase {
        case Init => s' := UploadTells(cfg, sess, o.frame, now, s);
        case WaitingFtpLoginResult => s' := LoginTells(cfg, sess, o.frame, now, s);
        case WaitingFtpDownloadResult => s' := DownloadTells(cfg, sess, o.frame, now, s);
      }
    } else {
      FailureTells(cfg, sess, trace, s);
    }
  }

  lemma IterateTells(cfg: Config, t: Thread, tick: Tick, s: Story) returns (s': Story)
    requires Ready(t) && Tells(cfg, t.sess, t.trace, s)
    ensures var u := Iterate(cfg, t, tick); Tells(cfg, u.sess, u.trace, s')
  {
    s' := s;
    FailureTells(cfg, t.sess, t.trace, s);
    var timed := OnTimeout(cfg, t.sess, tick.now);
    assert Tells(cfg, timed, t.trace, s);
    if timed.phase == WaitingUploadRequest {
      assert Uploading(cfg, s) && timed.seqNum == s.upload.seqNum && t.trace == UploadTrace(s);
    }
    hide Receive, Send, Tells, OnReceive, OnPrepare, OnTimeout, Heard, Said, Uploading, UploadTrace;
    if Receives(timed.phase) {
      s' := ReceiveTells(cfg, timed, t.trace, Receive(t.wire).outcome, tick.later, s);
    } else if timed.phase == WaitingUploadRequest {
      s' := PrepareTells(cfg, timed, tick.die, tick.later, s);
    }
  }

  lemma {:induction false} AfterKeeps(cfg: Config, t: Thread, ticks: nat -> Tick, i: nat, n: nat, s: Story) returns (s': Story)
    requires Ready(t) && DisciplinedAt(t.sess, t.trace) && Tells(cfg, t.sess, t.trace, s)
    ensures var u := After(cfg, t, ticks, i, n); DisciplinedAt(u.sess, u.trace) && Tells(cfg, u.sess, u.trace, s')
    decreases n
  {
    hide Iterate, DisciplinedAt, Tells;
    s' := s;
    if n > 0 && t.running && ticks(i).up {
      IterateProgress(cfg, t, ticks(i));
      IterateDisciplined(cfg, t, ticks(i));
      s' := IterateTells(cfg, t, ticks(i), s);
      s' := AfterKeeps(cfg, Iterate(cfg, t, ticks(i)), ticks, i + 1, n - 1, s');
    }
  }

  /**
    In every state of every run: the cloud-upload phase is never entered, the frames
    sent are orderly, and what the session received and sent is exactly what a story
    tells up to its phase, or up to one of the ways to fail.
   */
  lemma SessionDiscipline(cfg: Config, wire: Wire, outlet: Outlet, now: nat, ticks: nat -> Tick, n: nat)
    requires |wire.buf| <= RBUF_SIZE
    ensures var t := After(cfg, Start(wire, outlet, now), ticks, 0, n);
      && t.sess.phase != WaitingCloudUploadResult
      && Orderly(Sends(t.trace), UploadRequest(t.trace))
      && exists s :: Tells(cfg, t.sess, t.trace, s)
  {
    var t := Start(wire, outlet, now);
    var f := AckOk(0);
    var s := AfterKeeps(cfg, t, ticks, 0, n, Story([], f, 0, [], f, [], f));
  }

  // ---- Time ----

  /** The elapsed time is the difference of the readings brought into the range of an int, and so the plain difference within 2^31 ms either way. */
  lemma ElapsedIsDifference(now: nat, last: nat)
    ensures -0x8000_0000 <= ElapsedAsInt(now, last) < 0x8000_0000
    ensures (ElapsedAsInt(now, last) - (now - last)) % 0x1_0000_0000 == 0
    ensures -0x8000_0000 <= now - last < 0x8000_0000 ==> ElapsedAsInt(now, last) == now - last
  {
    var d := now - last;
    assert d == d / 0x1_0000_0000 * 0x1_0000_0000 + d % 0x1_0000_0000;
    assert ElapsedAsInt(now, last) - d ==
      (if d % 0x1_0000_0000 >= 0x8000_0000 then -1 - d / 0x1_0000_0000 else -(d / 0x1_0000_0000)) * 0x1_0000_0000;
  }

  /** The pass finds the session idle for too long. */
  predicate Late(cfg: Config, t: Thread, tick: Tick) {
    ElapsedAsInt(tick.now, t.sess.lastActiveMs) > cfg.sessionTimeoutMs
  }

  /** A late pass ends the session in ERROR, from any phase, COMPLETED included, without touching the connection. */
  lemma IdleSessionStops(cfg: Config, t: Thread, tick: Tick)
    requires Ready(t) && Late(cfg, t, tick)
    ensures var u := Iterate(cfg, t, tick);
      u.sess.phase == Error && !u.running && u.wire == t.wire && u.outlet == t.outlet && u.trace == t.trace
  {
  }

  /** COMPLETED ends the loop, and stands unless that pass came too late. */
  lemma CompletedEnds(cfg: Config, t: Thread, tick: Tick)
    requires Ready(t) && t.sess.phase == Completed
    ensures var u := Iterate(cfg, t, tick);
      && !u.running && u.wire == t.wire && u.outlet == t.outlet && u.trace == t.trace
      && u.sess.phase == if Late(cfg, t, tick) then Error else Completed
  {
  }

  // ---- What a pass makes of its frame ----

  /** The type of the message a phase waits for. */
  function Expected(p: Phase): byte
    requires Receives(p)
  {
    match p
    case Init => UPLOAD_REQUEST
    case WaitingFtpLoginResult => FTP_LOGIN_RESULT
    case WaitingFtpDownloadResult => FTP_DOWNLOAD_RESULT
  }

  /** The message this phase waits for, if that is what its receive call returns. */
  function Awaited(t: Thread): Option<Frame>
    requires Ready(t)
  {
    if !Receives(t.sess.phase) then None
    else match Receive(t.wire).outcome
      case Delivered(f) => if f.msgType == Expected(t.sess.phase) then Some(f) else None
      case _ => None
  }

  predicate WrongVersion(cfg: Config, t: Thread)
    requires Ready(t)
  {
    t.sess.phase == Init && Awaited(t).Some? && cfg.validateVersion && Awaited(t).value.major != VERSION_MAJOR
  }

  /** The pass accepts an upload request, prepares the log, or takes the awaited result, whatever its status. */
  predicate Handles(cfg: Config, t: Thread)
    requires Ready(t)
  {
    t.sess.phase == WaitingUploadRequest || (Awaited(t).Some? && !WrongVersion(cfg, t))
  }

  /**
    The activity time is renewed exactly by the passes that start in time and handle a
    message or prepare the log, those included whose status then ends the session.
   */
  lemma ActivityIsRecorded(cfg: Config, t: Thread, tick: Tick)
    requires Ready(t)
    ensures Iterate(cfg, t, tick).sess.lastActiveMs ==
      if !Late(cfg, t, tick) && Handles(cfg, t) then tick.later else t.sess.lastActiveMs
  {
    hide Receive, Send;
  }

  datatype Cause = TimedOut | ReceiveFailed | BadVersion | BadStatus

  /** What makes a pass fail, if it does. */
  function FailureOf(cfg: Config, t: Thread, tick: Tick): Option<Cause>
    requires Ready(t)
  {
    if Late(cfg, t, tick) then Some(TimedOut)
    else if Receives(t.sess.phase) && !Receive(t.wire).outcome.Delivered? then Some(ReceiveFailed)
    else if WrongVersion(cfg, t) then Some(BadVersion)
    else if t.sess.phase == WaitingUploadRequest && Prepared(tick.die).status != STAT_SUCCESS then Some(BadStatus)
    else if t.sess.phase != Init && Awaited(t).Some? && Awaited(t).value.status != STAT_SUCCESS then Some(BadStatus)
    else None
  }

  lemma PassFailsIff(cfg: Config, t: Thread, tick: Tick)
    requires Ready(t) && t.sess.phase != Error
    ensures Iterate(cfg, t, tick).sess.phase == Error <==> FailureOf(cfg, t, tick).Some?
  {
    hide Receive, Send;
  }

  /** The server was not shut down before or at the n-th pass from i. */
  predicate Up(ticks: nat -> Tick, i: nat, n: nat) {
    forall j :: i <= j <= i + n ==> ticks(j).up
  }

  lemma AfterNothing(cfg: Config, t: Thread, ticks: nat -> Tick, i: nat)
    requires Ready(t)
    ensures After(cfg, t, ticks, i, 0) == t
  {
  }

  lemma {:induction false} AfterOneMore(cfg: Config, t: Thread, ticks: nat -> Tick, i: nat, n: nat)
    requires Ready(t)
    ensures var u := After(cfg, t, ticks, i, n);
      After(cfg, t, ticks, i, n + 1) == if u.running && Up(ticks, i, n) then Iterate(cfg, u, ticks(i + n)) else u
    decreases n
  {
    hide Iterate;
    if t.running && ticks(i).up {
      IterateProgress(cfg, t, ticks(i));
      var u := Iterate(cfg, t, ticks(i));
      if n == 0 {
        AfterNothing(cfg, u, ticks, i + 1);
      } else {
        AfterOneMore(cfg, u, ticks, i + 1, n - 1);
        assert After(cfg, t, ticks, i, n) == After(cfg, u, ticks, i + 1, n - 1);
        assert After(cfg, t, ticks, i, n + 1) == After(cfg, u, ticks, i + 1, n);
      }
    }
  }

  lemma ErrorStays(cfg: Config, t: Thread, ticks: nat -> Tick, n: nat)
    requires Ready(t) && After(cfg, t, ticks, 0, n).sess.phase == Error
    ensures After(cfg, t, ticks, 0, n + 1).sess.phase == Error
  {
    hide After;
    RankNeverDecreases(cfg, t, ticks, 0, n, n + 1);
  }

  /** The m-th pass of a run is made, and fails. */
  predicate FailsAt(cfg: Config, t: Thread, ticks: nat -> Tick, m: nat)
    requires Ready(t)
  {
    var u := After(cfg, t, ticks, 0, m);
    u.running && Up(ticks, 0, m) && u.sess.phase != Error && FailureOf(cfg, u, ticks(m)).Some?
  }

  lemma FailsAtIff(cfg: Config, t: Thread, ticks: nat -> Tick, m: nat)
    requires Ready(t)
    ensures FailsAt(cfg, t, ticks, m) <==>
      After(cfg, t, ticks, 0, m).sess.phase != Error && After(cfg, t, ticks, 0, m + 1).sess.phase == Error
  {
    hide Iterate, FailureOf, After;
    AfterOneMore(cfg, t, ticks, 0, m);
    var u := After(cfg, t, ticks, 0, m);
    if u.sess.phase != Error {
      PassFailsIff(cfg, u, ticks(m));
    }
  }

  /** A run is in ERROR exactly if one of its passes failed, for one of the causes. */
  lemma {:induction false} ErrorHasCause(cfg: Config, t: Thread, ticks: nat -> Tick, n: nat)
    requires Ready(t) && t.sess.phase != Error
    ensures After(cfg, t, ticks, 0, n).sess.phase == Error <==> exists m :: 0 <= m < n && FailsAt(cfg, t, ticks, m)
    decreases n
  {
    AfterNothing(cfg, t, ticks, 0);
    hide Iterate, FailsAt, After, FailureOf;
    if n > 0 {
      ErrorHasCause(cfg, t, ticks, n - 1);
      FailsAtIff(cfg, t, ticks, n - 1);
      if After(cfg, t, ticks, 0, n - 1).sess.phase == Error {
        ErrorStays(cfg, t, ticks, n - 1);
      }
    }
  }
}
