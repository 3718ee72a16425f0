/**
  The server's session state machine (lucpd/src/lucpd.c, lines 19-39 and 62-240), on
  values: what one pass of the session loop does for given clock readings, dice and
  network behaviour.
 */
module Session {
  import opened ByteOrder
  import opened Codec
  import opened FrameIO
  import opened Transport

  const UPLOAD_REQUEST: byte := 0x01
  const ACK_START: byte := 0x02
  const NOTIFY_DONE: byte := 0x03
  const FTP_LOGIN_RESULT: byte := 0x04
  const FTP_DOWNLOAD_RESULT: byte := 0x05

  const STAT_FAILED: byte := 0x00
  const STAT_SUCCESS: byte := 0x01
  const STAT_ARCHIVE_FAILED: byte := 0x10
  const STAT_FTP_UPLOAD_FAILED: byte := 0x11

  datatype Phase =
    | Init
    | WaitingUploadRequest
    | WaitingFtpLoginResult
    | WaitingFtpDownloadResult
    | WaitingCloudUploadResult
    | Completed
    | Error

  function Rank(p: Phase): nat {
    match p
    case Init => 0
    case WaitingUploadRequest => 1
    case WaitingFtpLoginResult => 2
    case WaitingFtpDownloadResult => 3
    case WaitingCloudUploadResult => 4
    case Completed => 5
    case Error => 6
  }

  datatype Config = Config(sessionTimeoutMs: int, validateVersion: bool)

  datatype Sess = Sess(phase: Phase, seqNum: bv32, lastActiveMs: nat)

  datatype Option<T> = None | Some(value: T)

  /** A new session and the frame to send, if any. */
  datatype Reaction = Reaction(sess: Sess, reply: Option<Frame>)

  // ---- Texts of the replies ----

  function ByteOf(c: char): byte {
    (c as int % 256) as byte
  }

  function Ascii(s: string): (b: seq<byte>)
    ensures |b| == |s|
  {
    seq(|s|, i requires 0 <= i < |s| => ByteOf(s[i]))
  }

  /** The bytes of a string of ASCII characters are its characters. */
  lemma AsciiBytes(s: string, i: nat)
    requires i < |s| && s[i] < 128 as char
    ensures Ascii(s)[i] as int == s[i] as int
  {
  }

  datatype Note = Note(status: byte, text: string, len: bv16)

  /** The simulated outcome of preparing the log for one roll of a ten-sided die. */
  function Prepared(die: nat): Note {
    if die % 10 < 8 then Note(STAT_SUCCESS, "demo_logfile_20250925.log", 25)
    else if die % 10 == 8 then Note(STAT_ARCHIVE_FAILED, "Archive failed: disk full", 25)
    else Note(STAT_FTP_UPLOAD_FAILED, "FTP upload failed: connection timeout", 37)
  }

  const BAD_VERSION := "Bad version"

  lemma TextLengths(die: nat)
    ensures Size(Prepared(die).len) == |Prepared(die).text|
    ensures Size(11) == |BAD_VERSION| && Size(0) == 0
  {
  }

  function AckBad(seqNum: bv32): (f: Frame)
    ensures Valid(f)
  {
    TextLengths(0);
    Made(seqNum, ACK_START, STAT_FAILED, Ascii(BAD_VERSION), 11)
  }

  function AckOk(seqNum: bv32): (f: Frame)
    ensures Valid(f)
  {
    TextLengths(0);
    Made(seqNum, ACK_START, STAT_SUCCESS, [], 0)
  }

  function NotifyDone(seqNum: bv32, die: nat): (f: Frame)
    ensures Valid(f)
  {
    var n := Prepared(die);
    TextLengths(die);
    Made(seqNum, NOTIFY_DONE, n.status, Ascii(n.text), n.len)
  }

  lemma ReplyFields(seqNum: bv32, die: nat)
    ensures var f := AckBad(seqNum); f.msgType == ACK_START && f.seqNum == seqNum && f.status == STAT_FAILED
    ensures var f := AckOk(seqNum); f.msgType == ACK_START && f.seqNum == seqNum && f.status == STAT_SUCCESS
    ensures var f := NotifyDone(seqNum, die);
      f.msgType == NOTIFY_DONE && f.seqNum == seqNum && f.status == Prepared(die).status
  {
    hide Ascii, Prepared, Clamped;
  }

  /** The bytes of a frame with one of these types, statuses and texts, as they go over the wire. */
  function WireBytes(seqNum: bv32, msgType: byte, status: byte, len: byte, text: string): seq<byte> {
    var q := Network32(seqNum);
    [0x4C, 0x55, 0x43, 0x50, 0x01, 0x00, q.b0, q.b1, q.b2, q.b3, msgType, status, 0x00, len] + Ascii(text)
  }

  lemma MadeOnTheWire(seqNum: bv32, msgType: byte, status: byte, text: string, n: bv16, len: byte)
    requires n == len as bv16 && Size(n) == |text|
    ensures Size(Clamped(n)) <= |Ascii(text)|
    ensures Encode(Made(seqNum, msgType, status, Ascii(text), n)) == WireBytes(seqNum, msgType, status, len, text)
  {
    hide Ascii;
  }

  /** Everything the server ever sends, byte for byte. */
  lemma RepliesOnTheWire(seqNum: bv32, die: nat)
    ensures Encode(AckOk(seqNum)) == WireBytes(seqNum, 0x02, 0x01, 0, "")
    ensures Encode(AckBad(seqNum)) == WireBytes(seqNum, 0x02, 0x00, 11, "Bad version")
    ensures Encode(NotifyDone(seqNum, die)) ==
      if die % 10 < 8 then WireBytes(seqNum, 0x03, 0x01, 25, "demo_logfile_20250925.log")
      else if die % 10 == 8 then WireBytes(seqNum, 0x03, 0x10, 25, "Archive failed: disk full")
      else WireBytes(seqNum, 0x03, 0x11, 37, "FTP upload failed: connection timeout")
  {
    hide Ascii, WireBytes, Made, Encode;
    TextLengths(0);
    TextLengths(8);
    TextLengths(die);
    assert Ascii("") == [];
    MadeOnTheWire(seqNum, 0x02, 0x01, "", 0, 0);
    MadeOnTheWire(seqNum, 0x02, 0x00, "Bad version", 11, 11);
    var n := Prepared(die);
    MadeOnTheWire(seqNum, 0x03, n.status, n.text, n.len, if n.len == 25 then 25 else 37);
  }

  // ---- Steps of the session ----

  /** The low 32 bits of a difference of 64-bit clock readings, as a signed int. */
  function ElapsedAsInt(now: nat, last: nat): int {
    var low := (now - last) % 0x1_0000_0000;
    if low >= 0x8000_0000 then low - 0x1_0000_0000 else low
  }

  function OnTimeout(cfg: Config, s: Sess, now: nat): Sess {
    if ElapsedAsInt(now, s.lastActiveMs) > cfg.sessionTimeoutMs then s.(phase := Error) else s
  }

  function OnUploadRequest(cfg: Config, s: Sess, o: Outcome, now: nat): Reaction {
    match o
    case Delivered(f) =>
      if f.msgType != UPLOAD_REQUEST then Reaction(s, None)
      else if cfg.validateVersion && f.major != VERSION_MAJOR then Reaction(s.(phase := Error), Some(AckBad(f.seqNum)))
      else Reaction(Sess(WaitingUploadRequest, f.seqNum, now), Some(AckOk(f.seqNum)))
    case _ => Reaction(s.(phase := Error), None)
  }

  function OnPrepare(s: Sess, die: nat, now: nat): Reaction {
    var next := if Prepared(die).status != STAT_SUCCESS then Error else WaitingFtpLoginResult;
    Reaction(s.(phase := next, lastActiveMs := now), Some(NotifyDone(s.seqNum, die)))
  }

  /** Both result messages are handled alike: a result of the expected type moves on or fails, others are ignored. */
  function OnResult(s: Sess, o: Outcome, expected: byte, success: Phase, now: nat): Reaction {
    match o
    case Delivered(f) =>
      if f.msgType != expected then Reaction(s, None)
      else Reaction(s.(phase := if f.status != STAT_SUCCESS then Error else success, lastActiveMs := now), None)
    case _ => Reaction(s.(phase := Error), None)
  }

  predicate Receives(p: Phase) {
    p == Init || p == WaitingFtpLoginResult || p == WaitingFtpDownloadResult
  }

  function OnReceive(cfg: Config, s: Sess, o: Outcome, now: nat): Reaction
    requires Receives(s.phase)
  {
    match s.phase
    case Init => OnUploadRequest(cfg, s, o, now)
    case WaitingFtpLoginResult => OnResult(s, o, FTP_LOGIN_RESULT, WaitingFtpDownloadResult, now)
    case WaitingFtpDownloadResult => OnResult(s, o, FTP_DOWNLOAD_RESULT, Completed, now)
  }

  // ---- The session loop ----

  /** A frame handed to lucp_net_send, whether or not the send succeeds, or a frame received. */
  datatype Event = Tx(frame: Frame) | Rx(frame: Frame)

  datatype Thread = Thread(sess: Sess, running: bool, wire: Wire, outlet: Outlet, trace: seq<Event>)

  /** What the surroundings decide in one pass: the shutdown flag, two clock readings and a roll of the die. */
  datatype Tick = Tick(up: bool, now: nat, later: nat, die: nat)

  function Said(a: Reaction): seq<Event> {
    if a.reply.Some? then [Tx(a.reply.value)] else []
  }

  function Heard(o: Outcome): seq<Event> {
    if o.Delivered? then [Rx(o.frame)] else []
  }

  function Reply(outlet: Outlet, a: Reaction): Outlet {
    if a.reply.Some? then Send(outlet, a.reply.value).outlet else outlet
  }

  predicate Ready(t: Thread) {
    |t.wire.buf| <= RBUF_SIZE
  }

  function Iterate(cfg: Config, t: Thread, tick: Tick): (u: Thread)
    requires Ready(t)
  {
    var s := OnTimeout(cfg, t.sess, tick.now);
    if Receives(s.phase) then
      var r := Receive(t.wire);
      var a := OnReceive(cfg, s, r.outcome, tick.later);
      Thread(a.sess, t.running, r.wire, Reply(t.outlet, a), t.trace + Heard(r.outcome) + Said(a))
    else if s.phase == WaitingUploadRequest then
      var a := OnPrepare(s, tick.die, tick.later);
      Thread(a.sess, t.running, t.wire, Reply(t.outlet, a), t.trace + Said(a))
    else
      t.(sess := s, running := false)
  }

  /** Each pass raises the rank, or ignores a frame and so uses up at least 14 bytes, or ends the loop. */
  lemma IterateProgress(cfg: Config, t: Thread, tick: Tick)
    requires Ready(t)
    ensures var u := Iterate(cfg, t, tick);
      && Ready(u)
      && Rank(t.sess.phase) <= Rank(u.sess.phase)
      && (|| Rank(t.sess.phase) < Rank(u.sess.phase)
          || |Pending(u.wire)| + HEADER_SIZE <= |Pending(t.wire)|
          || (u.wire == t.wire && !u.running))
  {
    hide Receive, Encode, Decode, Valid, Pending;
    ReceiveAccounts(t.wire);
  }

  function Left(t: Thread): nat {
    6 - Rank(t.sess.phase)
  }

  /** The whole loop of session_thread; ticks(i) is what happens around its i-th pass. */
  function Run(cfg: Config, t: Thread, ticks: nat -> Tick, i: nat): Thread
    requires Ready(t)
    decreases Left(t), |Pending(t.wire)|, t.running
  {
    if !(t.running && ticks(i).up) then t
    else
      IterateProgress(cfg, t, ticks(i));
      Run(cfg, Iterate(cfg, t, ticks(i)), ticks, i + 1)
  }
}
