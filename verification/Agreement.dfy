/**
  The client's script and the server's session, composed over two byte channels
  (demo/lucp_client_demo.c, lines 76-131; lucpd/src/lucpd.c, lines 77-232).

  The processes interleave at the granularity of single read and write results: a
  write puts some bytes of the current frame on its channel, a read takes some bytes
  off. After a failed write nothing more enters that channel. Every receive call may
  fail, and the client may close, at any point.
 */
module Agreement {
  import opened ByteOrder
  import opened Codec
  import opened Sequences
  import opened Stream
  import opened Transport
  import opened Session
  import opened SessionLaws
  import opened ClientScript

  datatype Client = Client(open: bool, trace: seq<Event>, buf: seq<byte>, out: seq<byte>)

  datatype Server = Server(sess: Sess, running: bool, checked: bool, trace: seq<Event>, buf: seq<byte>, out: seq<byte>)

  datatype Channel = Channel(flight: seq<byte>, broken: bool)

  datatype World = World(client: Client, server: Server, up: Channel, down: Channel)

  function Initial(now: nat): World {
    World(Client(true, [], [], []), Server(Sess(Init, 0, now), true, false, [], [], []),
          Channel([], false), Channel([], false))
  }

  datatype Action =
    | ClientSend(f: Frame)
    | ClientWrite(n: nat)
    | ClientWriteFails
    | ClientRead(n: nat)
    | ClientTake
    | ClientClose
    | ServerCheck(now: nat)
    | ServerShutdown
    | ServerRead(n: nat)
    | ServerTake(later: nat)
    | ServerRecvFails(later: nat)
    | ServerPrepare(die: nat, later: nat)
    | ServerStop
    | ServerWrite(n: nat)
    | ServerWriteFails

  /** The bytes a send queues: none once its channel is broken. */
  function Queued(c: Channel, f: Frame): seq<byte> {
    if c.broken then [] else Encode(f)
  }

  predicate ClientReceiving(c: Client) {
    c.open && c.out == [] && Awaits(c.trace)
  }

  predicate ServerAt(s: Server, checked: bool) {
    s.running && s.out == [] && s.checked == checked
  }

  predicate ServerReceiving(s: Server) {
    ServerAt(s, true) && Receives(s.sess.phase)
  }

  predicate CanRead(buf: seq<byte>, c: Channel, n: nat) {
    Decode(buf).Incomplete? && 0 < n <= |c.flight| && n <= RBUF_SIZE - |buf|
  }

  predicate Enabled(w: World, a: Action) {
    match a
    case ClientSend(f) => w.client.open && w.client.out == [] && MaySend(w.client.trace, f)
    case ClientWrite(n) => 0 < n <= |w.client.out|
    case ClientWriteFails => w.client.out != []
    case ClientRead(n) => ClientReceiving(w.client) && CanRead(w.client.buf, w.down, n)
    case ClientTake => ClientReceiving(w.client) && Decode(w.client.buf).Got?
    case ClientClose => w.client.open && w.client.out == []
    case ServerCheck(_) => ServerAt(w.server, false)
    case ServerShutdown => ServerAt(w.server, false)
    case ServerRead(n) => ServerReceiving(w.server) && CanRead(w.server.buf, w.up, n)
    case ServerTake(_) => ServerReceiving(w.server) && Decode(w.server.buf).Got?
    case ServerRecvFails(_) => ServerReceiving(w.server)
    case ServerPrepare(_, _) => ServerAt(w.server, true) && w.server.sess.phase == WaitingUploadRequest
    case ServerStop => ServerAt(w.server, true) && !Receives(w.server.sess.phase) && w.server.sess.phase != WaitingUploadRequest
    case ServerWrite(n) => 0 < n <= |w.server.out|
    case ServerWriteFails => w.server.out != []
  }

  /** The server goes back to the head of its loop with a reaction's session and reply. */
  function Reacted(s: Server, a: Reaction, heard: seq<Event>, rest: seq<byte>, down: Channel): Server {
    Server(a.sess, s.running, false, s.trace + heard + Said(a), rest,
           if a.reply.Some? then Queued(down, a.reply.value) else [])
  }

  function Step(cfg: Config, w: World, a: Action): World
    requires Enabled(w, a)
  {
    var c, s := w.client, w.server;
    match a
    case ClientSend(f) => w.(client := c.(trace := c.trace + [Tx(f)], out := Queued(w.up, f)))
    case ClientWrite(n) =>
      w.(client := c.(out := c.out[n..]), up := w.up.(flight := w.up.flight + c.out[..n]))
    case ClientWriteFails => w.(client := c.(out := []), up := w.up.(broken := true))
    case ClientRead(n) =>
      w.(client := c.(buf := c.buf + w.down.flight[..n]), down := w.down.(flight := w.down.flight[n..]))
    case ClientTake =>
      var v := Decode(c.buf);
      EncodeOfDecode(c.buf);
      w.(client := c.(trace := c.trace + [Rx(v.frame)], buf := c.buf[v.size..]))
    case ClientClose => w.(client := c.(open := false))
    case ServerCheck(now) => w.(server := s.(sess := OnTimeout(cfg, s.sess, now), checked := true))
    case ServerShutdown => w.(server := s.(running := false))
    case ServerRead(n) =>
      w.(server := s.(buf := s.buf + w.up.flight[..n]), up := w.up.(flight := w.up.flight[n..]))
    case ServerTake(later) =>
      var v := Decode(s.buf);
      EncodeOfDecode(s.buf);
      var o := Delivered(v.frame);
      w.(server := Reacted(s, OnReceive(cfg, s.sess, o, later), Heard(o), s.buf[v.size..], w.down))
    case ServerRecvFails(later) =>
      // A failed read, end of file, or a corrupt buffer, which is cleared.
      var rest := if Decode(s.buf).Corrupt? then [] else s.buf;
      w.(server := Reacted(s, OnReceive(cfg, s.sess, Stopped, later), [], rest, w.down))
    case ServerPrepare(die, later) =>
      w.(server := Reacted(s, OnPrepare(s.sess, die, later), [], s.buf, w.down))
    case ServerStop => w.(server := s.(running := false))
    case ServerWrite(n) =>
      w.(server := s.(out := s.out[n..]), down := w.down.(flight := w.down.flight + s.out[..n]))
    case ServerWriteFails => w.(server := s.(out := []), down := w.down.(broken := true))
  }

  /** The state after a schedule; actions that are not enabled are passed over. */
  function Reach(cfg: Config, w: World, schedule: seq<Action>): World
    decreases |schedule|
  {
    if schedule == [] then w
    else Reach(cfg, if Enabled(w, schedule[0]) then Step(cfg, w, schedule[0]) else w, schedule[1..])
  }

  // ---- One direction of the connection ----

  /**
    What the receiver took, buffered, what is in flight and what is still queued are
    together the bytes of the frames sent, or the beginning of them once the channel broke.
   */
  predicate Flow(got: seq<Frame>, buf: seq<byte>, flight: seq<byte>, out: seq<byte>, sent: seq<Frame>, broken: bool) {
    var x := EncodeAll(got) + (buf + (flight + out));
    && AllValid(got) && AllValid(sent)
    && x <= EncodeAll(sent)
    && (if broken then out == [] else x == EncodeAll(sent))
  }

  lemma FlowSend(got: seq<Frame>, buf: seq<byte>, flight: seq<byte>, sent: seq<Frame>, c: Channel, f: Frame)
    requires Flow(got, buf, flight, [], sent, c.broken) && Valid(f)
    ensures Flow(got, buf, flight, Queued(c, f), sent + [f], c.broken)
  {
    hide Encode, EncodeAll, Valid;
    EncodeAllConcat(sent, [f]);
    EncodeAllSingle(f);
    if !c.broken {
      assert flight + [] == flight;
      ConcatAssoc(EncodeAll(got), buf + flight, Encode(f));
      ConcatAssoc(buf, flight, Encode(f));
    }
  }

  lemma FlowWrite(got: seq<Frame>, buf: seq<byte>, flight: seq<byte>, out: seq<byte>, sent: seq<Frame>, broken: bool, n: nat)
    requires Flow(got, buf, flight, out, sent, broken) && n <= |out|
    ensures Flow(got, buf, flight + out[..n], out[n..], sent, broken)
  {
    hide EncodeAll, Valid;
    SplitAt(out, n);
    ConcatAssoc(flight, out[..n], out[n..]);
  }

  lemma FlowBreak(got: seq<Frame>, buf: seq<byte>, flight: seq<byte>, out: seq<byte>, sent: seq<Frame>, broken: bool)
    requires Flow(got, buf, flight, out, sent, broken)
    ensures Flow(got, buf, flight, [], sent, true)
  {
    hide EncodeAll, Valid;
    assert flight + [] == flight;
    ConcatAssoc(EncodeAll(got) + buf, flight, out);
    ConcatAssoc(EncodeAll(got), buf, flight + out);
    ConcatAssoc(EncodeAll(got), buf, flight);
  }

  lemma FlowRead(got: seq<Frame>, buf: seq<byte>, flight: seq<byte>, out: seq<byte>, sent: seq<Frame>, broken: bool, n: nat)
    requires Flow(got, buf, flight, out, sent, broken) && n <= |flight|
    ensures Flow(got, buf + flight[..n], flight[n..], out, sent, broken)
  {
    hide EncodeAll, Valid;
    SplitAt(flight, n);
    ConcatAssoc(flight[..n], flight[n..], out);
    ConcatAssoc(buf, flight[..n], flight[n..] + out);
  }

  /** The frame taken is the next one sent. */
  lemma FlowTake(got: seq<Frame>, buf: seq<byte>, flight: seq<byte>, out: seq<byte>, sent: seq<Frame>, broken: bool)
    requires Flow(got, buf, flight, out, sent, broken) && Decode(buf).Got?
    ensures Decode(buf).size <= |buf|
    ensures Flow(got + [Decode(buf).frame], buf[Decode(buf).size..], flight, out, sent, broken)
    ensures got + [Decode(buf).frame] <= sent
  {
    hide Encode, EncodeAll, Valid, Decode;
    var f, n := Decode(buf).frame, Decode(buf).size;
    EncodeOfDecode(buf);
    EncodeAllConcat(got, [f]);
    EncodeAllSingle(f);
    SplitAt(buf, n);
    ConcatAssoc(buf[..n], buf[n..], flight + out);
    ConcatAssoc(EncodeAll(got), buf[..n], buf[n..] + (flight + out));
    PrefixFree(got + [f], sent, buf[n..] + (flight + out));
  }

  /** No reader of a channel ever sees a corrupt header. */
  lemma FlowNeverCorrupt(got: seq<Frame>, buf: seq<byte>, flight: seq<byte>, out: seq<byte>, sent: seq<Frame>, broken: bool)
    requires Flow(got, buf, flight, out, sent, broken)
    ensures got <= sent && !Decode(buf).Corrupt?
  {
    hide Encode, Valid, Decode;
    var tail := buf + (flight + out);
    PrefixFree(got, sent, tail);
    var rest := sent[|got|..];
    if Decode(buf).Corrupt? {
      IncompleteIsShort(buf);
      DecodeStable(buf, EncodeAll(rest)[|buf|..]);
      PrefixMeansConcat(buf, EncodeAll(rest));
      DecodeOfEncode(rest[0], EncodeAll(rest[1..]));
      assert false;
    }
  }

  // ---- Both directions ----

  predicate UpFlows(w: World) {
    Flow(Receipts(w.server.trace), w.server.buf, w.up.flight, w.client.out, Sends(w.client.trace), w.up.broken)
  }

  predicate DownFlows(w: World) {
    Flow(Receipts(w.client.trace), w.client.buf, w.down.flight, w.server.out, Sends(w.server.trace), w.down.broken)
  }

  lemma ReactionEvents(trace: seq<Event>, heard: seq<Event>, a: Reaction)
    requires |heard| <= 1 && forall e :: e in heard ==> e.Rx?
    ensures var tr := trace + heard + Said(a);
      && Receipts(tr) == Receipts(trace) + (if heard == [] then [] else [heard[0].frame])
      && Sends(tr) == Sends(trace) + (if a.reply.Some? then [a.reply.value] else [])
  {
    hide Sends, Receipts;
    if heard == [] {
      assert trace + heard == trace;
    } else {
      assert heard == [heard[0]];
      OneMoreEvent(trace, heard[0]);
    }
    if a.reply.Some? {
      OneMoreEvent(trace + heard, Tx(a.reply.value));
    } else {
      assert trace + heard + [] == trace + heard;
    }
  }

  lemma ReactedUp(w: World, s: Server, a: Reaction, heard: seq<Event>, rest: seq<byte>)
    requires |heard| <= 1 && forall e :: e in heard ==> e.Rx?
    requires Flow(Receipts(w.server.trace) + (if heard == [] then [] else [heard[0].frame]), rest, w.up.flight, w.client.out,
                  Sends(w.client.trace), w.up.broken)
    requires s == Reacted(w.server, a, heard, rest, w.down)
    ensures UpFlows(w.(server := s))
  {
    hide Sends, Receipts, Flow;
    ReactionEvents(w.server.trace, heard, a);
  }

  lemma ReactedDown(w: World, s: Server, a: Reaction, heard: seq<Event>, rest: seq<byte>)
    requires |heard| <= 1 && forall e :: e in heard ==> e.Rx?
    requires DownFlows(w) && w.server.out == []
    requires a.reply.Some? ==> Valid(a.reply.value)
    requires s == Reacted(w.server, a, heard, rest, w.down)
    ensures DownFlows(w.(server := s))
  {
    hide Sends, Receipts, Flow, Valid;
    ReactionEvents(w.server.trace, heard, a);
    if a.reply.Some? {
      FlowSend(Receipts(w.client.trace), w.client.buf, w.down.flight, Sends(w.server.trace), w.down, a.reply.value);
    } else {
      assert Sends(w.server.trace) + [] == Sends(w.server.trace);
    }
  }

  lemma ClientKeepsFlow(cfg: Config, w: World, a: Action)
    requires Enabled(w, a) && UpFlows(w) && DownFlows(w)
    requires a.ClientSend? || a.ClientWrite? || a.ClientWriteFails? || a.ClientRead? || a.ClientTake? || a.ClientClose?
    ensures UpFlows(Step(cfg, w, a)) && DownFlows(Step(cfg, w, a))
  {
    hide Sends, Receipts, Flow, Decode, Encode, EncodeAll, Valid, Request;
    var c, s := w.client, w.server;
    match a {
      case ClientSend(f) =>
        OneMoreEvent(c.trace, Tx(f));
        assert Receipts(c.trace) + [] == Receipts(c.trace);
        FlowSend(Receipts(s.trace), s.buf, w.up.flight, Sends(c.trace), w.up, f);
      case ClientWrite(n) =>
        FlowWrite(Receipts(s.trace), s.buf, w.up.flight, c.out, Sends(c.trace), w.up.broken, n);
      case ClientWriteFails =>
        FlowBreak(Receipts(s.trace), s.buf, w.up.flight, c.out, Sends(c.trace), w.up.broken);
      case ClientRead(n) =>
        FlowRead(Receipts(c.trace), c.buf, w.down.flight, s.out, Sends(s.trace), w.down.broken, n);
      case ClientTake =>
        OneMoreEvent(c.trace, Rx(Decode(c.buf).frame));
        assert Sends(c.trace) + [] == Sends(c.trace);
        FlowTake(Receipts(c.trace), c.buf, w.down.flight, s.out, Sends(s.trace), w.down.broken);
      case ClientClose =>
    }
  }

  lemma ServerKeepsFlow(cfg: Config, w: World, a: Action)
    requires Enabled(w, a) && UpFlows(w) && DownFlows(w)
    requires !(a.ClientSend? || a.ClientWrite? || a.ClientWriteFails? || a.ClientRead? || a.ClientTake? || a.ClientClose?)
    ensures UpFlows(Step(cfg, w, a)) && DownFlows(Step(cfg, w, a))
  {
    hide Sends, Receipts, Flow, Decode, Encode, EncodeAll, Valid, OnReceive, OnPrepare, OnTimeout, Reacted;
    var c, s, u := w.client, w.server, Step(cfg, w, a).server;
    var got := Receipts(s.trace);
    match a {
      case ServerRead(n) =>
        FlowRead(got, s.buf, w.up.flight, c.out, Sends(c.trace), w.up.broken, n);
      case ServerWrite(n) =>
        FlowWrite(Receipts(c.trace), c.buf, w.down.flight, s.out, Sends(s.trace), w.down.broken, n);
      case ServerWriteFails =>
        FlowBreak(Receipts(c.trace), c.buf, w.down.flight, s.out, Sends(s.trace), w.down.broken);
      case ServerTake(later) =>
        var v := Decode(s.buf);
        var o := Delivered(v.frame);
        var r := OnReceive(cfg, s.sess, o, later);
        FlowTake(got, s.buf, w.up.flight, c.out, Sends(c.trace), w.up.broken);
        ReplyIsValid(cfg, s.sess, o, 0, later);
        ReactedUp(w, u, r, Heard(o), s.buf[v.size..]);
        ReactedDown(w, u, r, Heard(o), s.buf[v.size..]);
      case ServerRecvFails(later) =>
        var r := OnReceive(cfg, s.sess, Stopped, later);
        FlowNeverCorrupt(got, s.buf, w.up.flight, c.out, Sends(c.trace), w.up.broken);
        assert got + [] == got;
        ReplyIsValid(cfg, s.sess, Stopped, 0, later);
        ReactedUp(w, u, r, [], s.buf);
        ReactedDown(w, u, r, [], s.buf);
      case ServerPrepare(die, later) =>
        var r := OnPrepare(s.sess, die, later);
        assert got + [] == got;
        ReplyIsValid(cfg, s.sess, Stopped, die, later);
        ReactedUp(w, u, r, [], s.buf);
        ReactedDown(w, u, r, [], s.buf);
      case _ =>
    }
  }

  // ---- The scripts of the two processes ----

  /** The events of a server that got past the k-th of its five steps. */
  predicate Served(tr: seq<Event>) {
    && |tr| <= 5
    && (|tr| > 0 ==> tr[0] == Rx(Request()))
    && (|tr| > 1 ==> tr[1] == Tx(AckOk(SEQ)))
    && (|tr| > 2 ==> tr[2].Tx? && tr[2].frame.msgType == NOTIFY_DONE && tr[2].frame.status == STAT_SUCCESS && tr[2].frame.seqNum == SEQ)
    && (|tr| > 3 ==> tr[3].Rx? && IsLogin(tr[3].frame) && tr[3].frame.status == STAT_SUCCESS)
    && (|tr| > 4 ==> tr[4].Rx? && IsDownload(tr[4].frame) && tr[4].frame.status == STAT_SUCCESS)
  }

  predicate ServerScript(s: Server) {
    match s.sess.phase
    case Init => s.trace == []
    case WaitingUploadRequest => |s.trace| == 2 && Served(s.trace) && s.sess.seqNum == SEQ
    case WaitingFtpLoginResult => |s.trace| == 3 && Served(s.trace)
    case WaitingFtpDownloadResult => |s.trace| == 4 && Served(s.trace)
    case WaitingCloudUploadResult => false
    case Completed => |s.trace| == 5 && Served(s.trace)
    case Error => true
  }

  lemma NoEvents()
    ensures Sends([]) == [] && Receipts([]) == []
  {
  }

  /** The frames a scripted client sent and received, by position. */
  lemma {:induction false} ClientViews(tr: seq<Event>)
    requires |tr| <= 5
    requires forall i :: 0 <= i < |tr| ==> (tr[i].Rx? <==> i == 1 || i == 2)
    ensures Sends(tr) == if |tr| == 0 then [] else if |tr| <= 3 then [tr[0].frame]
                         else if |tr| == 4 then [tr[0].frame, tr[3].frame] else [tr[0].frame, tr[3].frame, tr[4].frame]
    ensures Receipts(tr) == if |tr| <= 1 then [] else if |tr| == 2 then [tr[1].frame] else [tr[1].frame, tr[2].frame]
  {
    hide Sends, Receipts;
    NoEvents();
    if tr != [] {
      var n := |tr| - 1;
      ClientViews(tr[..n]);
      assert tr == tr[..n] + [tr[n]];
      OneMoreEvent(tr[..n], tr[n]);
    }
  }

  lemma ScriptedKinds(tr: seq<Event>)
    requires Scripted(tr)
    ensures |tr| <= 5 && forall i :: 0 <= i < |tr| ==> (tr[i].Rx? <==> i == 1 || i == 2)
  {
    hide Request, IsLogin, IsDownload;
  }

  lemma {:induction false} ServerViews(tr: seq<Event>)
    requires |tr| <= 5
    requires forall i :: 0 <= i < |tr| ==> (tr[i].Tx? <==> i == 1 || i == 2)
    ensures Receipts(tr) == if |tr| == 0 then [] else if |tr| <= 3 then [tr[0].frame]
                            else if |tr| == 4 then [tr[0].frame, tr[3].frame] else [tr[0].frame, tr[3].frame, tr[4].frame]
    ensures Sends(tr) == if |tr| <= 1 then [] else if |tr| == 2 then [tr[1].frame] else [tr[1].frame, tr[2].frame]
  {
    hide Sends, Receipts;
    NoEvents();
    if tr != [] {
      var n := |tr| - 1;
      ServerViews(tr[..n]);
      assert tr == tr[..n] + [tr[n]];
      OneMoreEvent(tr[..n], tr[n]);
    }
  }

  predicate Inv(w: World) {
    UpFlows(w) && DownFlows(w) && Scripted(w.client.trace) && ServerScript(w.server)
  }

  lemma ClientKeepsScript(cfg: Config, w: World, a: Action)
    requires Enabled(w, a) && Scripted(w.client.trace)
    ensures Scripted(Step(cfg, w, a).client.trace)
  {
    hide Decode, Encode, Request, IsLogin, IsDownload, OnReceive, OnPrepare;
  }

  /** The next frame the server takes is the next one of the client's script. */
  lemma ServerTakesNext(w: World)
    requires UpFlows(w) && Scripted(w.client.trace) && ServerScript(w.server) && Receives(w.server.sess.phase)
    requires Decode(w.server.buf).Got?
    ensures var f := Decode(w.server.buf).frame;
      match w.server.sess.phase
      case Init => f == Request()
      case WaitingFtpLoginResult => IsLogin(f)
      case WaitingFtpDownloadResult => IsDownload(f)
  {
    hide Decode, Encode, EncodeAll, Request, IsLogin, IsDownload, AckOk, Sends, Receipts, Flow;
    var c, s := w.client, w.server;
    var got, sent := Receipts(s.trace), Sends(c.trace);
    ScriptedKinds(c.trace);
    ClientViews(c.trace);
    ServerViews(s.trace);
    FlowTake(got, s.buf, w.up.flight, c.out, sent, w.up.broken);
    assert (got + [Decode(s.buf).frame])[|got|] == sent[|got|];
  }

  lemma ServerKeepsScript(cfg: Config, w: World, a: Action)
    requires Enabled(w, a) && Inv(w)
    ensures ServerScript(Step(cfg, w, a).server)
  {
    hide Decode, Encode, EncodeAll, Request, Valid, AckOk, AckBad, NotifyDone, Prepared, Sends, Receipts, Flow;
    var s := w.server;
    match a {
      case ServerTake(later) =>
        ServerTakesNext(w);
        assert s.trace + Heard(Delivered(Decode(s.buf).frame)) + [] == s.trace + Heard(Delivered(Decode(s.buf).frame));
      case ServerPrepare(die, later) =>
        ReplyFields(s.sess.seqNum, die);
        assert s.trace + [] == s.trace;
      case _ =>
    }
  }

  lemma StepKeepsInv(cfg: Config, w: World, a: Action)
    requires Enabled(w, a) && Inv(w)
    ensures Inv(Step(cfg, w, a))
  {
    hide UpFlows, DownFlows, Scripted, ServerScript, Step, Enabled;
    ClientKeepsScript(cfg, w, a);
    ServerKeepsScript(cfg, w, a);
    if a.ClientSend? || a.ClientWrite? || a.ClientWriteFails? || a.ClientRead? || a.ClientTake? || a.ClientClose? {
      ClientKeepsFlow(cfg, w, a);
    } else {
      ServerKeepsFlow(cfg, w, a);
    }
  }

  lemma {:induction false} ReachKeepsInv(cfg: Config, w: World, schedule: seq<Action>)
    requires Inv(w)
    ensures Inv(Reach(cfg, w, schedule))
    decreases |schedule|
  {
    hide Inv, Step, Enabled;
    if schedule != [] {
      var next := if Enabled(w, schedule[0]) then Step(cfg, w, schedule[0]) else w;
      if Enabled(w, schedule[0]) {
        StepKeepsInv(cfg, w, schedule[0]);
      }
      ReachKeepsInv(cfg, next, schedule[1..]);
    }
  }

  lemma InitialInv(now: nat)
    ensures Inv(Initial(now))
  {
    NoEvents();
    assert EncodeAll([]) == [];
  }

  /** The whole conversation as the client saw it: request, acknowledgement, log ready, both results. */
  predicate Agreed(tr: seq<Event>) {
    && |tr| == 5
    && tr[0] == Tx(Request()) && tr[1] == Rx(AckOk(SEQ))
    && LogReady(tr[2]) && tr[2].frame.seqNum == SEQ
    && tr[3].Tx? && IsLogin(tr[3].frame) && tr[3].frame.status == STAT_SUCCESS
    && tr[4].Tx? && IsDownload(tr[4].frame) && tr[4].frame.status == STAT_SUCCESS
  }

  lemma CompletedMeansAgreed(w: World)
    requires Inv(w) && w.server.sess.phase == Completed
    ensures Agreed(w.client.trace)
    ensures Receipts(w.server.trace) == Sends(w.client.trace)
    ensures Receipts(w.client.trace) == Sends(w.server.trace)
  {
    hide Decode, Encode, EncodeAll, Request, IsResult, AckOk, Sends, Receipts, Flow;
    var c, s := w.client, w.server;
    ScriptedKinds(c.trace);
    ClientViews(c.trace);
    ServerViews(s.trace);
    var sent, answered := Sends(c.trace), Sends(s.trace);
    FlowNeverCorrupt(Receipts(s.trace), s.buf, w.up.flight, c.out, sent, w.up.broken);
    FlowNeverCorrupt(Receipts(c.trace), c.buf, w.down.flight, s.out, answered, w.down.broken);
    assert |sent| == 3;
    var got := Receipts(s.trace);
    assert got[0] == sent[0] && got[1] == sent[1] && got[2] == sent[2];
    var heard := Receipts(c.trace);
    assert heard[0] == answered[0] && heard[1] == answered[1];
  }

  /**
    In every interleaving: when the server is in COMPLETED, the client had received the
    server's ACK_START and then its NOTIFY_DONE with status 1, both with the client's
    own sequence number, and had then sent a successful login result and a successful
    download result, in that order; and each side received exactly what the other sent.
   */
  lemma TwoPartyAgreement(cfg: Config, now: nat, schedule: seq<Action>)
    ensures var w := Reach(cfg, Initial(now), schedule);
      w.server.sess.phase == Completed ==>
        && Agreed(w.client.trace)
        && Receipts(w.server.trace) == Sends(w.client.trace)
        && Receipts(w.client.trace) == Sends(w.server.trace)
  {
    hide Inv, Reach, Sends, Receipts, Agreed;
    InitialInv(now);
    ReachKeepsInv(cfg, Initial(now), schedule);
    var w := Reach(cfg, Initial(now), schedule);
    if w.server.sess.phase == Completed {
      CompletedMeansAgreed(w);
    }
  }

  /**
    In every interleaving each side has received a leading part of what the other sent,
    and neither ever finds a corrupt header in its buffer.
   */
  lemma NoSpuriousFrames(cfg: Config, now: nat, schedule: seq<Action>)
    ensures var w := Reach(cfg, Initial(now), schedule);
      && Receipts(w.server.trace) <= Sends(w.client.trace) && !Decode(w.server.buf).Corrupt?
      && Receipts(w.client.trace) <= Sends(w.server.trace) && !Decode(w.client.buf).Corrupt?
  {
    hide Reach, Sends, Receipts, Decode, Flow;
    InitialInv(now);
    ReachKeepsInv(cfg, Initial(now), schedule);
    var w := Reach(cfg, Initial(now), schedule);
    var c, s := w.client, w.server;
    FlowNeverCorrupt(Receipts(s.trace), s.buf, w.up.flight, c.out, Sends(c.trace), w.up.broken);
    FlowNeverCorrupt(Receipts(c.trace), c.buf, w.down.flight, s.out, Sends(s.trace), w.down.broken);
  }

  // ---- The server of this composition is the session loop ----

  /** The server after it checked the clock and read some chunks. */
  function Fed(cfg: Config, s: Server, now: nat, chunks: seq<seq<byte>>): Server {
    s.(sess := OnTimeout(cfg, s.sess, now), checked := true, buf := s.buf + Concat(chunks))
  }

  /** The actions that end a pass, at the times and with the die of a tick; a receive fails for want of a frame. */
  predicate EndsPass(s: Server, a: Action, tick: Tick) {
    match a
    case ServerTake(later) => later == tick.later
    case ServerRecvFails(later) => later == tick.later && !Decode(s.buf).Got?
    case ServerPrepare(die, later) => die == tick.die && later == tick.later
    case ServerStop => true
    case _ => false
  }

  /** The bytes that reached o' since o are what fits of a queue. */
  predicate HandsOver(out: seq<byte>, o: Outlet, o': Outlet) {
    o'.sent == o.sent + out[..Min(|out|, Room(o.script))]
  }

  lemma QueueReachesOutlet(c: Channel, a: Reaction, o: Outlet)
    requires c.broken ==> Room(o.script) == 0
    requires a.reply.Some? ==> Valid(a.reply.value)
    ensures HandsOver(if a.reply.Some? then Queued(c, a.reply.value) else [], o, Reply(o, a))
  {
    hide Encode, Room, Packable;
    var empty: seq<byte> := [];
    assert o.sent == o.sent + empty[..0];
    if a.reply.Some? {
      var e := Encode(a.reply.value);
      SendSucceedsIff(o, a.reply.value);
      assert e[..0] == empty[..0];
    }
  }

  lemma NothingQueued(o: Outlet)
    ensures HandsOver([], o, o)
  {
    var empty: seq<byte> := [];
    assert o.sent == o.sent + empty[..0];
  }

  /** A receive that ends without a frame has one effect on the session, whatever stopped it. */
  lemma FailedReceiptsAlike(cfg: Config, s: Sess, o: Outcome, later: nat)
    requires Receives(s.phase) && !o.Delivered?
    ensures OnReceive(cfg, s, o, later) == OnReceive(cfg, s, Stopped, later)
  {
  }

  /**
    A pass of the composed server (check the clock, read chunks, then take a frame, fail
    to, prepare the log or stop) is the pass of the session loop on a connection that
    delivers the same chunks; what the loop's send hands over is a leading part of the
    queued reply.
   */
  lemma PassIsIterate(cfg: Config, w: World, s: Server, chunks: seq<seq<byte>>, a: Action, tick: Tick, outlet: Outlet)
    requires ServerAt(s, false) && |s.buf| <= RBUF_SIZE && Needed(s.buf, chunks)
    requires w.server == Fed(cfg, s, tick.now, chunks) && (Receives(w.server.sess.phase) || chunks == [])
    requires Enabled(w, a) && EndsPass(w.server, a, tick)
    requires w.down.broken ==> Room(outlet.script) == 0
    ensures var u := Step(cfg, w, a).server;
      var v := Iterate(cfg, Thread(s.sess, true, Wire(s.buf, Datas(chunks)), outlet, s.trace), tick);
      && u.sess == v.sess && u.running == v.running && u.trace == v.trace
      && u.buf == v.wire.buf && v.wire.script == []
      && HandsOver(u.out, outlet, v.outlet)
  {
    hide Decode, Encode, OnReceive, OnPrepare, OnTimeout, Send, Room, HandsOver, Valid;
    ChunksAreReceived(s.buf, chunks, []);
    assert Datas(chunks) + [] == Datas(chunks);
    var o := Receive(Wire(w.server.buf, [])).outcome;
    match a {
      case ServerTake(later) =>
        ReplyIsValid(cfg, w.server.sess, o, 0, later);
        QueueReachesOutlet(w.down, OnReceive(cfg, w.server.sess, o, later), outlet);
      case ServerRecvFails(later) =>
        FailedReceiptsAlike(cfg, w.server.sess, o, later);
        ReplyIsValid(cfg, w.server.sess, o, 0, later);
        QueueReachesOutlet(w.down, OnReceive(cfg, w.server.sess, o, later), outlet);
      case ServerPrepare(die, later) =>
        assert s.trace + [] == s.trace && s.buf + [] == s.buf;
        ReplyIsValid(cfg, w.server.sess, o, die, later);
        QueueReachesOutlet(w.down, OnPrepare(w.server.sess, die, later), outlet);
      case ServerStop =>
        assert s.buf + [] == s.buf;
        NothingQueued(outlet);
    }
  }
}
