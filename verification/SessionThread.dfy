/** session_thread itself (lucpd/src/lucpd.c, lines 30-39 and 62-236): the loop that updates the session in place. */
module SessionThread {
  import opened ByteOrder
  import opened Codec
  import opened FrameIO
  import opened Transport
  import opened Net
  import opened Session
  import SessionLaws

  lemma AckFrames(seqNum: bv32)
    ensures Size(11) == |BAD_VERSION| && AckBad(seqNum) == Made(seqNum, ACK_START, STAT_FAILED, Ascii(BAD_VERSION), 11)
    ensures Size(0) == 0 && AckOk(seqNum) == Made(seqNum, ACK_START, STAT_SUCCESS, Ascii(""), 0)
  {
    TextLengths(0);
  }

  class LucpSession {
    const ctx: NetCtx
    const frame: FrameStruct
    const reply: FrameStruct
    var state: Phase
    var seqNum: bv32
    var lastActiveMs: nat
    ghost var trace: seq<Event>

    /** The session's records are separate objects and the context is consistent. */
    ghost predicate Valid()
      reads this, ctx, ctx.rbuf, ctx.sock
    {
      && ctx.Valid() && frame.Valid() && reply.Valid()
      && frame != reply && frame.textInfo != reply.textInfo
      && frame.textInfo != ctx.rbuf && reply.textInfo != ctx.rbuf
    }

    ghost function Sess(): Sess
      reads this
    {
      Session.Sess.Sess(state, seqNum, lastActiveMs)
    }

    ghost function View(running: bool): Thread
      requires Valid()
      reads this, ctx, ctx.rbuf, ctx.sock
    {
      Thread(Sess(), running, ctx.Wire(), ctx.sock.Outlet(), trace)
    }

    /** A session on a fresh connection, as allocated by the accept loop. */
    constructor (host: Host, sock: Socket, now: nat)
      requires sock.history == []
      ensures Valid() && fresh(ctx) && fresh(ctx.rbuf) && fresh(frame) && fresh(frame.textInfo) && fresh(reply) && fresh(reply.textInfo)
      ensures ctx.sock == sock
      ensures View(true) == SessionLaws.Start(Transport.Wire.Wire([], sock.incoming), sock.Outlet(), now)
    {
      ctx := new NetCtx(host, sock);
      frame := new FrameStruct();
      reply := new FrameStruct();
      state := Init;
      seqNum := 0;
      lastActiveMs := now;
      trace := [];
    }

    /** lucp_frame_make followed by lucp_net_send, whose result the session does not look at. */
    method Answer(seqNo: bv32, msgType: byte, status: byte, text: string, len: bv16, ghost f: Frame)
      requires Valid() && Size(len) == |text| && Size(len) <= MAX_TEXT
      requires f == Made(seqNo, msgType, status, Ascii(text), len)
      modifies reply, reply.textInfo, ctx.sock`accepts, ctx.sock`sent, this`trace
      ensures Valid() && trace == old(trace) + [Tx(f)]
      ensures ctx.sock.Outlet() == Send(old(ctx.sock.Outlet()), f).outlet
    {
      hide Ascii, Send, Encode, Size, Clamped;
      var bytes := Ascii(text);
      var payload := new byte[|bytes|](i requires 0 <= i < |bytes| => bytes[i]);
      assert payload[..] == bytes;
      Make(reply, seqNo, msgType, status, payload, len);
      var _ := ctx.Transmit(reply);
      trace := trace + [Tx(f)];
    }

    /** lucp_net_recv into the session's frame. */
    method Listen() returns (rc: int)
      requires Valid()
      modifies frame, frame.textInfo, ctx`rbufLen, ctx`ledger, ctx.rbuf, ctx.sock`incoming, ctx.sock`history, ctx.sock`fills, this`trace
      ensures Valid()
      ensures var r := Receive(old(ctx.Wire()));
        && ctx.Wire() == r.wire
        && trace == old(trace) + Heard(r.outcome)
        && rc == (if r.outcome.Delivered? then 0 else -1)
        && (rc == 0 ==> frame.Value() == r.outcome.frame)
    {
      hide Receive;
      ghost var r := Receive(ctx.Wire());
      rc := ctx.Recv(frame);
      trace := trace + Heard(r.outcome);
    }

    method AwaitUploadRequest(cfg: Config, later: nat)
      requires Valid() && state == Init
      modifies this, frame, frame.textInfo, reply, reply.textInfo, ctx`rbufLen, ctx`ledger, ctx.rbuf, ctx.sock
      ensures Valid()
      ensures var r := Receive(old(ctx.Wire()));
        var a := OnUploadRequest(cfg, old(Sess()), r.outcome, later);
        && Sess() == a.sess && ctx.Wire() == r.wire
        && ctx.sock.Outlet() == Reply(old(ctx.sock.Outlet()), a)
        && trace == old(trace) + Heard(r.outcome) + Said(a)
    {
      hide Receive, Send, AckBad, AckOk;
      TextLengths(0);
      var rc := Listen();
      if rc == 0 && frame.msgType == UPLOAD_REQUEST {
        if cfg.validateVersion {
          if frame.versionMajor != VERSION_MAJOR {
            Answer(frame.seqNum, ACK_START, STAT_FAILED, BAD_VERSION, 11, AckBad(frame.seqNum)) by {
              AckFrames(frame.seqNum);
            }
            state := Error;
            return;
          }
        }
        seqNum := frame.seqNum;
        state := WaitingUploadRequest;
        lastActiveMs := later;
        Answer(seqNum, ACK_START, STAT_SUCCESS, "", 0, AckOk(seqNum)) by {
          AckFrames(frame.seqNum);
        }
      } else if rc < 0 {
        state := Error;
      }
    }

    method PrepareLog(die: nat, later: nat)
      requires Valid() && state == WaitingUploadRequest
      modifies this, reply, reply.textInfo, ctx.sock`accepts, ctx.sock`sent
      ensures Valid()
      ensures var a := OnPrepare(old(Sess()), die, later);
        && Sess() == a.sess && ctx.Wire() == old(ctx.Wire())
        && ctx.sock.Outlet() == Reply(old(ctx.sock.Outlet()), a)
        && trace == old(trace) + Said(a)
    {
      hide Send;
      var prepared := Prepared(die);
      TextLengths(die);
      Answer(seqNum, NOTIFY_DONE, prepared.status, prepared.text, prepared.len, NotifyDone(seqNum, die));
      if prepared.status != STAT_SUCCESS {
        state := Error;
      } else {
        state := WaitingFtpLoginResult;
      }
      lastActiveMs := later;
    }

    method AwaitResult(expected: byte, success: Phase, later: nat)
      requires Valid()
      modifies this, frame, frame.textInfo, ctx`rbufLen, ctx`ledger, ctx.rbuf, ctx.sock`incoming, ctx.sock`history, ctx.sock`fills
      ensures Valid()
      ensures var r := Receive(old(ctx.Wire()));
        var a := OnResult(old(Sess()), r.outcome, expected, success, later);
        && Sess() == a.sess && ctx.Wire() == r.wire
        && ctx.sock.Outlet() == old(ctx.sock.Outlet())
        && trace == old(trace) + Heard(r.outcome)
    {
      hide Receive;
      var rc := Listen();
      if rc == 0 && frame.msgType == expected {
        if frame.status != STAT_SUCCESS {
          state := Error;
        } else {
          state := success;
        }
        lastActiveMs := later;
      } else if rc < 0 {
        state := Error;
      }
    }

    /** One pass of the session loop. */
    method Pass(cfg: Config, tick: Tick) returns (running: bool)
      requires Valid()
      modifies this, frame, frame.textInfo, reply, reply.textInfo, ctx`rbufLen, ctx`ledger, ctx.rbuf, ctx.sock
      ensures Valid() && View(running) == Iterate(cfg, old(View(true)), tick)
    {
      hide Receive, Send, OnUploadRequest, OnPrepare;
      running := true;
      if ElapsedAsInt(tick.now, lastActiveMs) > cfg.sessionTimeoutMs {
        state := Error;
      }
      match state {
        case Init => AwaitUploadRequest(cfg, tick.later);
        case WaitingUploadRequest => PrepareLog(tick.die, tick.later);
        case WaitingFtpLoginResult => AwaitResult(FTP_LOGIN_RESULT, WaitingFtpDownloadResult, tick.later);
        case WaitingFtpDownloadResult => AwaitResult(FTP_DOWNLOAD_RESULT, Completed, tick.later);
        case _ => running := false;
      }
      assert trace + [] == trace;
    }

    /** The session loop: it ends, in the state the run of the pure session reaches. */
    method Loop(cfg: Config, ticks: nat -> Tick)
      requires Valid()
      modifies this, frame, frame.textInfo, reply, reply.textInfo, ctx`rbufLen, ctx`ledger, ctx.rbuf, ctx.sock
      ensures Valid()
      ensures exists running :: View(running) == Run(cfg, old(View(true)), ticks, 0)
    {
      hide Iterate;
      var running := true;
      var i := 0;
      ghost var whole := Run(cfg, View(true), ticks, 0);
      while running && ticks(i).up
        invariant Valid() && Run(cfg, View(running), ticks, i) == whole
        decreases Left(View(running)), |Pending(ctx.Wire())|, running
      {
        IterateProgress(cfg, View(true), ticks(i));
        running := Pass(cfg, ticks(i));
        i := i + 1;
      }
    }
  }
}
