/** The demo client (demo/lucp_client_demo.c, lines 32-136) as it runs on a network context. */
module ClientDemo {
  import opened ByteOrder
  import opened Codec
  import opened FrameIO
  import opened Transport
  import opened Net
  import opened Session
  import opened SessionLaws
  import opened ClientScript

  const LOGIN_FAILURE := "FTP login failed: bad credentials"
  const DOWNLOAD_FAILURE := "FTP download failed: network error"

  lemma ResultLengths()
    ensures Size(33) == |LOGIN_FAILURE| && Size(34) == |DOWNLOAD_FAILURE|
  {
  }

  /** The message that reports a simulated FTP step: what it says is decided by a roll of the die. */
  function ResultFrame(msgType: byte, failure: byte, reason: string, reasonLen: bv16, die: nat, payload: seq<byte>, payloadLen: bv16): (f: Frame)
    requires Size(reasonLen) == |reason| && Size(payloadLen) == |payload| && failure != STAT_SUCCESS
    ensures IsResult(f, msgType, failure) && (f.status == STAT_SUCCESS <==> die % 10 < 8)
  {
    if die % 10 < 8 then Made(SEQ, msgType, STAT_SUCCESS, payload, payloadLen)
    else Made(SEQ, msgType, failure, Ascii(reason), reasonLen)
  }

  function LoginFrame(die: nat, payload: seq<byte>, payloadLen: bv16): Frame
    requires Size(payloadLen) == |payload|
  {
    ResultLengths();
    ResultFrame(FTP_LOGIN_RESULT, FTP_LOGIN_FAILED, LOGIN_FAILURE, 33, die, payload, payloadLen)
  }

  function DownloadFrame(die: nat, payload: seq<byte>, payloadLen: bv16): Frame
    requires Size(payloadLen) == |payload|
  {
    ResultLengths();
    ResultFrame(FTP_DOWNLOAD_RESULT, FTP_DOWNLOAD_FAILED, DOWNLOAD_FAILURE, 34, die, payload, payloadLen)
  }

  /** The result messages: a success carries the payload, a failure its reason. */
  lemma ResultsOnTheWire(die: nat, payload: seq<byte>, payloadLen: bv16)
    requires Size(payloadLen) == |payload|
    ensures die % 10 >= 8 ==>
      && Encode(LoginFrame(die, payload, payloadLen)) == WireBytes(10001, 0x04, 0x20, 33, "FTP login failed: bad credentials")
      && Encode(DownloadFrame(die, payload, payloadLen)) == WireBytes(10001, 0x05, 0x21, 34, "FTP download failed: network error")
    ensures die % 10 < 8 ==>
      var text := payload[..Min(|payload|, 1010)]; var f, g := LoginFrame(die, payload, payloadLen), DownloadFrame(die, payload, payloadLen);
      && f.msgType == 0x04 && f.status == 0x01 && f.text == text
      && g.msgType == 0x05 && g.status == 0x01 && g.text == text
  {
    hide Ascii, WireBytes, Made, Encode;
    ResultLengths();
    if die % 10 < 8 {
      MadeOf(SEQ, FTP_LOGIN_RESULT, STAT_SUCCESS, payload, payloadLen);
      MadeOf(SEQ, FTP_DOWNLOAD_RESULT, STAT_SUCCESS, payload, payloadLen);
    } else {
      MadeOnTheWire(SEQ, FTP_LOGIN_RESULT, FTP_LOGIN_FAILED, LOGIN_FAILURE, 33, 33);
      MadeOnTheWire(SEQ, FTP_DOWNLOAD_RESULT, FTP_DOWNLOAD_FAILED, DOWNLOAD_FAILURE, 34, 34);
    }
  }

  /** A wait and receive that gave no frame: it was not ready in time, or the n-th call failed. */
  predicate Missed(os: seq<Outcome>, n: nat, ready: bool) {
    if ready then |os| == n && n > 0 && !os[n - 1].Delivered? else |os| + 1 == n
  }

  /** Why a client that received os stopped before the result messages. */
  predicate GaveUp(tr: seq<Event>, os: seq<Outcome>, ready: nat -> bool) {
    || (|tr| == 1 && Missed(os, 1, ready(0)))
    || (|tr| == 2 && !AckReceived(tr[1]) && |os| == 1)
    || (|tr| == 2 && AckReceived(tr[1]) && Missed(os, 2, ready(1)))
    || (|tr| == 3 && !LogReady(tr[2]) && |os| == 2)
  }

  lemma GaveUpEarly(tr: seq<Event>, os: seq<Outcome>, ready: nat -> bool)
    requires GaveUp(tr, os, ready)
    ensures 0 < |tr| <= 3
  {
  }

  class Client {
    const ctx: NetCtx
    const req: FrameStruct
    const reply: FrameStruct
    ghost const outlet: Outlet
    ghost const wire: Wire
    ghost const before: nat
    ghost var trace: seq<Event>

    /** The outcomes of the receive calls since the start. */
    ghost function Outcomes(): seq<Outcome>
      requires before <= |ctx.ledger|
      reads this, ctx
    {
      ctx.ledger[before..]
    }

    /** What was sent and received since the start is what the trace tells. */
    ghost predicate Valid()
      reads this, ctx, ctx.rbuf, ctx.sock
    {
      && ctx.Valid() && req.Valid() && reply.Valid()
      && req != reply && req.textInfo != reply.textInfo
      && req.textInfo != ctx.rbuf && reply.textInfo != ctx.rbuf
      && before <= |ctx.ledger| && |wire.buf| <= RBUF_SIZE
      && ctx.sock.Outlet() == SendMany(outlet, Sends(trace)).outlet
      && ReceiveMany(wire, |Outcomes()|) == AllReceived(Outcomes(), ctx.Wire())
      && Frames(Outcomes()) == Receipts(trace)
    }

    constructor (ctx: NetCtx)
      requires ctx.Valid()
      ensures Valid() && trace == [] && Outcomes() == [] && this.ctx == ctx
      ensures outlet == ctx.sock.Outlet() && wire == ctx.Wire() && before == |ctx.ledger|
      ensures fresh(req) && fresh(reply) && fresh(req.textInfo) && fresh(reply.textInfo)
    {
      this.ctx := ctx;
      req := new FrameStruct();
      reply := new FrameStruct();
      outlet := ctx.sock.Outlet();
      wire := ctx.Wire();
      before := |ctx.ledger|;
      trace := [];
    }

    /** lucp_frame_make and lucp_net_send. */
    method Say(msgType: byte, status: byte, text: seq<byte>, len: bv16) returns (ghost f: Frame)
      requires Valid() && Size(len) == |text|
      modifies req, req.textInfo, ctx.sock`accepts, ctx.sock`sent, this`trace
      ensures Valid() && f == Made(SEQ, msgType, status, text, len) && trace == old(trace) + [Tx(f)]
      ensures Codec.Valid(f) && f.msgType == msgType && f.seqNum == SEQ && f.status == status
    {
      hide Send, Encode, Size, Clamped, Sends, Receipts, Frames, SendMany;
      var payload := new byte[|text|](i requires 0 <= i < |text| => text[i]);
      assert payload[..] == text;
      Make(req, SEQ, msgType, status, payload, len);
      f := req.Value();
      var _ := ctx.Transmit(req);
      OneMoreEvent(trace, Tx(f));
      SendManyAppend(outlet, Sends(trace), f);
      assert Receipts(trace) + [] == Receipts(trace);
      trace := trace + [Tx(f)];
    }

    /** Waits for the socket, then lucp_net_recv; a timeout or a failed call gives nothing. */
    method Hear(ready: bool) returns (ok: bool)
      requires Valid()
      modifies reply, reply.textInfo, ctx`rbufLen, ctx`ledger, ctx.rbuf, ctx.sock`incoming, ctx.sock`history, ctx.sock`fills, this`trace
      ensures Valid()
      ensures if ok then reply.Valid() && trace == old(trace) + [Rx(reply.Value())] else trace == old(trace)
      ensures if ready then |Outcomes()| == old(|Outcomes()|) + 1 && (ok <==> Outcomes()[|Outcomes()| - 1].Delivered?)
              else !ok && Outcomes() == old(Outcomes())
    {
      hide Receive, Sends, Receipts, Frames, SendMany, ReceiveMany;
      if !ready {
        return false;
      }
      ghost var o := Receive(ctx.Wire()).outcome;
      ghost var os := Outcomes();
      ReceiveOneMore(wire, |os|);
      var rc := ctx.Recv(reply);
      assert Outcomes() == os + [o];
      FramesAppend(os, o);
      if rc == 0 {
        OneMoreEvent(trace, Rx(o.frame));
        assert Sends(trace) + [] == Sends(trace);
        trace := trace + [Rx(o.frame)];
      } else {
        assert Receipts(trace) + [] == Receipts(trace);
      }
      return rc == 0;
    }

    /** Steps 1 to 3: the request, then the acknowledgement and the word that the log is ready. */
    method Request(ready: nat -> bool) returns (ok: bool)
      requires Valid() && trace == [] && Outcomes() == []
      modifies this, req, req.textInfo, reply, reply.textInfo, ctx`rbufLen, ctx`ledger, ctx.rbuf, ctx.sock
      ensures Valid() && Scripted(trace)
      ensures if ok then |trace| == 3 && LogReady(trace[2]) && |Outcomes()| == 2 else GaveUp(trace, Outcomes(), ready)
    {
      hide Ascii, Size, Sends, Receipts, Frames, SendMany, ReceiveMany, Made, Codec.Valid;
      RequestLength();
      ghost var f := Say(UPLOAD_REQUEST, 0, Ascii(REQUEST_TEXT), 23);
      var heard := Hear(ready(0));
      if !heard || reply.msgType != ACK_START {
        return false;
      }
      heard := Hear(ready(1));
      if !heard || reply.msgType != NOTIFY_DONE {
        return false;
      }
      return reply.status == STAT_SUCCESS;
    }

    /** One simulated FTP step and the message that reports it. */
    method Report(msgType: byte, failure: byte, reason: string, reasonLen: bv16, die: nat, payload: seq<byte>, payloadLen: bv16)
      returns (ok: bool)
      requires Valid() && Size(reasonLen) == |reason| && Size(payloadLen) == |payload| && failure != STAT_SUCCESS
      modifies this`trace, req, req.textInfo, ctx.sock`accepts, ctx.sock`sent
      ensures Valid() && Outcomes() == old(Outcomes())
      ensures var f := ResultFrame(msgType, failure, reason, reasonLen, die, payload, payloadLen);
        trace == old(trace) + [Tx(f)] && (ok <==> f.status == STAT_SUCCESS)
    {
      hide Ascii, Size, Sends, Receipts, Frames, SendMany, ReceiveMany, Made, Codec.Valid;
      ok := die % 10 < 8;
      ghost var _ := ResultFrame(msgType, failure, reason, reasonLen, die, payload, payloadLen);
      if ok {
        ghost var f := Say(msgType, STAT_SUCCESS, payload, payloadLen);
      } else {
        ghost var f := Say(msgType, failure, Ascii(reason), reasonLen);
      }
    }

    /**
      The client's main after connecting. ready tells whether each wait ended in time,
      the dice decide the simulated FTP steps, and payload is what the text buffer holds
      when a step succeeds and does not fill it.
     */
    method Converse(ready: nat -> bool, loginDie: nat, downloadDie: nat, payload: seq<byte>, payloadLen: bv16) returns (rc: int)
      requires Valid() && trace == [] && Outcomes() == [] && Size(payloadLen) == |payload|
      modifies this, req, req.textInfo, reply, reply.textInfo, ctx`rbufLen, ctx`ledger, ctx.rbuf, ctx.sock
      ensures Valid() && Scripted(trace) && |trace| > 0
      ensures rc == (if |trace| == 5 then 0 else 1)
      ensures |trace| <= 3 ==> GaveUp(trace, Outcomes(), ready)
      ensures |trace| > 3 ==> |Outcomes()| == 2 && trace[3] == Tx(LoginFrame(loginDie, payload, payloadLen)) && (|trace| == 4 <==> loginDie % 10 >= 8)
      ensures |trace| > 4 ==> trace[4] == Tx(DownloadFrame(downloadDie, payload, payloadLen))
    {
      hide Ascii, Size, Sends, Receipts, Frames, SendMany, ReceiveMany, Made, Codec.Valid, GaveUp;
      ResultLengths();
      var ok := Request(ready);
      if !ok {
        GaveUpEarly(trace, Outcomes(), ready);
        return 1;
      }
      ok := Report(FTP_LOGIN_RESULT, FTP_LOGIN_FAILED, LOGIN_FAILURE, 33, loginDie, payload, payloadLen);
      if !ok {
        return 1;
      }
      ok := Report(FTP_DOWNLOAD_RESULT, FTP_DOWNLOAD_FAILED, DOWNLOAD_FAILURE, 34, downloadDie, payload, payloadLen);
      return 0;
    }
  }
}
