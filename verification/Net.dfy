/**
  The LUCP network context (lucplib/lucp.h, lines 86-91; lucplib/lucp.c, lines
  215-420). A socket carries the script of its future read and write results, the
  bytes sent, and as ghost state every byte ever read.
 */
module Net {
  import opened ByteOrder
  import opened Codec
  import opened FrameIO
  import opened Sequences
  import opened Transport
  import opened Retries

  class Socket {
    var incoming: seq<ReadEvent>
    var accepts: seq<WriteEvent>
    var sent: seq<byte>
    ghost var history: seq<byte>
    ghost var fills: nat

    ghost function Outlet(): Outlet
      reads this
    {
      Transport.Outlet.Outlet(accepts, sent)
    }

    constructor (incoming: seq<ReadEvent>, accepts: seq<WriteEvent>)
      ensures this.incoming == incoming && this.accepts == accepts
      ensures sent == [] && history == [] && fills == 0
    {
      this.incoming, this.accepts := incoming, accepts;
      sent, history, fills := [], [], 0;
    }

    /** read: n bytes stored, 0 at end of file, or -1 with errno EINTR or another error. */
    method Read(buf: array<byte>, at: nat, room: nat) returns (n: int, interrupted: bool)
      requires at + room <= buf.Length
      modifies this`incoming, this`history, this`fills, buf
      ensures old(incoming) == [] ==> n == 0 && incoming == []
      ensures old(incoming) != [] && old(incoming)[0] == Interrupted ==> n == -1 && interrupted && incoming == old(incoming)[1..]
      ensures old(incoming) != [] && old(incoming)[0] == Failed ==> n == -1 && !interrupted && incoming == old(incoming)[1..]
      ensures old(incoming) != [] && old(incoming)[0].Data? ==>
                && n == Min(|old(incoming)[0].bytes|, room)
                && incoming == AfterRead(old(incoming), n)
                && history == old(history) + old(incoming)[0].bytes[..n]
                && buf[..] == Overwrite(old(buf[..]), at, old(incoming)[0].bytes[..n])
      ensures n <= 0 ==> buf[..] == old(buf[..]) && history == old(history) && fills == old(fills)
      ensures n > 0 ==> fills == old(fills) + 1
    {
      if incoming == [] {
        return 0, false;
      }
      match incoming[0] {
        case Interrupted =>
          incoming := incoming[1..];
          return -1, true;
        case Failed =>
          incoming := incoming[1..];
          return -1, false;
        case Data(d) =>
          n := Min(|d|, room);
          incoming := AfterRead(incoming, n);
          PutBytes(buf, at, d[..n]);
          history := history + d[..n];
          fills := if n > 0 then fills + 1 else fills;
          return n, false;
      }
    }

    /** write: n bytes accepted, or -1 with errno EINTR or another error. */
    method Write(buf: array<byte>, from: nat, size: nat) returns (n: int, interrupted: bool)
      requires from + size <= buf.Length
      modifies this`accepts, this`sent
      ensures old(accepts) == [] ==> n == -1 && !interrupted && accepts == []
      ensures old(accepts) != [] ==> accepts == old(accepts)[1..]
      ensures old(accepts) != [] && old(accepts)[0] == WriteInterrupted ==> n == -1 && interrupted
      ensures old(accepts) != [] && old(accepts)[0] == WriteFailed ==> n == -1 && !interrupted
      ensures old(accepts) != [] && old(accepts)[0].Accept? ==> n == Min(old(accepts)[0].room, size)
      ensures n >= 0 ==> n <= size && sent == old(sent) + buf[from..from + n]
      ensures n < 0 ==> sent == old(sent)
    {
      if accepts == [] {
        return -1, false;
      }
      var e := accepts[0];
      accepts := accepts[1..];
      match e {
        case WriteInterrupted =>
          return -1, true;
        case WriteFailed =>
          return -1, false;
        case Accept(room) =>
          n := Min(room, size);
          sent := sent + buf[from..from + n];
          return n, false;
      }
    }
  }

  /** full_write: everything is written, or writing stopped partway. */
  method FullWrite(sock: Socket, buf: array<byte>, len: nat) returns (rc: int)
    requires len <= buf.Length
    modifies sock`accepts, sock`sent
    ensures var w := WriteAll(len, old(sock.accepts));
      && rc == (if w.ok then 0 else -1)
      && sock.accepts == w.script
      && sock.sent == old(sock.sent) + buf[..w.count]
  {
    var written := 0;
    ghost var all := WriteAll(len, sock.accepts);
    while written < len
      invariant written <= len
      invariant sock.sent == old(sock.sent) + buf[..written]
      invariant var rest := WriteAll(len - written, sock.accepts);
        rest.ok == all.ok && rest.script == all.script && rest.count + written == all.count
      decreases |sock.accepts|, len - written
    {
      ghost var before := sock.accepts;
      var n, interrupted := sock.Write(buf, written, len - written);
      if n < 0 {
        if interrupted {
          continue;
        }
        return -1;
      }
      if n == 0 {
        return -1;
      }
      assert buf[..written] + buf[written..written + n] == buf[..written + n];
      ConcatAssoc(old(sock.sent), buf[..written], buf[written..written + n]);
      written := written + n;
    }
    return 0;
  }

  class NetCtx {
    const host: Host
    const sock: Socket
    const rbuf: array<byte>
    var rbufLen: nat
    ghost var ledger: seq<Outcome>

    /** Every byte ever read is accounted for by the calls made so far or is still buffered. */
    ghost predicate Valid()
      reads this, rbuf, sock
    {
      && rbuf.Length == RBUF_SIZE && rbufLen <= RBUF_SIZE
      && sock.history == Ledger(ledger) + rbuf[..rbufLen]
    }

    ghost function Wire(): Wire
      requires Valid()
      reads this, rbuf, sock
    {
      Transport.Wire.Wire(rbuf[..rbufLen], sock.incoming)
    }

    /** lucp_net_ctx_init on a connection nothing was read from. */
    constructor (host: Host, sock: Socket)
      requires sock.history == []
      ensures Valid() && fresh(rbuf) && ledger == []
      ensures this.host == host && this.sock == sock && Wire() == Transport.Wire.Wire([], sock.incoming)
    {
      this.host, this.sock := host, sock;
      rbuf := new byte[RBUF_SIZE](i => 0);
      rbufLen, ledger := 0, [];
    }

    /** Moves the bytes behind a parsed frame to the start of the buffer. */
    method Compact(parsed: nat)
      requires rbuf.Length == RBUF_SIZE && parsed <= rbufLen <= RBUF_SIZE
      modifies this`rbufLen, rbuf
      ensures rbufLen == old(rbufLen) - parsed && rbuf[..rbufLen] == old(rbuf[..rbufLen])[parsed..]
    {
      hide Overwrite;
      var remain := rbufLen - parsed;
      OverwriteStart(rbuf[..], rbuf[parsed..parsed + remain]);
      if remain > 0 {
        CopyBytes(rbuf, 0, rbuf, parsed, remain);
      }
      rbufLen := remain;
      assert rbuf[..remain] == rbuf[..][..remain];
    }

    /** A parse of the buffered bytes: a complete frame is taken out, a corrupt buffer is cleared. */
    method TakeFrame(frame: FrameStruct) returns (parsed: int)
      requires Valid() && frame.Valid() && frame.textInfo != rbuf
      modifies this`rbufLen, this`ledger, rbuf, frame, frame.textInfo
      ensures Valid()
      ensures parsed == 0 ==> Decode(rbuf[..rbufLen]).Incomplete? && Wire() == old(Wire()) && ledger == old(ledger)
      ensures parsed != 0 ==>
                var r := Receive(old(Wire()));
                && r.fills == 0 && Wire() == r.wire && ledger == old(ledger) + [r.outcome]
                && (parsed > 0 <==> r.outcome.Delivered?)
                && (parsed > 0 ==> frame.Value() == r.outcome.frame)
    {
      hide Decode, Encode;
      ghost var s, r := rbuf[..rbufLen], Receive(Wire());
      parsed := Unpack(host, frame, rbuf, rbufLen);
      if parsed != 0 {
        LedgerAppend(ledger, r.outcome);
        ledger := ledger + [r.outcome];
        if parsed > 0 {
          EncodeOfDecode(s);
          SplitAt(s, parsed);
          Compact(parsed);
          ConcatAssoc(Ledger(old(ledger)), s[..parsed], s[parsed..]);
        } else {
          rbufLen := 0;
          assert (Ledger(old(ledger)) + s) + [] == Ledger(old(ledger)) + s;
        }
      }
    }

    /** One read into the free part of the buffer. */
    method Fill() returns (n: int, interrupted: bool)
      requires Valid()
      modifies this`rbufLen, rbuf, sock`incoming, sock`history, sock`fills
      ensures Valid()
      ensures var w := old(Wire());
        if w.script == [] then n == 0 && Wire() == w
        else match w.script[0]
          case Interrupted => n == -1 && interrupted && Wire() == w.(script := w.script[1..])
          case Failed => n == -1 && !interrupted && Wire() == w.(script := w.script[1..])
          case Data(d) =>
            && n == Min(|d|, RBUF_SIZE - |w.buf|)
            && Wire() == Transport.Wire.Wire(w.buf + d[..n], AfterRead(w.script, n))
      ensures sock.fills == old(sock.fills) + (if n > 0 then 1 else 0)
    {
      hide AfterRead;
      ghost var w, b := Wire(), rbuf[..];
      n, interrupted := sock.Read(rbuf, rbufLen, rbuf.Length - rbufLen);
      if n > 0 {
        ghost var d := w.script[0].bytes;
        OverwriteExtends(b, rbufLen, d[..n]);
        ConcatAssoc(Ledger(ledger), w.buf, d[..n]);
        rbufLen := rbufLen + n;
      }
      assert rbuf[..rbufLen] == rbuf[..][..rbufLen];
    }

    /**
      lucp_net_recv: the reassembly loop computes Receive on the buffered bytes and the
      socket's future, and records its outcome in the ledger.
     */
    method Recv(frame: FrameStruct) returns (rc: int)
      requires Valid() && frame.Valid() && frame.textInfo != rbuf
      modifies this`rbufLen, this`ledger, rbuf, sock`incoming, sock`history, sock`fills, frame, frame.textInfo
      ensures Valid()
      ensures var r := Receive(old(Wire()));
        && Wire() == r.wire
        && ledger == old(ledger) + [r.outcome]
        && sock.fills == old(sock.fills) + r.fills
        && rc == (if r.outcome.Delivered? then 0 else -1)
        && (rc == 0 ==> frame.Value() == r.outcome.frame)
    {
      hide Decode, Overwrite, Bytes;
      ghost var whole := Receive(Wire());
      var parsed := TakeFrame(frame);
      if parsed > 0 {
        return 0;
      } else if parsed < 0 {
        return -1;
      }
      while true
        invariant Valid() && ledger == old(ledger) && Decode(rbuf[..rbufLen]).Incomplete?
        invariant var r := Receive(Wire());
          r.outcome == whole.outcome && r.wire == whole.wire && sock.fills + r.fills == old(sock.fills) + whole.fills
        decreases Weight(sock.incoming)
      {
        ghost var w := Wire();
        IncompleteIsShort(w.buf);
        assert rbuf.Length - rbufLen >= 1025;
        var n, interrupted := Fill();
        if n < 0 {
          if interrupted {
            continue;
          }
          Stop();
          return -1;
        }
        if n == 0 {
          Stop();
          return -1;
        }
        AfterReadWeight(w.script, n);
        if rbufLen > rbuf.Length {
          assert false;
        }
        parsed := TakeFrame(frame);
        if parsed > 0 {
          return 0;
        } else if parsed < 0 {
          return -1;
        }
      }
    }

    /** Records a call that ended without a frame. */
    ghost method Stop()
      requires Valid()
      modifies this`ledger
      ensures Valid() && ledger == old(ledger) + [Stopped]
    {
      LedgerAppend(ledger, Stopped);
      assert Ledger(ledger) + [] == Ledger(ledger);
      ledger := ledger + [Stopped];
    }

    /** lucp_net_send: the whole encoding is handed over, or the part the socket took before failing. */
    method Transmit(frame: FrameStruct) returns (rc: int)
      requires frame.Valid()
      modifies sock`accepts, sock`sent
      ensures var r := Send(old(sock.Outlet()), frame.Value());
        && sock.Outlet() == r.outlet
        && rc == (if r.ok then 0 else -1)
    {
      hide Encode, Overwrite, WriteAll;
      var buf := new byte[MAX_FRAME];
      ghost var blank := buf[..];
      var len := Pack(host, frame, buf, buf.Length);
      if len < 0 {
        return -1;
      }
      ghost var w, e := WriteAll(len, sock.accepts), Encode(frame.Value());
      var written := FullWrite(sock, buf, len);
      OverwriteStart(blank, e);
      TakeTake(buf[..], len, w.count);
      return written;
    }

    /** One attempt: send, wait, and receive if the socket was reported readable. */
    method TryOnce(frame: FrameStruct, reply: FrameStruct, expectCmd: byte, rv: SelectResult) returns (ok: bool)
      requires Valid() && frame.Valid() && reply.Valid()
      requires reply != frame && reply.textInfo != frame.textInfo && reply.textInfo != rbuf && frame.textInfo != rbuf
      modifies this`rbufLen, this`ledger, rbuf, sock, reply, reply.textInfo
      ensures Valid() && frame.Value() == old(frame.Value())
      ensures var t := Attempt(old(Wire()), old(sock.Outlet()), frame.Value(), rv);
        && Wire() == t.wire && sock.Outlet() == t.outlet && ledger == old(ledger) + t.outcomes
        && (ok <==> t.outcomes != [] && Answered(t.outcomes[0], frame.Value(), expectCmd))
        && (ok ==> reply.Value() == t.outcomes[0].frame && reply.msgType == expectCmd && reply.seqNum == frame.seqNum)
    {
      hide Encode, Receive, Decode, Send, Ledger;
      assert ledger + [] == ledger;
      var sent := Transmit(frame);
      if sent < 0 {
        return false;
      }
      if rv == SelectError || rv == TimedOut {
        return false;
      }
      if rv.isSet {
        var got := Recv(reply);
        return got == 0 && reply.msgType == expectCmd && reply.seqNum == frame.seqNum;
      }
      return false;
    }

    /**
      lucp_net_send_with_retries: the attempts, what they sent and received, and the
      reply are those of Retry on the context's connection.
     */
    method SendWithRetries(frame: FrameStruct, reply: FrameStruct, expectCmd: byte, nRetries: int,
                           select: nat -> SelectResult)
      returns (rc: int)
      requires Valid() && frame.Valid() && reply.Valid()
      requires reply != frame && reply.textInfo != frame.textInfo && reply.textInfo != rbuf
      requires frame.textInfo != rbuf
      modifies this`rbufLen, this`ledger, rbuf, sock, reply, reply.textInfo
      ensures Valid() && frame.Value() == old(frame.Value())
      ensures var r := Retry(old(Wire()), old(sock.Outlet()), frame.Value(), expectCmd, if nRetries > 0 then nRetries else 0, select, 0);
        && rc == (if r.ok then 0 else -1)
        && Wire() == r.wire && sock.Outlet() == r.outlet && ledger == old(ledger) + r.outcomes
        && (rc == 0 ==> r.outcomes != [] && r.outcomes[|r.outcomes| - 1] == Delivered(reply.Value()))
      ensures rc == 0 ==> reply.msgType == expectCmd && reply.seqNum == frame.seqNum
    {
      hide Encode, Receive, Decode, Send, Attempt, Retry, Ledger;
      ghost var f := frame.Value();
      ghost var whole := Retry(Wire(), sock.Outlet(), f, expectCmd, if nRetries > 0 then nRetries else 0, select, 0);
      assert ledger + whole.outcomes == old(ledger) + whole.outcomes;
      var i := 0;
      while i < nRetries
        invariant Valid() && frame.Value() == f && 0 <= i && (i == 0 || i <= nRetries) && |old(ledger)| <= |ledger|
        invariant var left := if nRetries > i then nRetries - i else 0;
          var r := Retry(Wire(), sock.Outlet(), f, expectCmd, left, select, i);
          && r.ok == whole.ok && r.wire == whole.wire && r.outlet == whole.outlet
          && ledger + r.outcomes == old(ledger) + whole.outcomes
      {
        ghost var before := ledger;
        ghost var t, more := RetryUnfolds(Wire(), sock.Outlet(), f, expectCmd, nRetries - i, select, i);
        var ok := TryOnce(frame, reply, expectCmd, select(i));
        if ok {
          assert ledger == old(ledger) + whole.outcomes;
          assert ledger[|ledger| - 1] == Delivered(reply.Value());
          return 0;
        }
        ConcatAssoc(before, t.outcomes, more.outcomes);
        i := i + 1;
      }
      NoAttempt(Wire(), sock.Outlet(), f, expectCmd, select, i);
      assert ledger + [] == ledger;
      return -1;
    }
  }
}
