/**
  The frame transport over a byte stream, on values: what lucp_net_recv and
  full_write (lucplib/lucp.c, lines 231-357) compute for a given behaviour of
  read and write.

  The behaviour of the socket is a finite script of results. Data(d) offers d to
  the next read, which takes as much of it as fits and leaves the rest; Data([]) is
  a read that returns 0. Past the end of its script a socket is at end of file.
 */
module Transport {
  import opened ByteOrder
  import opened Codec
  import opened Sequences
  import opened Stream

  const RBUF_SIZE := 2048

  datatype ReadEvent = Data(bytes: seq<byte>) | Interrupted | Failed

  function Arriving(script: seq<ReadEvent>): seq<byte> {
    if script == [] then []
    else (if script[0].Data? then script[0].bytes else []) + Arriving(script[1..])
  }

  function Weight(script: seq<ReadEvent>): nat {
    if script == [] then 0
    else (if script[0].Data? then 1 + |script[0].bytes| else 1) + Weight(script[1..])
  }

  predicate IsBreak(e: ReadEvent) {
    e == Failed || e == Data([])
  }

  /** The number of read results that make a call fail: errors other than EINTR, and reads of 0 bytes. */
  function Breaks(script: seq<ReadEvent>): nat {
    if script == [] then 0
    else (if IsBreak(script[0]) then 1 else 0) + Breaks(script[1..])
  }

  /** The receiving end: the bytes buffered in the context and the results still to come. */
  datatype Wire = Wire(buf: seq<byte>, script: seq<ReadEvent>)

  /** Every byte not yet delivered: buffered, then still to be read. */
  function Pending(w: Wire): seq<byte> {
    w.buf + Arriving(w.script)
  }

  datatype Outcome = Delivered(frame: Frame) | Dropped(bytes: seq<byte>) | Stopped

  datatype Received = Received(outcome: Outcome, wire: Wire, fills: nat)

  function Min(a: nat, b: nat): nat {
    if a < b then a else b
  }

  /** What is left of a script after the next read took k bytes of Data(d). */
  function AfterRead(script: seq<ReadEvent>, k: nat): seq<ReadEvent>
    requires script != [] && script[0].Data? && k <= |script[0].bytes|
  {
    if k == |script[0].bytes| then script[1..] else [Data(script[0].bytes[k..])] + script[1..]
  }

  lemma AfterReadWeight(script: seq<ReadEvent>, k: nat)
    requires script != [] && script[0].Data? && 0 < k <= |script[0].bytes|
    ensures Weight(AfterRead(script, k)) < Weight(script)
    ensures script[0].bytes[..k] + Arriving(AfterRead(script, k)) == Arriving(script)
    ensures Breaks(AfterRead(script, k)) == Breaks(script)
  {
    var d := script[0].bytes;
    SplitAt(d, k);
    if k < |d| {
      var rest := AfterRead(script, k);
      assert rest[1..] == script[1..];
      ConcatAssoc(d[..k], d[k..], Arriving(script[1..]));
    }
  }

  /** One call of lucp_net_recv. */
  function Receive(w: Wire): Received
    requires |w.buf| <= RBUF_SIZE
    decreases Weight(w.script)
  {
    match Decode(w.buf)
    case Got(f, n) => Received(Delivered(f), w.(buf := w.buf[n..]), 0)
    case Corrupt => Received(Dropped(w.buf), w.(buf := []), 0)
    case Incomplete =>
      if w.script == [] then Received(Stopped, w, 0)
      else match w.script[0]
        case Interrupted => Receive(w.(script := w.script[1..]))
        case Failed => Received(Stopped, w.(script := w.script[1..]), 0)
        case Data(d) =>
          IncompleteIsShort(w.buf);
          if d == [] then Received(Stopped, w.(script := w.script[1..]), 0)
          else
            var k := Min(|d|, RBUF_SIZE - |w.buf|);
            assert Weight(AfterRead(w.script, k)) < Weight(w.script) by { AfterReadWeight(w.script, k); }
            var r := Receive(Wire(w.buf + d[..k], AfterRead(w.script, k)));
            r.(fills := r.fills + 1)
  }

  // ---- One call ----

  /** What the outcome of a call accounts for, in bytes of the stream. */
  function Bytes(o: Outcome): seq<byte> {
    match o
    case Delivered(f) => Encode(f)
    case Dropped(b) => b
    case Stopped => []
  }

  /**
    No byte is lost or invented: what was pending is what the call reports followed
    by what is pending afterwards. Only a read error, a read of 0 bytes or the end of
    the script stops a call without a frame, and only a corrupt header of the stream
    itself makes it drop anything.
   */
  predicate Accounts(w: Wire, r: Received) {
    && |r.wire.buf| <= RBUF_SIZE
    && Pending(w) == Bytes(r.outcome) + Pending(r.wire)
    && match r.outcome
       case Delivered(f) => Valid(f) && Breaks(r.wire.script) == Breaks(w.script)
       case Dropped(b) =>
         && b != [] && Decode(b).Corrupt? && Decode(Pending(w)).Corrupt?
         && r.wire.buf == [] && Breaks(r.wire.script) == Breaks(w.script)
       case Stopped =>
         && Decode(r.wire.buf).Incomplete?
         && (r.wire.script == [] || Breaks(r.wire.script) < Breaks(w.script))
  }

  lemma DecidedAccounts(w: Wire)
    requires |w.buf| <= RBUF_SIZE && !Decode(w.buf).Incomplete?
    ensures Accounts(w, Receive(w))
  {
    hide Encode, Decode, Valid;
    var a := Arriving(w.script);
    if Decode(w.buf).Got? {
      var n := Decode(w.buf).size;
      EncodeOfDecode(w.buf);
      SplitAt(w.buf, n);
      ConcatAssoc(w.buf[..n], w.buf[n..], a);
    } else {
      IncompleteIsShort(w.buf);
      DecodeStable(w.buf, a);
      assert [] + a == a;
    }
  }

  lemma SkipKeepsPending(w: Wire)
    requires w.script != [] && !(w.script[0].Data? && w.script[0].bytes != [])
    ensures Pending(w.(script := w.script[1..])) == Pending(w)
  {
    assert [] + Arriving(w.script[1..]) == Arriving(w.script[1..]);
  }

  lemma FillKeepsPending(w: Wire, k: nat)
    requires w.script != [] && w.script[0].Data? && 0 < k <= |w.script[0].bytes|
    ensures Pending(Wire(w.buf + w.script[0].bytes[..k], AfterRead(w.script, k))) == Pending(w)
  {
    AfterReadWeight(w.script, k);
    ConcatAssoc(w.buf, w.script[0].bytes[..k], Arriving(AfterRead(w.script, k)));
  }

  lemma {:induction false} ReceiveAccounts(w: Wire)
    requires |w.buf| <= RBUF_SIZE
    ensures Accounts(w, Receive(w))
    decreases Weight(w.script)
  {
    hide Encode, Decode, Valid, Pending, AfterRead, Arriving;
    if !Decode(w.buf).Incomplete? {
      DecidedAccounts(w);
    } else {
      assert [] + Pending(w) == Pending(w);
      if w.script != [] {
        match w.script[0] {
          case Interrupted =>
            SkipKeepsPending(w);
            ReceiveAccounts(w.(script := w.script[1..]));
          case Failed =>
            SkipKeepsPending(w);
          case Data(d) =>
            IncompleteIsShort(w.buf);
            if d == [] {
              SkipKeepsPending(w);
            } else {
              var k := Min(|d|, RBUF_SIZE - |w.buf|);
              AfterReadWeight(w.script, k);
              FillKeepsPending(w, k);
              ReceiveAccounts(Wire(w.buf + d[..k], AfterRead(w.script, k)));
            }
        }
      }
    }
  }

  /** A call performs at most 1024 successful reads, fewer by what is already buffered. */
  lemma {:induction false} ReceiveIsBounded(w: Wire)
    requires |w.buf| <= RBUF_SIZE
    ensures Receive(w).fills <= if |w.buf| < MAX_FRAME then MAX_FRAME - |w.buf| else 0
    decreases Weight(w.script)
  {
    hide Decode, AfterRead;
    IncompleteIsShort(w.buf);
    if Decode(w.buf).Incomplete? && w.script != [] {
      match w.script[0] {
        case Interrupted => ReceiveIsBounded(w.(script := w.script[1..]));
        case Failed =>
        case Data(d) =>
          if d != [] {
            var k := Min(|d|, RBUF_SIZE - |w.buf|);
            AfterReadWeight(w.script, k);
            ReceiveIsBounded(Wire(w.buf + d[..k], AfterRead(w.script, k)));
          }
      }
    }
  }

  function Concat(chunks: seq<seq<byte>>): seq<byte> {
    if chunks == [] then [] else chunks[0] + Concat(chunks[1..])
  }

  function Datas(chunks: seq<seq<byte>>): seq<ReadEvent> {
    if chunks == [] then [] else [Data(chunks[0])] + Datas(chunks[1..])
  }

  /** Every chunk is one a call reads: the buffer is undecided before it, and it fits. */
  predicate Needed(buf: seq<byte>, chunks: seq<seq<byte>>)
    decreases |chunks|
  {
    chunks != [] ==>
      && Decode(buf).Incomplete? && 0 < |chunks[0]| <= RBUF_SIZE - |buf|
      && Needed(buf + chunks[0], chunks[1..])
  }

  lemma ReadsChunk(buf: seq<byte>, d: seq<byte>, script: seq<ReadEvent>)
    requires Decode(buf).Incomplete? && 0 < |d| && |buf + d| <= RBUF_SIZE
    ensures var r, q := Receive(Wire(buf, [Data(d)] + script)), Receive(Wire(buf + d, script));
      r == q.(fills := q.fills + 1)
  {
    hide Decode;
    assert d[..|d|] == d;
    assert ([Data(d)] + script)[1..] == script;
  }

  /** A call takes chunks until the bytes decide it, as if they had been buffered, and reads nothing beyond them. */
  lemma {:induction false} ChunksAreReceived(buf: seq<byte>, chunks: seq<seq<byte>>, rest: seq<ReadEvent>)
    requires |buf| <= RBUF_SIZE && Needed(buf, chunks)
    ensures var all := buf + Concat(chunks);
      && |all| <= RBUF_SIZE
      && var r, q := Receive(Wire(buf, Datas(chunks) + rest)), Receive(Wire(all, rest));
      && r.outcome == q.outcome && r.wire == q.wire && r.fills == q.fills + |chunks|
      && (!Decode(all).Incomplete? ==> q.wire.script == rest && q.fills == 0)
    decreases |chunks|
  {
    hide Decode, Encode;
    if chunks == [] {
      assert buf + [] == buf && [] + rest == rest;
    } else {
      var d, script := chunks[0], Datas(chunks[1..]) + rest;
      ConcatAssoc(buf, d, Concat(chunks[1..]));
      assert Datas(chunks) + rest == [Data(d)] + script;
      ReadsChunk(buf, d, script);
      ChunksAreReceived(buf + d, chunks[1..], rest);
    }
  }

  // ---- Any number of calls ----

  datatype AllReceived = AllReceived(outcomes: seq<Outcome>, wire: Wire)

  function ReceiveMany(w: Wire, calls: nat): (r: AllReceived)
    requires |w.buf| <= RBUF_SIZE
    ensures |r.outcomes| == calls && |r.wire.buf| <= RBUF_SIZE
    decreases calls
  {
    if calls == 0 then AllReceived([], w)
    else
      var first := Receive(w);
      ReceiveAccounts(w);
      var more := ReceiveMany(first.wire, calls - 1);
      AllReceived([first.outcome] + more.outcomes, more.wire)
  }

  lemma ReceiveNone(w: Wire)
    requires |w.buf| <= RBUF_SIZE
    ensures ReceiveMany(w, 0) == AllReceived([], w)
  {
  }

  /** One more call at the start. */
  lemma ReceiveCons(w: Wire, calls: nat)
    requires |w.buf| <= RBUF_SIZE
    ensures var first := Receive(w);
      && |first.wire.buf| <= RBUF_SIZE
      && var more := ReceiveMany(first.wire, calls);
      ReceiveMany(w, calls + 1) == AllReceived([first.outcome] + more.outcomes, more.wire)
  {
    hide Receive;
    ReceiveAccounts(w);
  }

  /** One more call at the end. */
  lemma {:induction false} ReceiveOneMore(w: Wire, calls: nat)
    requires |w.buf| <= RBUF_SIZE
    ensures var r := ReceiveMany(w, calls); var next := Receive(r.wire);
      ReceiveMany(w, calls + 1) == AllReceived(r.outcomes + [next.outcome], next.wire)
    decreases calls
  {
    hide Receive, Decode, Encode, Pending;
    var first := Receive(w);
    ReceiveAccounts(w);
    if calls == 0 {
      assert ReceiveMany(first.wire, 0).outcomes == [];
      assert [first.outcome] + [] == [] + [first.outcome];
    } else {
      ReceiveOneMore(first.wire, calls - 1);
      var more := ReceiveMany(first.wire, calls - 1);
      ConcatAssoc([first.outcome], more.outcomes, [Receive(more.wire).outcome]);
    }
  }

  function Ledger(os: seq<Outcome>): seq<byte> {
    if os == [] then [] else Bytes(os[0]) + Ledger(os[1..])
  }

  function Frames(os: seq<Outcome>): seq<Frame> {
    if os == [] then []
    else (if os[0].Delivered? then [os[0].frame] else []) + Frames(os[1..])
  }

  lemma {:induction false} LedgerAppend(os: seq<Outcome>, o: Outcome)
    ensures Ledger(os + [o]) == Ledger(os) + Bytes(o)
  {
    hide Bytes;
    if os == [] {
      assert [o][1..] == [];
      assert Bytes(o) + [] == Bytes(o) == [] + Bytes(o);
    } else {
      LedgerAppend(os[1..], o);
      assert (os + [o])[1..] == os[1..] + [o];
      ConcatAssoc(Bytes(os[0]), Ledger(os[1..]), Bytes(o));
    }
  }

  lemma {:induction false} FramesAppend(os: seq<Outcome>, o: Outcome)
    ensures Frames(os + [o]) == Frames(os) + (if o.Delivered? then [o.frame] else [])
  {
    if os == [] {
      assert [o][1..] == [];
    } else {
      FramesAppend(os[1..], o);
      assert (os + [o])[1..] == os[1..] + [o];
    }
  }

  /**
    The ledger of a receiver: over any calls, with read errors and end of file
    anywhere, the bytes pending at the start are the delivered frames and the dropped
    blocks, in stream order, followed by the bytes still pending.
   */
  lemma {:induction false} ReceiveLedger(w: Wire, calls: nat)
    requires |w.buf| <= RBUF_SIZE
    ensures var r := ReceiveMany(w, calls); Pending(w) == Ledger(r.outcomes) + Pending(r.wire)
    decreases calls
  {
    hide Receive, Decode, Valid, Pending, Bytes;
    var r := ReceiveMany(w, calls);
    if calls == 0 {
      assert [] + Pending(w) == Pending(w);
    } else {
      var first := Receive(w);
      ReceiveAccounts(w);
      ReceiveLedger(first.wire, calls - 1);
      assert r.outcomes[1..] == ReceiveMany(first.wire, calls - 1).outcomes;
      ConcatAssoc(Bytes(first.outcome), Ledger(r.outcomes[1..]), Pending(r.wire));
    }
  }

  /** While the stream starts with an encoded frame, a call returns that frame or is stopped by a failing read and keeps every byte. */
  lemma ReceiveNext(w: Wire, f: Frame, rest: seq<byte>)
    requires |w.buf| <= RBUF_SIZE && Valid(f) && Pending(w) == Encode(f) + rest
    ensures var r := Receive(w);
      || (r.outcome == Delivered(f) && Pending(r.wire) == rest && Breaks(r.wire.script) == Breaks(w.script))
      || (r.outcome == Stopped && Pending(r.wire) == Pending(w) && Breaks(r.wire.script) < Breaks(w.script))
  {
    hide Receive, Encode, Decode, Valid;
    var r := Receive(w);
    ReceiveAccounts(w);
    DecodeOfEncode(f, rest);
    match r.outcome {
      case Delivered(g) =>
        DecodeOfEncode(g, Pending(r.wire));
        DropPrefix(Encode(f), rest);
        DropPrefix(Encode(g), Pending(r.wire));
      case Dropped(_) =>
        assert false;
      case Stopped =>
        assert [] + Pending(r.wire) == Pending(r.wire);
        assert r.wire.buf + [] == r.wire.buf;
    }
  }

  /** With nothing pending a call can only be stopped. */
  lemma ReceiveNothing(w: Wire)
    requires |w.buf| <= RBUF_SIZE && Pending(w) == []
    ensures Receive(w).outcome == Stopped && Pending(Receive(w).wire) == []
    ensures Breaks(Receive(w).wire.script) <= Breaks(w.script)
  {
    hide Receive, Decode, Valid;
    ReceiveAccounts(w);
  }

  /** The outcomes deliver the leading frames of fs, leave the bytes of the others pending, and miss at most breaks calls. */
  predicate InOrder(fs: seq<Frame>, os: seq<Outcome>, pending: seq<byte>, breaks: nat) {
    && (forall i :: 0 <= i < |os| ==> !os[i].Dropped?)
    && Frames(os) <= fs
    && pending == EncodeAll(fs[|Frames(os)|..])
    && (|Frames(os)| == |fs| || |Frames(os)| + breaks >= |os|)
  }

  lemma NoCalls(fs: seq<Frame>, breaks: nat)
    ensures InOrder(fs, [], EncodeAll(fs), breaks)
  {
    hide EncodeAll;
    assert fs[0..] == fs;
  }

  lemma FramesCons(o: Outcome, os: seq<Outcome>)
    ensures Frames([o] + os) == (if o.Delivered? then [o.frame] else []) + Frames(os)
  {
    assert ([o] + os)[1..] == os;
  }

  lemma InOrderDelivered(fs: seq<Frame>, os: seq<Outcome>, pending: seq<byte>, breaks: nat)
    requires fs != [] && InOrder(fs[1..], os, pending, breaks)
    ensures InOrder(fs, [Delivered(fs[0])] + os, pending, breaks)
  {
    FramesCons(Delivered(fs[0]), os);
    DropDrop(fs, 1, |Frames(os)|);
    hide Frames, EncodeAll;
    assert fs == [fs[0]] + fs[1..];
  }

  lemma InOrderStopped(fs: seq<Frame>, os: seq<Outcome>, pending: seq<byte>, breaks: nat)
    requires InOrder(fs, os, pending, breaks)
    ensures InOrder(fs, [Stopped] + os, pending, breaks + 1)
    ensures fs == [] ==> InOrder(fs, [Stopped] + os, pending, breaks)
  {
    FramesCons(Stopped, os);
    hide Frames, EncodeAll;
  }

  lemma InOrderWeaken(fs: seq<Frame>, os: seq<Outcome>, pending: seq<byte>, breaks: nat, more: nat)
    requires InOrder(fs, os, pending, breaks) && (breaks <= more || fs == [])
    ensures InOrder(fs, os, pending, more)
  {
    hide Frames, EncodeAll;
  }

  /**
    FIFO delivery under any fragmentation and any failing reads: calls deliver exactly
    the frames of the stream, in order, never a corruption error; each failing read
    costs at most one call, and the undelivered frames stay pending.
   */
  lemma {:induction false} Fifo(w: Wire, fs: seq<Frame>, calls: nat)
    requires |w.buf| <= RBUF_SIZE && AllValid(fs) && Pending(w) == EncodeAll(fs)
    ensures var r := ReceiveMany(w, calls); InOrder(fs, r.outcomes, Pending(r.wire), Breaks(w.script))
    decreases calls
  {
    hide Receive, Encode, Decode, Valid, Pending, Breaks, Frames, InOrder;
    if calls == 0 {
      NoCalls(fs, Breaks(w.script));
    } else {
      var first := Receive(w);
      ReceiveAccounts(w);
      var more := ReceiveMany(first.wire, calls - 1);
      if fs == [] {
        ReceiveNothing(w);
        Fifo(first.wire, [], calls - 1);
        InOrderWeaken([], more.outcomes, Pending(more.wire), Breaks(first.wire.script), Breaks(w.script));
        InOrderStopped([], more.outcomes, Pending(more.wire), Breaks(w.script));
      } else {
        ReceiveNext(w, fs[0], EncodeAll(fs[1..]));
        if first.outcome.Delivered? {
          Fifo(first.wire, fs[1..], calls - 1);
          InOrderDelivered(fs, more.outcomes, Pending(more.wire), Breaks(w.script));
        } else {
          Fifo(first.wire, fs, calls - 1);
          InOrderStopped(fs, more.outcomes, Pending(more.wire), Breaks(first.wire.script));
          InOrderWeaken(fs, [Stopped] + more.outcomes, Pending(more.wire), Breaks(first.wire.script) + 1, Breaks(w.script));
        }
      }
    }
  }

  /** A call that delivers a frame, or drops corrupt bytes, or is stopped, in terms of the reference decoder. */
  lemma ReceiveParses(w: Wire)
    requires |w.buf| <= RBUF_SIZE
    ensures var r := Receive(w); var p, q := Parse(Pending(w)), Parse(Pending(r.wire));
      match r.outcome
      case Delivered(f) => p == Parsed([f] + q.frames, q.rest)
      case Dropped(_) => p == Parsed([], Pending(w)) && Decode(p.rest).Corrupt?
      case Stopped => p == q && (Breaks(r.wire.script) < Breaks(w.script) || Decode(p.rest).Incomplete?)
  {
    hide Receive, Encode, Decode, Valid;
    ReceiveAccounts(w);
    var r := Receive(w);
    var rest := Pending(r.wire);
    match r.outcome {
      case Delivered(f) =>
        DecodeOfEncode(f, rest);
        DropPrefix(Encode(f), rest);
      case Dropped(_) =>
      case Stopped =>
        assert [] + rest == rest;
        assert r.wire.buf + [] == r.wire.buf;
    }
  }

  /**
    Corruption is judged by the stream: whatever the chunking and the failing reads,
    the frames delivered before anything is dropped are those the reference decoder
    finds in the stream, all of them if something is dropped, and something is
    dropped only where the reference decoder finds a corrupt header.
   */
  lemma {:induction false} CorruptionIsInTheStream(w: Wire, calls: nat, i: nat)
    requires |w.buf| <= RBUF_SIZE && i <= calls
    requires forall j :: 0 <= j < i ==> !ReceiveMany(w, calls).outcomes[j].Dropped?
    ensures var os := ReceiveMany(w, calls).outcomes; var p := Parse(Pending(w));
      && Frames(os[..i]) <= p.frames
      && (i < calls && os[i].Dropped? ==> Frames(os[..i]) == p.frames && Decode(p.rest).Corrupt? && os[i].bytes <= p.rest)
    decreases calls
  {
    hide Receive, Encode, Decode, Valid, Pending, Parse;
    var os := ReceiveMany(w, calls).outcomes;
    if calls > 0 {
      var first := Receive(w);
      ReceiveAccounts(w);
      ReceiveParses(w);
      var more := ReceiveMany(first.wire, calls - 1).outcomes;
      assert os == [first.outcome] + more;
      hide ReceiveMany;
      if i == 0 {
        assert os[..0] == [];
      } else {
        assert forall j :: 0 <= j < i - 1 ==> more[j] == os[j + 1];
        CorruptionIsInTheStream(first.wire, calls - 1, i - 1);
        assert os[..i] == [first.outcome] + more[..i - 1];
        FramesCons(first.outcome, more[..i - 1]);
        hide Frames;
      }
    }
  }

  /** Some call dropped what it had. */
  predicate Reports(os: seq<Outcome>) {
    exists j :: 0 <= j < |os| && os[j].Dropped?
  }

  lemma ReportsCons(o: Outcome, os: seq<Outcome>)
    ensures Reports([o] + os) <==> o.Dropped? || Reports(os)
  {
    var all := [o] + os;
    assert all[0] == o && forall j :: 0 <= j < |os| ==> all[j + 1] == os[j];
    if Reports(all) && !o.Dropped? {
      var j :| 0 <= j < |all| && all[j].Dropped?;
      assert os[j - 1] == all[j];
    }
  }

  /**
    Corruption is reported: something is dropped only if the reference decoder stops at
    a corrupt header, and always if so, once there were more calls than frames before
    that header and failing reads.
   */
  lemma {:induction false} CorruptionIsReported(w: Wire, calls: nat)
    requires |w.buf| <= RBUF_SIZE
    ensures var p := Parse(Pending(w)); var reported := Reports(ReceiveMany(w, calls).outcomes);
      && (reported ==> Decode(p.rest).Corrupt?)
      && (calls > |p.frames| + Breaks(w.script) ==> (reported <==> Decode(p.rest).Corrupt?))
    decreases calls
  {
    hide Receive, Encode, Decode, Valid, Pending, Parse;
    if calls > 0 {
      var first := Receive(w);
      ReceiveAccounts(w);
      ReceiveParses(w);
      CorruptionIsReported(first.wire, calls - 1);
      var os, more := ReceiveMany(w, calls).outcomes, ReceiveMany(first.wire, calls - 1).outcomes;
      assert os == [first.outcome] + more;
      hide ReceiveMany;
      ReportsCons(first.outcome, more);
    }
  }

  // ---- Sending ----

  datatype WriteEvent = Accept(room: nat) | WriteInterrupted | WriteFailed

  datatype Written = Written(ok: bool, count: nat, script: seq<WriteEvent>)

  /** full_write: data is written in as many pieces as the socket accepts; Accept(0) is a write that returns 0. */
  function WriteAll(size: nat, script: seq<WriteEvent>): (r: Written)
    ensures r.count <= size && (r.ok <==> r.count == size)
    decreases |script|
  {
    if size == 0 then Written(true, 0, script)
    else if script == [] then Written(false, 0, script)
    else match script[0]
      case WriteInterrupted => WriteAll(size, script[1..])
      case WriteFailed => Written(false, 0, script[1..])
      case Accept(room) =>
        if room == 0 then Written(false, 0, script[1..])
        else
          var n := Min(room, size);
          var r := WriteAll(size - n, script[1..]);
          r.(count := r.count + n)
  }

  /** The bytes a socket accepts before its first failure or refusal. */
  function Room(script: seq<WriteEvent>): nat {
    if script == [] then 0
    else match script[0]
      case WriteInterrupted => Room(script[1..])
      case WriteFailed => 0
      case Accept(room) => if room == 0 then 0 else room + Room(script[1..])
  }

  /** Interruptions and short writes never matter: what is written is what fits before the first failure. */
  lemma {:induction false} WriteAllFills(size: nat, script: seq<WriteEvent>)
    ensures WriteAll(size, script).count == Min(size, Room(script))
    ensures WriteAll(size, script).ok <==> size <= Room(script)
    decreases |script|
  {
    if size > 0 && script != [] {
      match script[0] {
        case WriteInterrupted => WriteAllFills(size, script[1..]);
        case WriteFailed =>
        case Accept(room) =>
          if room > 0 {
            WriteAllFills(size - Min(room, size), script[1..]);
          }
      }
    }
  }

  /** Write results are taken one by one, and none after everything is written. */
  lemma {:induction false} WriteAllTakes(size: nat, script: seq<WriteEvent>)
    ensures var rest := WriteAll(size, script).script; var k := |script| - |rest|;
      && k >= 0 && rest == script[k..]
      && forall j :: 0 <= j < k ==> Room(script[..j]) < size
    decreases |script|
  {
    if size > 0 && script != [] {
      var rest := WriteAll(size, script).script;
      var k := |script| - |rest|;
      var n := match script[0] case Accept(room) => Min(room, size) case _ => 0;
      var goesOn := script[0].WriteInterrupted? || n > 0;
      if goesOn {
        WriteAllTakes(size - n, script[1..]);
      }
      forall j | 0 <= j < k ensures Room(script[..j]) < size {
        if j > 0 {
          assert script[..j][1..] == script[1..][..j - 1];
        }
      }
    }
  }

  /** No write fails or is refused: only interruptions and writes of any size from one byte up. */
  predicate Steady(script: seq<WriteEvent>) {
    forall i :: 0 <= i < |script| ==> script[i].WriteInterrupted? || (script[i].Accept? && script[i].room > 0)
  }

  /** The number of writes a script accepts. */
  function Accepts(script: seq<WriteEvent>): nat {
    if script == [] then 0 else (if script[0].Accept? then 1 else 0) + Accepts(script[1..])
  }

  /** A steady socket takes everything within as many writes as there are bytes. */
  lemma {:induction false} WriteAllSteady(size: nat, script: seq<WriteEvent>)
    requires Steady(script) && Accepts(script) >= size
    ensures var w := WriteAll(size, script);
      w.ok && Steady(w.script) && Accepts(w.script) + size >= Accepts(script)
    decreases |script|
  {
    if size > 0 {
      match script[0] {
        case WriteInterrupted => WriteAllSteady(size, script[1..]);
        case Accept(room) => WriteAllSteady(size - Min(room, size), script[1..]);
      }
    }
  }

  /** The sending end: results still to come, and every byte handed to the network. */
  datatype Outlet = Outlet(script: seq<WriteEvent>, sent: seq<byte>)

  datatype Sent = Sent(ok: bool, count: nat, outlet: Outlet)

  /** One call of lucp_net_send: count bytes of the encoding were handed over, all of them on success. */
  function Send(o: Outlet, f: Frame): (r: Sent)
    ensures r.count <= |Encode(f)| && r.outlet.sent == o.sent + Encode(f)[..r.count]
    ensures r.ok ==> Packable(f) && r.count == |Encode(f)|
    ensures !r.ok ==> r.count < |Encode(f)|
  {
    if !Packable(f) then
      assert o.sent + Encode(f)[..0] == o.sent;
      Sent(false, 0, o)
    else
      var r := WriteAll(|Encode(f)|, o.script);
      Sent(r.ok, r.count, Outlet(r.script, o.sent + Encode(f)[..r.count]))
  }

  /** A send succeeds exactly for a packable frame that fits before the first failure, and hands over what fits of it. */
  lemma SendSucceedsIff(o: Outlet, f: Frame)
    ensures Send(o, f).ok <==> Packable(f) && |Encode(f)| <= Room(o.script)
    ensures Send(o, f).count == if Packable(f) then Min(|Encode(f)|, Room(o.script)) else 0
    ensures !Packable(f) ==> Send(o, f).outlet == o
  {
    hide Encode, Room;
    WriteAllFills(|Encode(f)|, o.script);
    assert o.sent + Encode(f)[..0] == o.sent;
  }

  datatype AllSent = AllSent(ok: bool, outlet: Outlet)

  /** Successive sends, reporting whether all of them succeeded. */
  function SendMany(o: Outlet, fs: seq<Frame>): AllSent
    decreases |fs|
  {
    if fs == [] then AllSent(true, o)
    else
      var r := Send(o, fs[0]);
      var more := SendMany(r.outlet, fs[1..]);
      AllSent(r.ok && more.ok, more.outlet)
  }

  /** Successful sends put exactly the encodings on the wire, however the writes were split. */
  lemma {:induction false} SendManyBytes(o: Outlet, fs: seq<Frame>)
    requires SendMany(o, fs).ok
    ensures SendMany(o, fs).outlet.sent == o.sent + EncodeAll(fs)
    decreases |fs|
  {
    hide Encode, Packable;
    if fs == [] {
      assert o.sent + [] == o.sent;
    } else {
      var r := Send(o, fs[0]);
      assert Encode(fs[0])[..|Encode(fs[0])|] == Encode(fs[0]);
      SendManyBytes(r.outlet, fs[1..]);
      ConcatAssoc(o.sent, Encode(fs[0]), EncodeAll(fs[1..]));
    }
  }

  lemma {:induction false} SendManyAppend(o: Outlet, fs: seq<Frame>, f: Frame)
    ensures SendMany(o, fs + [f]).outlet == Send(SendMany(o, fs).outlet, f).outlet
    decreases |fs|
  {
    hide Send;
    if fs == [] {
      assert [f][1..] == [];
    } else {
      SendManyAppend(Send(o, fs[0]).outlet, fs[1..], f);
      assert (fs + [f])[1..] == fs[1..] + [f];
    }
  }

  /** Successive sends all succeed exactly if each frame is packable and fits what the sends before it left. */
  lemma {:induction false} SendManySucceedsIff(o: Outlet, fs: seq<Frame>)
    ensures SendMany(o, fs).ok <==>
      forall i :: 0 <= i < |fs| ==> Packable(fs[i]) && |Encode(fs[i])| <= Room(SendMany(o, fs[..i]).outlet.script)
    decreases |fs|
  {
    hide Encode, Packable, Room, Send;
    if fs != [] {
      var r, gs := Send(o, fs[0]), fs[1..];
      SendSucceedsIff(o, fs[0]);
      SendManySucceedsIff(r.outlet, gs);
      assert fs[..0] == [];
      forall i | 0 <= i < |gs| ensures fs[i + 1] == gs[i] && SendMany(o, fs[..i + 1]).outlet == SendMany(r.outlet, gs[..i]).outlet {
        assert fs[..i + 1][1..] == gs[..i];
      }
      assert forall i :: 0 < i < |fs| ==> fs[i] == gs[i - 1] && SendMany(o, fs[..i]).outlet == SendMany(r.outlet, gs[..i - 1]).outlet;
    }
  }

  /** On a steady socket with a write to spare for every byte all sends succeed. */
  lemma {:induction false} SteadySends(o: Outlet, fs: seq<Frame>)
    requires AllValid(fs) && Steady(o.script) && Accepts(o.script) >= |EncodeAll(fs)|
    ensures SendMany(o, fs).ok && Steady(SendMany(o, fs).outlet.script)
    decreases |fs|
  {
    hide Encode, Steady, Accepts;
    if fs != [] {
      WriteAllSteady(|Encode(fs[0])|, o.script);
      SteadySends(Send(o, fs[0]).outlet, fs[1..]);
    }
  }

  lemma NoFrames(fs: seq<Frame>)
    ensures EncodeAll(fs[|fs|..]) == []
  {
  }

  lemma {:induction false} FramesFill(os: seq<Outcome>)
    ensures |Frames(os)| <= |os|
    ensures |Frames(os)| == |os| ==> forall i :: 0 <= i < |os| ==> os[i] == Delivered(Frames(os)[i])
  {
    if os != [] {
      FramesFill(os[1..]);
      if |Frames(os)| == |os| {
        forall i | 0 <= i < |os| ensures os[i] == Delivered(Frames(os)[i]) {
          if i > 0 {
            assert os[i] == os[1..][i - 1];
          }
        }
      }
    }
  }

  /** How many bytes of each frame successive sends hand over. */
  function Counts(o: Outlet, fs: seq<Frame>): (cs: seq<nat>)
    ensures |cs| == |fs| && forall i :: 0 <= i < |fs| ==> cs[i] <= |Encode(fs[i])|
    decreases |fs|
  {
    if fs == [] then []
    else
      var r := Send(o, fs[0]);
      [r.count] + Counts(r.outlet, fs[1..])
  }

  /** The leading parts of the given lengths, one of each frame. */
  function Parts(fs: seq<Frame>, cs: seq<nat>): seq<byte>
    requires |cs| == |fs| && forall i :: 0 <= i < |fs| ==> cs[i] <= |Encode(fs[i])|
  {
    if fs == [] then [] else Encode(fs[0])[..cs[0]] + Parts(fs[1..], cs[1..])
  }

  /** Sends that fail partway leave a leading part of their frame, and only those leave less than all of it. */
  lemma {:induction false} SendManyParts(o: Outlet, fs: seq<Frame>)
    ensures SendMany(o, fs).outlet.sent == o.sent + Parts(fs, Counts(o, fs))
    ensures SendMany(o, fs).ok <==> forall i :: 0 <= i < |fs| ==> Counts(o, fs)[i] == |Encode(fs[i])|
    decreases |fs|
  {
    hide Encode, Packable;
    if fs == [] {
      assert o.sent + [] == o.sent;
    } else {
      var r := Send(o, fs[0]);
      var cs, more := Counts(o, fs), Counts(r.outlet, fs[1..]);
      SendManyParts(r.outlet, fs[1..]);
      assert cs[1..] == more;
      ConcatAssoc(o.sent, Encode(fs[0])[..r.count], Parts(fs[1..], more));
      hide Send, SendMany, Counts, Parts;
      assert forall i :: 0 < i < |fs| ==> cs[i] == more[i - 1] && fs[i] == fs[1..][i - 1];
      assert forall i :: 0 <= i < |fs| - 1 ==> more[i] == cs[i + 1] && fs[1..][i] == fs[i + 1];
    }
  }

  /**
    End to end: the frames of successful sends, however their writes were split or
    interrupted, are received exactly and in order by as many calls, however the
    reads split or merge the same bytes.
   */
  lemma EndToEnd(o: Outlet, fs: seq<Frame>, w: Wire)
    requires AllValid(fs) && SendMany(o, fs).ok && o.sent == []
    requires w.buf == [] && Arriving(w.script) == SendMany(o, fs).outlet.sent && Breaks(w.script) == 0
    ensures var r := ReceiveMany(w, |fs|);
      && r.outcomes == seq(|fs|, i requires 0 <= i < |fs| => Delivered(fs[i]))
      && Pending(r.wire) == []
  {
    hide Receive, Encode, Decode, Valid, ReceiveMany, Frames, EncodeAll, SendMany, Breaks, Arriving;
    SendManyBytes(o, fs);
    assert [] + EncodeAll(fs) == EncodeAll(fs);
    Fifo(w, fs, |fs|);
    FramesFill(ReceiveMany(w, |fs|).outcomes);
    NoFrames(fs);
  }
  /** End to end from a steady socket: valid frames arrive exactly and in order, with nothing assumed of the sends. */
  lemma SteadyEndToEnd(o: Outlet, fs: seq<Frame>, w: Wire)
    requires AllValid(fs) && o.sent == [] && Steady(o.script) && Accepts(o.script) >= |EncodeAll(fs)|
    requires w.buf == [] && Arriving(w.script) == SendMany(o, fs).outlet.sent && Breaks(w.script) == 0
    ensures ReceiveMany(w, |fs|).outcomes == seq(|fs|, i requires 0 <= i < |fs| => Delivered(fs[i]))
  {
    hide *;
    SteadySends(o, fs);
    EndToEnd(o, fs, w);
  }
}
