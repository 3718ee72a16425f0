/** Sending a request until it is answered (lucplib/lucp.c, lines 359-420), on values. */
module Retries {
  import opened ByteOrder
  import opened Codec
  import opened Stream
  import opened Transport

  /** The result of waiting for the socket: on EINTR the call goes on as if it had returned. */
  datatype SelectResult = TimedOut | SelectError | Returned(isSet: bool)

  predicate Readable(rv: SelectResult) {
    rv.Returned? && rv.isSet
  }

  /** Whether g is the reply a request waits for. */
  predicate Answers(g: Frame, request: Frame, expectCmd: byte) {
    g.msgType == expectCmd && g.seqNum == request.seqNum
  }

  predicate Answered(o: Outcome, request: Frame, expectCmd: byte) {
    o.Delivered? && Answers(o.frame, request, expectCmd)
  }

  /** One attempt: whether its send succeeded, and what was received, if it came to that. */
  datatype Attempted = Attempted(sent: bool, outcomes: seq<Outcome>, wire: Wire, outlet: Outlet)

  function Attempt(w: Wire, o: Outlet, f: Frame, rv: SelectResult): (r: Attempted)
    requires |w.buf| <= RBUF_SIZE
    ensures |r.wire.buf| <= RBUF_SIZE && |r.outcomes| <= 1
  {
    var s := Send(o, f);
    if s.ok && Readable(rv) then
      var r := Receive(w);
      ReceiveAccounts(w);
      Attempted(s.ok, [r.outcome], r.wire, s.outlet)
    else Attempted(s.ok, [], w, s.outlet)
  }

  datatype Retried = Retried(ok: bool, attempts: nat, outcomes: seq<Outcome>, wire: Wire, outlet: Outlet)

  /** At most n attempts, the i-th first: they end with the first answer. */
  function Retry(w: Wire, o: Outlet, f: Frame, expectCmd: byte, n: nat, select: nat -> SelectResult, i: nat): (r: Retried)
    requires |w.buf| <= RBUF_SIZE
    ensures |r.wire.buf| <= RBUF_SIZE
    decreases n
  {
    if n == 0 then Retried(false, 0, [], w, o)
    else
      var t := Attempt(w, o, f, select(i));
      if t.outcomes != [] && Answered(t.outcomes[0], f, expectCmd) then Retried(true, 1, t.outcomes, t.wire, t.outlet)
      else
        var r := Retry(t.wire, t.outlet, f, expectCmd, n - 1, select, i + 1);
        r.(attempts := r.attempts + 1, outcomes := t.outcomes + r.outcomes)
  }

  lemma RetryUnfolds(w: Wire, o: Outlet, f: Frame, expectCmd: byte, n: nat, select: nat -> SelectResult, i: nat)
    returns (t: Attempted, more: Retried)
    requires |w.buf| <= RBUF_SIZE && n > 0
    ensures t == Attempt(w, o, f, select(i)) && more == Retry(t.wire, t.outlet, f, expectCmd, n - 1, select, i + 1)
    ensures var r := Retry(w, o, f, expectCmd, n, select, i);
      if t.outcomes != [] && Answered(t.outcomes[0], f, expectCmd)
      then r == Retried(true, 1, t.outcomes, t.wire, t.outlet)
      else r == Retried(more.ok, more.attempts + 1, t.outcomes + more.outcomes, more.wire, more.outlet)
  {
    hide Attempt;
    t := Attempt(w, o, f, select(i));
    more := Retry(t.wire, t.outlet, f, expectCmd, n - 1, select, i + 1);
  }

  lemma NoAttempt(w: Wire, o: Outlet, f: Frame, expectCmd: byte, select: nat -> SelectResult, i: nat)
    requires |w.buf| <= RBUF_SIZE
    ensures Retry(w, o, f, expectCmd, 0, select, i) == Retried(false, 0, [], w, o)
  {
  }

  function Copies(f: Frame, n: nat): seq<Frame> {
    seq(n, i => f)
  }

  lemma CopiesCons(f: Frame, n: nat)
    ensures Copies(f, n + 1)[0] == f && Copies(f, n + 1)[1..] == Copies(f, n) && Copies(f, n + 1) == [f] + Copies(f, n)
  {
  }

  lemma SendManyCopies(o: Outlet, f: Frame, n: nat)
    ensures var first := Send(o, f); var more := SendMany(first.outlet, Copies(f, n));
      SendMany(o, Copies(f, n + 1)) == AllSent(first.ok && more.ok, more.outlet)
  {
    hide Send;
    CopiesCons(f, n);
  }

  /** The last of these outcomes delivered the reply, if there was one, and no other did. */
  predicate UpToAnswered(os: seq<Outcome>, answered: bool, f: Frame, expectCmd: byte) {
    && (answered ==> os != [] && Answered(os[|os| - 1], f, expectCmd))
    && forall j :: 0 <= j < |os| - (if answered then 1 else 0) ==> !Answered(os[j], f, expectCmd)
  }

  lemma NeverAnswered(f: Frame, expectCmd: byte)
    ensures UpToAnswered([], false, f, expectCmd)
  {
  }

  lemma AnsweredAtOnce(os: seq<Outcome>, f: Frame, expectCmd: byte)
    requires |os| == 1 && Answered(os[0], f, expectCmd)
    ensures UpToAnswered(os, true, f, expectCmd)
  {
  }

  lemma AnsweredLater(first: seq<Outcome>, os: seq<Outcome>, answered: bool, f: Frame, expectCmd: byte)
    requires |first| <= 1 && !(first != [] && Answered(first[0], f, expectCmd)) && UpToAnswered(os, answered, f, expectCmd)
    ensures UpToAnswered(first + os, answered, f, expectCmd)
  {
    hide Answered;
  }

  /**
    Success is the first answer among the frames received, and every attempt before it
    came to nothing; failure means that all attempts were made and none was answered.
   */
  lemma {:induction false} RetryStopsAtAnswer(w: Wire, o: Outlet, f: Frame, expectCmd: byte, n: nat, select: nat -> SelectResult, i: nat)
    requires |w.buf| <= RBUF_SIZE
    ensures var r := Retry(w, o, f, expectCmd, n, select, i);
      && |r.outcomes| <= r.attempts
      && (if r.ok then 1 <= r.attempts <= n else r.attempts == n)
      && UpToAnswered(r.outcomes, r.ok, f, expectCmd)
    decreases n
  {
    NoAttempt(w, o, f, expectCmd, select, i);
    NeverAnswered(f, expectCmd);
    if n > 0 {
      var t, more := RetryUnfolds(w, o, f, expectCmd, n, select, i);
      hide Attempt, Answered, Retry, UpToAnswered;
      if t.outcomes != [] && Answered(t.outcomes[0], f, expectCmd) {
        AnsweredAtOnce(t.outcomes, f, expectCmd);
      } else {
        RetryStopsAtAnswer(t.wire, t.outlet, f, expectCmd, n - 1, select, i + 1);
        AnsweredLater(t.outcomes, more.outcomes, more.ok, f, expectCmd);
      }
    }
  }

  lemma AttemptReceives(w: Wire, o: Outlet, f: Frame, rv: SelectResult)
    requires |w.buf| <= RBUF_SIZE
    ensures var t := Attempt(w, o, f, rv);
      if t.outcomes == [] then t.wire == w else t.outcomes == [Receive(w).outcome] && t.wire == Receive(w).wire
  {
    hide Receive, Send;
  }

  /** The attempts receive like so many calls in a row: no frame is skipped between them. */
  lemma {:induction false} RetryReceives(w: Wire, o: Outlet, f: Frame, expectCmd: byte, n: nat, select: nat -> SelectResult, i: nat)
    requires |w.buf| <= RBUF_SIZE
    ensures var r := Retry(w, o, f, expectCmd, n, select, i);
      ReceiveMany(w, |r.outcomes|) == AllReceived(r.outcomes, r.wire)
    decreases n
  {
    NoAttempt(w, o, f, expectCmd, select, i);
    ReceiveNone(w);
    if n > 0 {
      var t, more := RetryUnfolds(w, o, f, expectCmd, n, select, i);
      AttemptReceives(w, o, f, select(i));
      hide Attempt, Answered, Retry, Receive, ReceiveMany;
      if t.outcomes != [] && Answered(t.outcomes[0], f, expectCmd) {
        ReceiveNone(t.wire);
        ReceiveCons(w, 0);
        assert t.outcomes + [] == t.outcomes;
      } else {
        RetryReceives(t.wire, t.outlet, f, expectCmd, n - 1, select, i + 1);
        if t.outcomes == [] {
          assert [] + more.outcomes == more.outcomes;
        } else {
          ReceiveCons(w, |more.outcomes|);
        }
      }
    }
  }

  /** The attempts whose send went out whole and whose wait, the i-th first, found the socket readable. */
  function Hearings(f: Frame, counts: seq<nat>, select: nat -> SelectResult, i: nat): nat {
    if counts == [] then 0
    else (if counts[0] == |Encode(f)| && select(i) == Returned(true) then 1 else 0) + Hearings(f, counts[1..], select, i + 1)
  }

  lemma AttemptHears(w: Wire, o: Outlet, f: Frame, rv: SelectResult)
    requires |w.buf| <= RBUF_SIZE
    ensures var t := Attempt(w, o, f, rv);
      && t.outlet == Send(o, f).outlet
      && |t.outcomes| == if Send(o, f).count == |Encode(f)| && rv == Returned(true) then 1 else 0
  {
    hide Receive, Encode, Packable;
  }

  /** Hearings over the first n attempts from the i-th on, sent from o. */
  function HearingsOf(o: Outlet, f: Frame, n: nat, select: nat -> SelectResult, i: nat): nat {
    Hearings(f, Counts(o, Copies(f, n)), select, i)
  }

  lemma HearingsCons(o: Outlet, f: Frame, n: nat, select: nat -> SelectResult, i: nat)
    ensures HearingsOf(o, f, 0, select, i) == 0
    ensures HearingsOf(o, f, n + 1, select, i) ==
      (if Send(o, f).count == |Encode(f)| && select(i) == Returned(true) then 1 else 0)
      + HearingsOf(Send(o, f).outlet, f, n, select, i + 1)
  {
    hide Send, Encode;
    CopiesCons(f, n);
  }

  /** A frame is waited for in exactly those attempts: one receive call each, and none after a failed send or a wait without result. */
  lemma {:induction false} RetryReceivesWhenReadable(w: Wire, o: Outlet, f: Frame, expectCmd: byte, n: nat, select: nat -> SelectResult, i: nat)
    requires |w.buf| <= RBUF_SIZE
    ensures var r := Retry(w, o, f, expectCmd, n, select, i);
      |r.outcomes| == HearingsOf(o, f, r.attempts, select, i)
    decreases n
  {
    NoAttempt(w, o, f, expectCmd, select, i);
    HearingsCons(o, f, 0, select, i);
    if n > 0 {
      var t, more := RetryUnfolds(w, o, f, expectCmd, n, select, i);
      AttemptHears(w, o, f, select(i));
      HearingsCons(Send(o, f).outlet, f, 0, select, i + 1);
      HearingsCons(o, f, more.attempts, select, i);
      hide Attempt, Answered, Retry, Send, HearingsOf;
      if !(t.outcomes != [] && Answered(t.outcomes[0], f, expectCmd)) {
        RetryReceivesWhenReadable(t.wire, t.outlet, f, expectCmd, n - 1, select, i + 1);
      }
    }
  }

  /** While no wait finds the socket readable, nothing is received: the call fails and leaves the inbound stream alone. */
  lemma {:induction false} UnreadableReceivesNothing(w: Wire, o: Outlet, f: Frame, expectCmd: byte, n: nat, select: nat -> SelectResult, i: nat)
    requires |w.buf| <= RBUF_SIZE && forall j :: j >= i ==> select(j) != Returned(true)
    ensures var r := Retry(w, o, f, expectCmd, n, select, i); !r.ok && r.outcomes == [] && r.wire == w
    decreases n
  {
    hide Receive, Send;
    if n > 0 {
      UnreadableReceivesNothing(w, Attempt(w, o, f, select(i)).outlet, f, expectCmd, n - 1, select, i + 1);
    }
  }

  /** The attempts send like so many sends of the request in a row. */
  lemma {:induction false} RetrySends(w: Wire, o: Outlet, f: Frame, expectCmd: byte, n: nat, select: nat -> SelectResult, i: nat)
    requires |w.buf| <= RBUF_SIZE
    ensures var r := Retry(w, o, f, expectCmd, n, select, i); r.outlet == SendMany(o, Copies(f, r.attempts)).outlet
    decreases n
  {
    hide Receive, Encode, Decode, Valid, Answered, Send;
    if n > 0 {
      var t := Attempt(w, o, f, select(i));
      if t.outcomes != [] && Answered(t.outcomes[0], f, expectCmd) {
        SendManyCopies(o, f, 0);
      } else {
        RetrySends(t.wire, t.outlet, f, expectCmd, n - 1, select, i + 1);
        SendManyCopies(o, f, Retry(t.wire, t.outlet, f, expectCmd, n - 1, select, i + 1).attempts);
      }
    }
  }

  /**
    A retried request puts a leading part of its encoding on the wire per attempt, all of
    it exactly when that send succeeds; so when all do, between one and n whole copies,
    and n if it is never answered.
   */
  lemma RetryCopies(w: Wire, o: Outlet, f: Frame, expectCmd: byte, n: nat, select: nat -> SelectResult)
    requires |w.buf| <= RBUF_SIZE && n > 0
    ensures var r := Retry(w, o, f, expectCmd, n, select, 0); var fs := Copies(f, r.attempts);
      && 1 <= r.attempts <= n && (!r.ok ==> r.attempts == n)
      && r.outlet.sent == o.sent + Parts(fs, Counts(o, fs))
      && (SendMany(o, fs).ok <==> forall j :: 0 <= j < r.attempts ==> Counts(o, fs)[j] == |Encode(f)|)
      && (SendMany(o, fs).ok ==> r.outlet.sent == o.sent + EncodeAll(fs))
  {
    hide Encode, Retry, SendMany, Counts, Parts;
    RetryStopsAtAnswer(w, o, f, expectCmd, n, select, 0);
    RetrySends(w, o, f, expectCmd, n, select, 0);
    var fs := Copies(f, Retry(w, o, f, expectCmd, n, select, 0).attempts);
    SendManyParts(o, fs);
    if SendMany(o, fs).ok {
      SendManyBytes(o, fs);
    }
  }

  /** The last of these frames is the reply, if there is one, and no other is. */
  predicate UpToAnswer(gs: seq<Frame>, answered: bool, f: Frame, expectCmd: byte) {
    && (answered ==> gs != [] && Answers(gs[|gs| - 1], f, expectCmd))
    && forall j :: 0 <= j < |gs| - (if answered then 1 else 0) ==> !Answers(gs[j], f, expectCmd)
  }

  lemma {:induction false} UnansweredFrames(os: seq<Outcome>, f: Frame, expectCmd: byte)
    requires forall j :: 0 <= j < |os| ==> !Answered(os[j], f, expectCmd)
    ensures UpToAnswer(Frames(os), false, f, expectCmd)
  {
    if os != [] {
      UnansweredFrames(os[1..], f, expectCmd);
    }
  }

  lemma AnsweredFrames(os: seq<Outcome>, answered: bool, f: Frame, expectCmd: byte)
    requires UpToAnswered(os, answered, f, expectCmd)
    ensures var gs := Frames(os);
      UpToAnswer(gs, answered, f, expectCmd) && (answered ==> os[|os| - 1] == Delivered(gs[|gs| - 1]))
  {
    if answered {
      var last := |os| - 1;
      UnansweredFrames(os[..last], f, expectCmd);
      assert os == os[..last] + [os[last]];
      FramesAppend(os[..last], os[last]);
    } else {
      UnansweredFrames(os, f, expectCmd);
    }
  }

  /**
    On an inbound stream of frames, success returns the first of them that answers, and
    exactly the frames up to it are consumed; failure has consumed only frames that do not.
   */
  lemma RetryReturnsFirstAnswer(w: Wire, o: Outlet, f: Frame, expectCmd: byte, n: nat, select: nat -> SelectResult, fs: seq<Frame>)
    requires |w.buf| <= RBUF_SIZE && AllValid(fs) && Pending(w) == EncodeAll(fs)
    ensures var r := Retry(w, o, f, expectCmd, n, select, 0); var gs := Frames(r.outcomes);
      && gs <= fs && Pending(r.wire) == EncodeAll(fs[|gs|..])
      && UpToAnswer(gs, r.ok, f, expectCmd)
      && (r.ok ==> r.outcomes[|r.outcomes| - 1] == Delivered(gs[|gs| - 1]))
  {
    var r := Retry(w, o, f, expectCmd, n, select, 0);
    hide Encode, Retry, ReceiveMany, EncodeAll, Pending, AllValid, Frames, Answered, Answers, UpToAnswered, Breaks;
    RetryStopsAtAnswer(w, o, f, expectCmd, n, select, 0);
    RetryReceives(w, o, f, expectCmd, n, select, 0);
    Fifo(w, fs, |r.outcomes|);
    AnsweredFrames(r.outcomes, r.ok, f, expectCmd);
  }

  /** The reply is among the first n frames. */
  predicate AnswerComes(fs: seq<Frame>, f: Frame, expectCmd: byte, n: nat) {
    exists j :: 0 <= j < |fs| && j < n && Answers(fs[j], f, expectCmd)
  }

  function Tail(fs: seq<Frame>): seq<Frame> {
    if fs == [] then fs else fs[1..]
  }

  lemma ComesNext(fs: seq<Frame>, f: Frame, expectCmd: byte, n: nat)
    ensures n == 0 ==> !AnswerComes(fs, f, expectCmd, n)
    ensures n > 0 ==>
      (AnswerComes(fs, f, expectCmd, n) <==> (fs != [] && Answers(fs[0], f, expectCmd)) || AnswerComes(Tail(fs), f, expectCmd, n - 1))
  {
    hide Answers;
    assert forall j :: 0 <= j < |fs| - 1 ==> fs[1..][j] == fs[j + 1];
    assert forall j :: 0 < j < |fs| ==> fs[j] == fs[1..][j - 1];
  }

  /** An undisturbed attempt takes the next frame, if there is one. */
  lemma AttemptTakesNext(w: Wire, o: Outlet, f: Frame, rv: SelectResult, fs: seq<Frame>)
    requires |w.buf| <= RBUF_SIZE && AllValid(fs) && Pending(w) == EncodeAll(fs)
    requires Send(o, f).ok && Breaks(w.script) == 0 && Readable(rv)
    ensures var t := Attempt(w, o, f, rv);
      && t.outcomes == [if fs == [] then Stopped else Delivered(fs[0])] && t.outlet == Send(o, f).outlet
      && AllValid(Tail(fs)) && Pending(t.wire) == EncodeAll(Tail(fs)) && Breaks(t.wire.script) == 0
  {
    hide Receive, Encode, Decode, Valid, Pending, Send, Breaks;
    if fs == [] {
      ReceiveNothing(w);
    } else {
      ReceiveNext(w, fs[0], EncodeAll(fs[1..]));
    }
  }

  /**
    While sends succeed, waits end with the socket readable and no read fails, the
    request is answered exactly if one of the next n frames is the reply.
   */
  lemma {:induction false} RetrySucceedsIff(w: Wire, o: Outlet, f: Frame, expectCmd: byte, n: nat, select: nat -> SelectResult, i: nat, fs: seq<Frame>)
    requires |w.buf| <= RBUF_SIZE && AllValid(fs) && Pending(w) == EncodeAll(fs)
    requires SendMany(o, Copies(f, n)).ok && Breaks(w.script) == 0 && forall j :: j >= i ==> Readable(select(j))
    ensures Retry(w, o, f, expectCmd, n, select, i).ok <==> AnswerComes(fs, f, expectCmd, n)
    decreases n
  {
    hide Receive, Encode, EncodeAll, AllValid, Decode, Attempt, Answers, Pending, Send, SendMany, Breaks, AnswerComes;
    ComesNext(fs, f, expectCmd, n);
    if n > 0 {
      SendManyCopies(o, f, n - 1);
      AttemptTakesNext(w, o, f, select(i), fs);
      var t := Attempt(w, o, f, select(i));
      if !(fs != [] && Answers(fs[0], f, expectCmd)) {
        RetrySucceedsIff(t.wire, t.outlet, f, expectCmd, n - 1, select, i + 1, Tail(fs));
      }
    }
  }
}
