/** Model of `v2/simulator/ssh-transfer.go` as an interleaving of concurrent clients, each on
  * its own connection to the reference server, and of the collector that receives their
  * responses from a buffered channel. */
module Transfer {
  import opened Wrappers
  import opened Marshal
  import opened Fxp
  import opened Framing
  import opened Protocol
  import Accounting
  import opened Server

  // ---------------------------------------------------------------------------
  // One client process and its connection.

  datatype Phase =
    | Dialing
    | Sending
    | Awaiting
    | Stopped(resp: WriteResponse)    // WriteRandom or newClient has returned
    | Delivered(resp: WriteResponse)  // the response has been sent on the channel
    | Panicking

  /** The exchanges a client has finished, as its own end of the connection saw them: how its
    * writes went, the bytes it sent, and the bytes it read. */
  datatype Past = Past(outcomes: seq<WriteOutcome>, sent: seq<byte>, got: seq<byte>)

  /** `st` is the protocol state of the last request; the two queues hold the bytes in flight. */
  datatype Proc = Proc(st: State, phase: Phase, toServer: seq<byte>, fromServer: seq<byte>, handles: Handles,
                       past: Past)

  const FRESH_PROC := Proc(Initing, Dialing, [], [], map[], Past([], [], []))

  /** A frame has arrived in full at the front of a queue. */
  predicate FrameReady(queue: seq<byte>) {
    ReadPacketSpec(Stream(queue, EOF)).err.None?
  }

  /** Move a process on to the state an exchange led to. */
  function Conclude(p: Proc, st: State): Proc {
    match st
    case Finished(resp) => p.(phase := Stopped(resp))
    case Crashed => p.(phase := Panicking)
    case _ => p.(st := st, phase := Sending)
  }

  predicate Runnable(job: Job, p: Proc) {
    Valid(job, p.st) && !p.st.Terminal()
  }

  function DialStep(job: Job, p: Proc, ok: bool): Proc {
    if ok then p.(phase := Sending)
    else p.(phase := Stopped(WriteResponse(job.name, 0, [], Some(ConnectFailed))))
  }

  function SendStep(job: Job, gen: Source, p: Proc, outcome: WriteOutcome): Proc
    requires Runnable(job, p)
  {
    var b := Encode(Request(job, gen, p.st));
    var (n, ok) := Accepted([outcome], |b|);
    var p' := p.(toServer := p.toServer + b[..n]);
    if ok then p'.(phase := Awaiting)
    else Conclude(p'.(past := Extend(p.past, outcome, b[..n], [])), Next(job, gen, p.st, Unsent(n)))
  }

  function Extend(past: Past, outcome: WriteOutcome, sent: seq<byte>, got: seq<byte>): Past {
    Past(past.outcomes + [outcome], past.sent + sent, past.got + got)
  }

  /** The bytes of the frame at the front of a queue. */
  function FrontFrame(queue: seq<byte>): seq<byte> {
    var n := |queue| - |ReadPacketSpec(Stream(queue, EOF)).rest.bytes|;
    if n >= 0 then queue[..n] else []
  }

  function ServeStep(p: Proc, store: Store, choice: Choice): (Proc, Store) {
    var r := ReadPacketSpec(Stream(p.toServer, EOF));
    var o := Serve(p.handles, store, r.bytes, choice);
    (p.(toServer := r.rest.bytes, fromServer := p.fromServer + Encode(o.reply), handles := o.handles), o.store)
  }

  function ReceiveStep(job: Job, gen: Source, p: Proc): Proc
    requires Runnable(job, p)
  {
    var r := ReadPacketSpec(Stream(p.fromServer, EOF));
    var req := Request(job, gen, p.st);
    var past := Extend(p.past, Accept, Encode(req), FrontFrame(p.fromServer));
    Conclude(p.(fromServer := r.rest.bytes, past := past),
             Next(job, gen, p.st, Answered(ParseResp(Expected(req), r.bytes))))
  }

  function BreakStep(job: Job, gen: Source, p: Proc): Proc
    requires Runnable(job, p)
  {
    var past := Extend(p.past, Accept, Encode(Request(job, gen, p.st)), []);
    Conclude(p.(past := past), Next(job, gen, p.st, Answered(Rejected(ReadFailed))))
  }

  // ---------------------------------------------------------------------------
  // The invariant of one process. `orig` is what its file held at the start, `cur` what it
  // holds now.

  /** The queue from the server holds exactly one frame, with the server's answer. */
  ghost predicate AnswerInFlight(job: Job, gen: Source, p: Proc, orig: Option<seq<byte>>, cur: Option<seq<byte>>)
    requires Runnable(job, p)
  {
    && p.toServer == []
    && exists q: Packet :: Answering(job, gen, p.st, p.handles, orig, cur, q) && p.fromServer == Encode(q)
  }

  /** Nothing is in flight, and the server has not yet seen, or has handled, the request. */
  ghost predicate Quiet(job: Job, gen: Source, p: Proc, orig: Option<seq<byte>>, cur: Option<seq<byte>>)
    requires Runnable(job, p)
  {
    && p.toServer == [] && p.fromServer == []
    && (AtServer(job, gen, p.st, p.handles, orig, cur)
        || exists q: Packet :: AfterServer(job, gen, p.st, p.handles, orig, cur, q))
  }

  /** The request, or as much of it as was written, is on its way. */
  predicate RequestInFlight(job: Job, gen: Source, p: Proc, orig: Option<seq<byte>>, cur: Option<seq<byte>>)
    requires Runnable(job, p)
  {
    && p.toServer <= Encode(Request(job, gen, p.st)) && p.fromServer == []
    && AtServer(job, gen, p.st, p.handles, orig, cur)
  }

  /** The client has a nil error: everything was acknowledged and the handle closed. */
  predicate Complete(job: Job, gen: Source, p: Proc, orig: Option<seq<byte>>, cur: Option<seq<byte>>) {
    p.toServer == [] && p.fromServer == [] && p.handles == map[] && cur == Written(gen, orig, job.toSend)
  }

  /** A client that has returned. After an error its connection may still carry one request or
    * one answer, which the server may yet handle. */
  ghost predicate Returned(job: Job, gen: Source, p: Proc, resp: WriteResponse,
                           orig: Option<seq<byte>>, cur: Option<seq<byte>>)
    requires Runnable(job, p)
  {
    && resp.clientName == job.name
    && if resp.err.None? then resp.bytesSent == job.toSend && Complete(job, gen, p, orig, cur)
       else
         || RequestInFlight(job, gen, p, orig, cur)
         || AnswerInFlight(job, gen, p, orig, cur)
         || Quiet(job, gen, p, orig, cur)
  }

  ghost predicate ProcInv(job: Job, gen: Source, p: Proc, orig: Option<seq<byte>>, cur: Option<seq<byte>>) {
    && Runnable(job, p)
    && match p.phase
       case Dialing => p == FRESH_PROC && cur == orig
       case Sending =>
         p.toServer == [] && p.fromServer == [] && AtServer(job, gen, p.st, p.handles, orig, cur)
       case Awaiting =>
         || (p.toServer == Encode(Request(job, gen, p.st)) && RequestInFlight(job, gen, p, orig, cur))
         || AnswerInFlight(job, gen, p, orig, cur)
       case Stopped(resp) => Returned(job, gen, p, resp, orig, cur)
       case Delivered(resp) => Returned(job, gen, p, resp, orig, cur)
       case Panicking => false
  }

  // ---------------------------------------------------------------------------
  // Each step of a process keeps its invariant.

  lemma DialKeeps(job: Job, gen: Source, p: Proc, ok: bool, orig: Option<seq<byte>>)
    requires ProcInv(job, gen, p, orig, orig) && p.phase.Dialing?
    ensures ProcInv(job, gen, DialStep(job, p, ok), orig, orig)
  {
  }

  lemma SendKeeps(job: Job, gen: Source, p: Proc, outcome: WriteOutcome,
                  orig: Option<seq<byte>>, cur: Option<seq<byte>>)
    requires ProcInv(job, gen, p, orig, cur) && p.phase.Sending?
    ensures ProcInv(job, gen, SendStep(job, gen, p, outcome), orig, cur)
  {
    hide Encode, Next, AtServer;
    var b := Encode(Request(job, gen, p.st));
    var (n, ok) := Accepted([outcome], |b|);
    assert [] + b[..n] == b[..n] && b[..|b|] == b;
    if !ok {
      FailureStops(job, gen, p.st, Unsent(n));
    }
  }

  /** A failed exchange ends the client with an error. */
  lemma FailureStops(job: Job, gen: Source, st: State, x: Exchange)
    requires Valid(job, st) && !st.Terminal() && !Good(Request(job, gen, st), x)
    requires x.Answered? ==> !x.reply.Panicked?
    ensures var st' := Next(job, gen, st, x);
            st'.Finished? && st'.resp.err.Some? && st'.resp.clientName == job.name
  {
  }

  lemma ServeKeeps(job: Job, gen: Source, p: Proc, store: Store, choice: Choice, orig: Option<seq<byte>>)
    requires ShortNames(job) && ProcInv(job, gen, p, orig, Lookup(store, job.file)) && FrameReady(p.toServer)
    ensures var (p', store') := ServeStep(p, store, choice);
            && ProcInv(job, gen, p', orig, Lookup(store', job.file)) && p'.phase == p.phase
            && !FrameReady(p'.toServer)
            && (forall f: seq<byte> :: f != job.file ==> Lookup(store', f) == Lookup(store, f))
  {
    hide Encode, Body, Fits, Serve, AtServer, Answering, AfterServer, ReadPacketSpec;
    var req := Request(job, gen, p.st);
    NothingReady();
    assert RequestInFlight(job, gen, p, orig, Lookup(store, job.file));
    HandleIsShort(job, gen, p.st, p.handles, orig, Lookup(store, job.file));
    RequestFits(job, gen, p.st);
    WholeRequest(req, p.toServer);
    ServeRequest(job, gen, p.st, p.handles, store, orig, choice);
    var (p', store') := ServeStep(p, store, choice);
    var o := Serve(p.handles, store, Body(req), choice);
    assert p'.fromServer == Encode(o.reply);
    assert AnswerInFlight(job, gen, p', orig, Lookup(store', job.file));
  }

  lemma HandleIsShort(job: Job, gen: Source, st: State, handles: Handles,
                      orig: Option<seq<byte>>, cur: Option<seq<byte>>)
    requires AtServer(job, gen, st, handles, orig, cur)
    ensures st.Writing? || st.Closing? ==> ShortHandle(st.handle)
  {
  }

  lemma NothingReady()
    ensures !FrameReady([])
  {
  }

  /** A queue that holds part of one request is ready only when it holds all of it. */
  lemma WholeRequest(req: Packet, queue: seq<byte>)
    requires Fits(req) && queue <= Encode(req) && FrameReady(queue)
    ensures queue == Encode(req)
    ensures ReadPacketSpec(Stream(queue, EOF)) == StreamRead(Body(req), None, Stream([], EOF))
  {
    hide Encode, Body, ReadPacketSpec;
    EncodeIsFrame(req);
    BodyLength(req);
    if |queue| < |Encode(req)| {
      assert queue == Frame(Body(req))[..|queue|];
      StrictPrefixFails(Body(req), |queue|, EOF);
    } else {
      FramingRoundTrip(req, [], EOF);
      assert Encode(req) + [] == Encode(req);
    }
  }

  lemma BodyLength(p: Packet)
    requires Fits(p)
    ensures |Body(p)| < TWO_32
  {
  }

  /** What the client makes of an answer from the server. */
  lemma ReceiveReads(job: Job, gen: Source, p: Proc, q: Packet, orig: Option<seq<byte>>, cur: Option<seq<byte>>)
    requires Runnable(job, p) && Answering(job, gen, p.st, p.handles, orig, cur, q)
    requires p.fromServer == Encode(q)
    ensures var req := Request(job, gen, p.st);
            var reply := if IsRefusal(q) && Expected(req) != TYPE_CODE_STATUS then Rejected(ServerError) else Got(q);
            var past := Extend(p.past, Accept, Encode(req), FrontFrame(p.fromServer));
            ReceiveStep(job, gen, p)
            == Conclude(p.(fromServer := [], past := past), Next(job, gen, p.st, Answered(reply)))
    ensures FrameReady(p.fromServer)
  {
    var req := Request(job, gen, p.st);
    AnswerFits(job, gen, p.st, p.handles, orig, cur, q);
    FramingRoundTrip(q, [], EOF);
    assert Encode(q) + [] == Encode(q);
    FitsStrings(q);
    AnswerKind(job, gen, p.st, p.handles, orig, cur, q);
    if q.GetCode() == Expected(req) {
      Accounting.ParsedIsPrefix(Expected(req), Body(q), q);
    } else {
      RefusalParses(Expected(req), q);
    }
    hide Encode, Body, ReadPacketSpec, ParseResp, Next, Answering;
  }

  lemma AnswerKind(job: Job, gen: Source, st: State, handles: Handles,
                   orig: Option<seq<byte>>, cur: Option<seq<byte>>, q: Packet)
    requires Valid(job, st) && !st.Terminal() && Answering(job, gen, st, handles, orig, cur, q)
    ensures q.GetCode() == Expected(Request(job, gen, st)) <==>
              !IsRefusal(q) || Expected(Request(job, gen, st)) == TYPE_CODE_STATUS
  {
  }

  lemma RefusalParses(expected: byte, q: Packet)
    requires Fits(q) && IsRefusal(q) && expected != TYPE_CODE_STATUS
    ensures ParseResp(expected, Body(q)) == Rejected(ServerError)
  {
    FitsStrings(q);
    assert Body(q)[1..] == q.Marshal();
    StatusRespExact(q.Marshal(), q);
  }

  /** Where an exchange may lead a client whose connection is empty. */
  ghost predicate LeadsTo(job: Job, gen: Source, p: Proc, st: State, orig: Option<seq<byte>>, cur: Option<seq<byte>>)
    requires Runnable(job, p)
  {
    && p.toServer == [] && p.fromServer == [] && !st.Crashed?
    && if st.Finished? then Returned(job, gen, p, st.resp, orig, cur)
       else Valid(job, st) && AtServer(job, gen, st, p.handles, orig, cur)
  }

  lemma ConcludeKeepsInv(job: Job, gen: Source, p: Proc, st: State, orig: Option<seq<byte>>, cur: Option<seq<byte>>)
    requires Runnable(job, p) && LeadsTo(job, gen, p, st, orig, cur)
    ensures ProcInv(job, gen, Conclude(p, st), orig, cur)
  {
    hide Framing.Encode, AtServer, AfterServer, Answering;
  }

  lemma ReceiveKeeps(job: Job, gen: Source, p: Proc, orig: Option<seq<byte>>, cur: Option<seq<byte>>)
    requires ProcInv(job, gen, p, orig, cur) && p.phase.Awaiting? && FrameReady(p.fromServer)
    ensures ProcInv(job, gen, ReceiveStep(job, gen, p), orig, cur)
  {
    hide Encode, ReadPacketSpec, ParseResp, Next, AtServer, AfterServer, ReceiveStep, FrontFrame;
    NothingReady();
    assert AnswerInFlight(job, gen, p, orig, cur);
    var q: Packet :| Answering(job, gen, p.st, p.handles, orig, cur, q) && p.fromServer == Encode(q);
    ReceiveReads(job, gen, p, q, orig, cur);
    var req := Request(job, gen, p.st);
    var reply := if IsRefusal(q) && Expected(req) != TYPE_CODE_STATUS then Rejected(ServerError) else Got(q);
    var st := Next(job, gen, p.st, Answered(reply));
    var p' := p.(fromServer := [], past := Extend(p.past, Accept, Encode(req), FrontFrame(p.fromServer)));
    AnswerLeads(job, gen, p, p', q, reply, orig, cur);
    ConcludeKeepsInv(job, gen, p', st, orig, cur);
  }

  lemma AnswerLeads(job: Job, gen: Source, p: Proc, p': Proc, q: Packet, reply: Reply,
                    orig: Option<seq<byte>>, cur: Option<seq<byte>>)
    requires Runnable(job, p) && p'.st == p.st && p'.handles == p.handles
    requires p'.toServer == p'.fromServer == [] && Answering(job, gen, p.st, p.handles, orig, cur, q)
    requires reply == if IsRefusal(q) && Expected(Request(job, gen, p.st)) != TYPE_CODE_STATUS
                      then Rejected(ServerError) else Got(q)
    ensures LeadsTo(job, gen, p', Next(job, gen, p.st, Answered(reply)), orig, cur)
  {
    hide Framing.Encode, Next, AtServer, AfterServer, Request;
    if IsRefusal(q) {
      RefusalStops(job, gen, p.st, q);
      assert AtServer(job, gen, p.st, p.handles, orig, cur) || AfterServer(job, gen, p.st, p.handles, orig, cur, q);
      assert Quiet(job, gen, p', orig, cur);
    } else {
      AnswerAdvances(job, gen, p.st, p.handles, orig, cur, q);
      assert AfterServer(job, gen, p.st, p.handles, orig, cur, q);
    }
  }

  lemma RefusalStops(job: Job, gen: Source, st: State, q: Packet)
    requires Valid(job, st) && !st.Terminal() && IsRefusal(q)
    ensures var reply := if Expected(Request(job, gen, st)) != TYPE_CODE_STATUS then Rejected(ServerError) else Got(q);
            var st' := Next(job, gen, st, Answered(reply));
            st'.Finished? && st'.resp.err.Some? && st'.resp.clientName == job.name
  {
  }

  /** A good answer moves the client to a state that agrees with the server's, or ends it. */
  lemma AnswerAdvances(job: Job, gen: Source, st: State, handles: Handles,
                       orig: Option<seq<byte>>, cur: Option<seq<byte>>, q: Packet)
    requires Valid(job, st) && !st.Terminal()
    requires AfterServer(job, gen, st, handles, orig, cur, q) && !IsRefusal(q)
    ensures var st' := Next(job, gen, st, Answered(Got(q)));
            if st'.Finished? then
              && st'.resp.clientName == job.name
              && (st'.resp.err.None? ==>
                    st'.resp.bytesSent == job.toSend && handles == map[] && cur == Written(gen, orig, job.toSend))
            else !st'.Crashed? && Valid(job, st') && AtServer(job, gen, st', handles, orig, cur)
  {
    hide Encode, Overwrite;
    match st
    case Initing =>
    case Opening => NextOpening(job, gen, Answered(Got(q)));
    case Writing(_, _, _) =>
      var n := |Encode(Request(job, gen, st))|;
      NextWriting(job, gen, st, Answered(Got(q)), Got(q), n, n);
    case Closing(_, _) =>
  }

  lemma BreakKeeps(job: Job, gen: Source, p: Proc, orig: Option<seq<byte>>, cur: Option<seq<byte>>)
    requires ProcInv(job, gen, p, orig, cur) && p.phase.Awaiting?
    ensures ProcInv(job, gen, BreakStep(job, gen, p), orig, cur)
  {
    hide Encode, Next, Settle;
    Accounting.RejectedIsNotGood(Request(job, gen, p.st));
    hide Good;
    FailureStops(job, gen, p.st, Answered(Rejected(ReadFailed)));
  }
}
