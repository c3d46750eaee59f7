/** The concurrent model runs the real client: whatever the schedule, what a client process
  * returns is what the sequential protocol, and so the method WriteRandom, returns on a
  * connection that behaves as the process's own connection did. */
module Replay {
  import opened Wrappers
  import opened Marshal
  import Fxp
  import opened Framing
  import opened Protocol
  import Accounting
  import Server
  import opened Transfer
  import opened Simulate

  /** Running from the start on the bytes of the past, and then on any future, is running from
    * the present state on that future. */
  ghost predicate Replays(job: Job, gen: Source, st: State, past: Past) {
    Valid(job, st) &&
    forall f: seq<WriteOutcome>, b: seq<byte>, e: IoError ::
      Run(job, gen, Initing, Wire([], past.outcomes + f, Stream(past.got + b, e)))
      == Run(job, gen, st, Wire(past.sent, f, Stream(b, e)))
  }

  /** A client whose connection broke right after its past returns this response. */
  ghost predicate Returns(job: Job, gen: Source, past: Past, end: State) {
    Run(job, gen, Initing, Wire([], past.outcomes, Stream(past.got, Broken))).0 == end
  }

  /** A client with no exchange behind it did not reach the server and says so. */
  ghost predicate ReturnsOrNeverDialed(job: Job, gen: Source, past: Past, resp: WriteResponse) {
    if past.outcomes == [] then past == Past([], [], []) && resp == WriteResponse(job.name, 0, [], Some(ConnectFailed))
    else Returns(job, gen, past, Finished(resp))
  }

  ghost predicate HistoryHolds(job: Job, gen: Source, p: Proc) {
    match p.phase
    case Dialing => p.st == Initing && p.past == Past([], [], [])
    case Sending => Replays(job, gen, p.st, p.past)
    case Awaiting => Replays(job, gen, p.st, p.past)
    case Stopped(resp) => ReturnsOrNeverDialed(job, gen, p.past, resp)
    case Delivered(resp) => ReturnsOrNeverDialed(job, gen, p.past, resp)
    case Panicking => Returns(job, gen, p.past, Crashed)
  }

  /** One more exchange, on a stream that starts with exactly the bytes it reads. */
  lemma ReplaysOn(job: Job, gen: Source, st: State, past: Past, outcome: WriteOutcome,
                  sent: seq<byte>, got: seq<byte>, x: Exchange, f: seq<WriteOutcome>, b: seq<byte>, e: IoError)
    requires Replays(job, gen, st, past) && !st.Terminal()
    requires DoExchange(Request(job, gen, st), Wire(past.sent, [outcome] + f, Stream(got + b, e)))
             == (x, Wire(past.sent + sent, f, Stream(b, e)))
    ensures var past' := Extend(past, outcome, sent, got);
            Run(job, gen, Initing, Wire([], past'.outcomes + f, Stream(past'.got + b, e)))
            == Run(job, gen, Next(job, gen, st, x), Wire(past'.sent, f, Stream(b, e)))
  {
    hide Encode, DoExchange, Run, Next;
    var past' := Extend(past, outcome, sent, got);
    var outcomes, bytes := [outcome] + f, got + b;
    var before, after := Wire(past.sent, outcomes, Stream(bytes, e)), Wire(past'.sent, f, Stream(b, e));
    RunUnfolds(job, gen, st, before, x, after);
    assert Run(job, gen, Initing, Wire([], past.outcomes + outcomes, Stream(past.got + bytes, e)))
           == Run(job, gen, st, before);
    assert past.outcomes + outcomes == past'.outcomes + f;
    assert past.got + bytes == past'.got + b;
  }

  lemma SendExchange(req: Fxp.Packet, sent: seq<byte>, outcome: WriteOutcome, f: seq<WriteOutcome>, input: Stream)
    requires !Accepted([outcome], |Encode(req)|).1
    ensures var n := Accepted([outcome], |Encode(req)|).0;
            DoExchange(req, Wire(sent, [outcome] + f, input)) == (Unsent(n), Wire(sent + Encode(req)[..n], f, input))
  {
  }

  lemma ReceiveExchange(req: Fxp.Packet, sent: seq<byte>, queue: seq<byte>,
                        f: seq<WriteOutcome>, b: seq<byte>, e: IoError)
    requires FrameReady(queue)
    ensures var r := ReadPacketSpec(Stream(queue, EOF));
            DoExchange(req, Wire(sent, [Accept] + f, Stream(FrontFrame(queue) + b, e)))
            == (Answered(ParseResp(Expected(req), r.bytes)), Wire(sent + Encode(req), f, Stream(b, e)))
  {
    hide Encode, ParseResp, ReadPacketSpec;
    var s := Stream(queue, EOF);
    Accounting.RestOfStream(s);
    var body := ReadPacketSpec(s).bytes;
    assert FrontFrame(queue) == Frame(body);
    ReadPacketExact(Stream(Frame(body) + b, e), body, b);
    assert ([Accept] + f)[1..] == f;
    assert Encode(req)[..|Encode(req)|] == Encode(req);
  }

  lemma BreakExchange(req: Fxp.Packet, sent: seq<byte>)
    ensures DoExchange(req, Wire(sent, [Accept], Stream([], Broken)))
            == (Answered(Rejected(ReadFailed)), Wire(sent + Encode(req), [], Stream([], Broken)))
  {
    hide Encode, ParseResp;
    assert Encode(req)[..|Encode(req)|] == Encode(req);
    assert [Accept][1..] == [];
  }

  /** Concluding an exchange keeps the history, given that every future replays. */
  lemma ConcludeKeeps(job: Job, gen: Source, p: Proc, st: State)
    requires Valid(job, st) && p.past.outcomes != []
    requires forall f: seq<WriteOutcome>, b: seq<byte>, e: IoError ::
               Run(job, gen, Initing, Wire([], p.past.outcomes + f, Stream(p.past.got + b, e)))
               == Run(job, gen, st, Wire(p.past.sent, f, Stream(b, e)))
    ensures HistoryHolds(job, gen, Conclude(p, st))
  {
    hide Run;
    if st.Terminal() {
      RunEnds(job, gen, st, Wire(p.past.sent, [], Stream([], Broken)));
      assert p.past.outcomes + [] == p.past.outcomes && p.past.got + [] == p.past.got;
    }
  }

  lemma SendHistory(job: Job, gen: Source, p: Proc, outcome: WriteOutcome)
    requires Runnable(job, p) && p.phase.Sending? && HistoryHolds(job, gen, p)
    ensures HistoryHolds(job, gen, SendStep(job, gen, p, outcome))
  {
    hide Encode, DoExchange, Run, Next, Replays;
    var req := Request(job, gen, p.st);
    var (n, ok) := Accepted([outcome], |Encode(req)|);
    if !ok {
      var sent := Encode(req)[..n];
      var p' := p.(toServer := p.toServer + sent, past := Extend(p.past, outcome, sent, []));
      forall f: seq<WriteOutcome>, b: seq<byte>, e: IoError
        ensures Run(job, gen, Initing, Wire([], p'.past.outcomes + f, Stream(p'.past.got + b, e)))
                == Run(job, gen, Next(job, gen, p.st, Unsent(n)), Wire(p'.past.sent, f, Stream(b, e)))
      {
        SendExchange(req, p.past.sent, outcome, f, Stream([] + b, e));
        assert [] + b == b;
        ReplaysOn(job, gen, p.st, p.past, outcome, sent, [], Unsent(n), f, b, e);
      }
      ConcludeKeeps(job, gen, p', Next(job, gen, p.st, Unsent(n)));
    }
  }

  lemma ReceiveHistory(job: Job, gen: Source, p: Proc)
    requires Runnable(job, p) && p.phase.Awaiting? && HistoryHolds(job, gen, p) && FrameReady(p.fromServer)
    ensures HistoryHolds(job, gen, ReceiveStep(job, gen, p))
  {
    hide Encode, DoExchange, Run, Next, Replays, ReadPacketSpec, ParseResp, FrontFrame;
    var req := Request(job, gen, p.st);
    var r := ReadPacketSpec(Stream(p.fromServer, EOF));
    var x := Answered(ParseResp(Expected(req), r.bytes));
    var got := FrontFrame(p.fromServer);
    var p' := p.(fromServer := r.rest.bytes, past := Extend(p.past, Accept, Encode(req), got));
    forall f: seq<WriteOutcome>, b: seq<byte>, e: IoError
      ensures Run(job, gen, Initing, Wire([], p'.past.outcomes + f, Stream(p'.past.got + b, e)))
              == Run(job, gen, Next(job, gen, p.st, x), Wire(p'.past.sent, f, Stream(b, e)))
    {
      ReceiveExchange(req, p.past.sent, p.fromServer, f, b, e);
      ReplaysOn(job, gen, p.st, p.past, Accept, Encode(req), got, x, f, b, e);
    }
    ConcludeKeeps(job, gen, p', Next(job, gen, p.st, x));
  }

  lemma BreakHistory(job: Job, gen: Source, p: Proc)
    requires Runnable(job, p) && p.phase.Awaiting? && HistoryHolds(job, gen, p)
    ensures HistoryHolds(job, gen, BreakStep(job, gen, p))
  {
    hide Encode, DoExchange, Run, Next, Replays;
    var req := Request(job, gen, p.st);
    var x := Answered(Rejected(ReadFailed));
    var past := Extend(p.past, Accept, Encode(req), []);
    BreakExchange(req, p.past.sent);
    assert [Accept] + [] == [Accept];
    var none: seq<byte> := [];
    assert none + none == none;
    ReplaysOn(job, gen, p.st, p.past, Accept, Encode(req), [], x, [], [], Broken);
    Accounting.RejectedIsNotGood(req);
    FailureStops(job, gen, p.st, x);
    RunEnds(job, gen, Next(job, gen, p.st, x), Wire(past.sent, [], Stream([], Broken)));
    assert past.outcomes + [] == past.outcomes && past.got + [] == past.got;
  }

  lemma StartHistory(job: Job, gen: Source, p: Proc, ok: bool)
    requires p.phase.Dialing? && HistoryHolds(job, gen, p)
    ensures HistoryHolds(job, gen, DialStep(job, p, ok))
  {
    hide Run;
    if ok {
      forall f: seq<WriteOutcome>, b: seq<byte>, e: IoError
        ensures Run(job, gen, Initing, Wire([], [] + f, Stream([] + b, e)))
                == Run(job, gen, Initing, Wire([], f, Stream(b, e)))
      {
        assert [] + f == f && [] + b == b;
      }
    }
  }

  ghost predicate AllHistories(cfg: Config, w: World) {
    && Shaped(cfg, w)
    && forall i :: 0 <= i < |w.procs| ==> HistoryHolds(cfg.jobs[i], cfg.gens[i], w.procs[i])
  }

  lemma StepKeepsHistory(cfg: Config, w: World, a: Action)
    requires AllHistories(cfg, w) && Enabled(w, a) && Shaped(cfg, Apply(cfg, w, a))
    ensures AllHistories(cfg, Apply(cfg, w, a))
  {
    hide Runnable, Replays, Returns, SendStep, ReceiveStep, BreakStep, DialStep;
    if !a.Collect? {
      var job, gen, p := cfg.jobs[a.i], cfg.gens[a.i], w.procs[a.i];
      match a
      case Dial(_, ok) => StartHistory(job, gen, p, ok);
      case Send(_, outcome) => SendHistory(job, gen, p, outcome);
      case Receive(_) => ReceiveHistory(job, gen, p);
      case Break(_) => BreakHistory(job, gen, p);
      case ServeOne(_, _) =>
      case Deliver(_) =>
    }
  }

  lemma HistoriesAtStart(cfg: Config, store: Server.Store)
    requires Shaped(cfg, Start(cfg, store))
    ensures AllHistories(cfg, Start(cfg, store))
  {
  }

  /** In every world of every run, a client that reached the server and has returned did so
    * with the result of the sequential protocol on a connection with its own past; one that did
    * not reach the server has returned an error and a count of zero. */
  lemma {:induction false} ClientsRunTheProtocol(cfg: Config, store: Server.Store, ws: seq<World>,
                                                 actions: seq<Action>, k: nat)
    requires cfg.WellFormed() && IsRun(cfg, store, ws, actions) && k < |ws|
    ensures AllHistories(cfg, ws[k])
  {
    hide IsRun, Inv, Apply, Enabled, HistoryHolds;
    RunLength(cfg, store, ws, actions);
    RunKeepsInv(cfg, store, ws, actions, k);
    InvIsShaped(cfg, store, ws[k]);
    if k == 0 {
      HistoriesAtStart(cfg, store);
    } else {
      RunStep(cfg, store, ws, actions, k - 1);
      ClientsRunTheProtocol(cfg, store, ws, actions, k - 1);
      StepKeepsHistory(cfg, ws[k - 1], actions[k - 1]);
    }
  }
}
