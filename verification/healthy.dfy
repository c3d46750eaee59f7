/** The converse of safety: on a network that does not fail, with a server that is willing,
  * every schedule ends in success. */
module Healthy {
  import opened Wrappers
  import opened Marshal
  import opened Fxp
  import opened Framing
  import opened Protocol
  import Session
  import opened Server
  import opened Transfer
  import opened Simulate
  import opened Outcome

  /** A good answer from a server that speaks the client's version. */
  predicate GoodAnswer(req: Packet, q: Packet) {
    Fits(q) && q.GetCode() == Expected(req) && Good(req, Answered(Got(q)))
  }

  /** No error has come up, and an answer on its way is a good one. */
  ghost predicate Untroubled(job: Job, gen: Source, p: Proc)
    requires Runnable(job, p)
  {
    match p.phase
    case Stopped(resp) => resp.err.None?
    case Delivered(resp) => resp.err.None?
    case Awaiting =>
      p.toServer == [] ==>
        exists q: Packet :: GoodAnswer(Request(job, gen, p.st), q) && p.fromServer == Encode(q)
    case _ => true
  }

  lemma WillingServerAnswersWell(job: Job, gen: Source, st: State, handles: Handles, store: Store,
                                 orig: Option<seq<byte>>, choice: Choice)
    requires Valid(job, st) && !st.Terminal() && ShortNames(job) && WillingChoice(choice)
    requires AtServer(job, gen, st, handles, orig, Lookup(store, job.file))
    ensures GoodAnswer(Request(job, gen, st), Serve(handles, store, Body(Request(job, gen, st)), choice).reply)
  {
    hide Decode, Body, Encode, Perform, GoodAnswer, AtServer;
    HandleIsShort(job, gen, st, handles, orig, Lookup(store, job.file));
    RequestFits(job, gen, st);
    DecodeBody(Request(job, gen, st));
    PerformWilling(job, gen, st, handles, store, orig, choice);
  }

  lemma PerformWilling(job: Job, gen: Source, st: State, handles: Handles, store: Store,
                       orig: Option<seq<byte>>, choice: Choice)
    requires Valid(job, st) && !st.Terminal() && WillingChoice(choice)
    requires AtServer(job, gen, st, handles, orig, Lookup(store, job.file))
    ensures GoodAnswer(Request(job, gen, st), Perform(handles, store, Request(job, gen, st), choice).reply)
  {
    hide Encode, Overwrite, Written;
  }

  lemma ServeUntroubled(job: Job, gen: Source, p: Proc, store: Store, choice: Choice, orig: Option<seq<byte>>)
    requires ShortNames(job) && ProcInv(job, gen, p, orig, Lookup(store, job.file)) && FrameReady(p.toServer)
    requires Untroubled(job, gen, p) && WillingChoice(choice)
    ensures Untroubled(job, gen, ServeStep(p, store, choice).0)
  {
    hide Encode, Body, Fits, Serve, AtServer, Answering, AfterServer, ReadPacketSpec, GoodAnswer;
    NothingReady();
    var req := Request(job, gen, p.st);
    if p.phase.Awaiting? {
      assert RequestInFlight(job, gen, p, orig, Lookup(store, job.file));
      HandleIsShort(job, gen, p.st, p.handles, orig, Lookup(store, job.file));
      RequestFits(job, gen, p.st);
      WholeRequest(req, p.toServer);
      WillingServerAnswersWell(job, gen, p.st, p.handles, store, orig, choice);
      var q := Serve(p.handles, store, Body(req), choice).reply;
      var p' := ServeStep(p, store, choice).0;
      assert p'.fromServer == Encode(q);
    }
  }

  lemma ReceiveUntroubled(job: Job, gen: Source, p: Proc, orig: Option<seq<byte>>, cur: Option<seq<byte>>)
    requires ProcInv(job, gen, p, orig, cur) && p.phase.Awaiting? && FrameReady(p.fromServer)
    requires Untroubled(job, gen, p) && Runnable(job, ReceiveStep(job, gen, p))
    ensures Untroubled(job, gen, ReceiveStep(job, gen, p))
  {
    hide Encode, ReadPacketSpec, ParseResp, Next, AtServer, AfterServer;
    NothingReady();
    var req := Request(job, gen, p.st);
    assert AnswerInFlight(job, gen, p, orig, cur);
    var q: Packet :| Answering(job, gen, p.st, p.handles, orig, cur, q) && p.fromServer == Encode(q);
    var good: Packet :| GoodAnswer(req, good) && p.fromServer == Encode(good);
    AnswerFits(job, gen, p.st, p.handles, orig, cur, q);
    FirstPacketUnique(q, [], good, []);
    ReceiveReads(job, gen, p, q, orig, cur);
    AnswerKind(job, gen, p.st, p.handles, orig, cur, q);
    Session.NextIsNext(job, gen, p.st, Answered(Got(q)));
  }

  lemma SendUntroubled(job: Job, gen: Source, p: Proc, orig: Option<seq<byte>>, cur: Option<seq<byte>>)
    requires ProcInv(job, gen, p, orig, cur) && p.phase.Sending?
    requires Runnable(job, SendStep(job, gen, p, Accept))
    ensures Untroubled(job, gen, SendStep(job, gen, p, Accept))
  {
    hide Encode, AtServer;
    var b := Encode(Request(job, gen, p.st));
    assert [] + b[..|b|] == b;
    EncodeNonEmpty(Request(job, gen, p.st));
  }

  lemma DialUntroubled(job: Job, gen: Source, p: Proc)
    requires Runnable(job, p)
    ensures Runnable(job, DialStep(job, p, true)) && Untroubled(job, gen, DialStep(job, p, true))
  {
  }

  lemma DeliverUntroubled(job: Job, gen: Source, p: Proc)
    requires Runnable(job, p) && p.phase.Stopped? && Untroubled(job, gen, p)
    ensures var p' := p.(phase := Delivered(p.phase.resp));
            Runnable(job, p') && Untroubled(job, gen, p')
  {
  }

  ghost predicate AllUntroubled(cfg: Config, w: World) {
    && Shaped(cfg, w)
    && (forall i :: 0 <= i < |w.procs| ==> Untroubled(cfg.jobs[i], cfg.gens[i], w.procs[i]))
    && NoErrors(w.collected + w.chan)
  }

  lemma ProcUntroubled(cfg: Config, init: Store, w: World, a: Action)
    requires cfg.WellFormed() && Inv(cfg, init, w) && Enabled(w, a) && Willing(a) && !a.Collect?
    requires Untroubled(cfg.jobs[a.i], cfg.gens[a.i], w.procs[a.i])
    requires Shaped(cfg, Apply(cfg, w, a))
    ensures Untroubled(cfg.jobs[a.i], cfg.gens[a.i], Apply(cfg, w, a).procs[a.i])
  {
    hide ProcInv, SendStep, ServeStep, ReceiveStep, BreakStep, GoodAnswer, Untroubled, Runnable;
    var job, gen, p := cfg.jobs[a.i], cfg.gens[a.i], w.procs[a.i];
    var orig, cur := Lookup(init, job.file), Lookup(w.store, job.file);
    assert ProcHolds(cfg, init, w, a.i);
    match a
    case Dial(_, _) => DialUntroubled(job, gen, p);
    case Send(_, _) => SendUntroubled(job, gen, p, orig, cur);
    case ServeOne(_, choice) => ServeUntroubled(job, gen, p, w.store, choice, orig);
    case Receive(_) => ReceiveUntroubled(job, gen, p, orig, cur);
    case Deliver(_) => DeliverUntroubled(job, gen, p);
  }

  lemma StepKeepsUntroubled(cfg: Config, init: Store, w: World, a: Action)
    requires cfg.WellFormed() && Inv(cfg, init, w) && Enabled(w, a) && Willing(a) && AllUntroubled(cfg, w)
    requires Shaped(cfg, Apply(cfg, w, a))
    ensures AllUntroubled(cfg, Apply(cfg, w, a))
  {
    hide Inv, Runnable, DialStep, SendStep, ServeStep, ReceiveStep, BreakStep;
    if a.Collect? {
      assert (w.collected + [w.chan[0]]) + w.chan[1..] == w.collected + w.chan;
    } else {
      ProcUntroubled(cfg, init, w, a);
      hide Untroubled;
      if a.Deliver? {
        DeliverNoError(cfg.jobs[a.i], cfg.gens[a.i], w.procs[a.i]);
        assert w.collected + (w.chan + [w.procs[a.i].phase.resp]) == (w.collected + w.chan) + [w.procs[a.i].phase.resp];
      }
    }
  }

  lemma DeliverNoError(job: Job, gen: Source, p: Proc)
    requires Runnable(job, p) && Untroubled(job, gen, p) && p.phase.Stopped?
    ensures p.phase.resp.err.None?
  {
  }

  predicate AllWilling(actions: seq<Action>) {
    forall j :: 0 <= j < |actions| ==> Willing(actions[j])
  }

  lemma UntroubledAtStart(cfg: Config, store: Store)
    requires Shaped(cfg, Start(cfg, store))
    ensures AllUntroubled(cfg, Start(cfg, store))
  {
  }

  /** If no action of a run is a failure and the server refuses nothing, the collector never
    * receives an error. */
  lemma {:induction false} HealthyRunsSucceed(cfg: Config, store: Store, ws: seq<World>, actions: seq<Action>, k: nat)
    requires cfg.WellFormed() && IsRun(cfg, store, ws, actions) && k < |ws|
    requires AllWilling(actions)
    ensures AllUntroubled(cfg, ws[k]) && NoErrors(ws[k].collected)
  {
    hide IsRun, Inv, Apply, Enabled, Untroubled, Willing, NoErrors;
    RunLength(cfg, store, ws, actions);
    RunKeepsInv(cfg, store, ws, actions, k);
    InvIsShaped(cfg, store, ws[k]);
    if k == 0 {
      UntroubledAtStart(cfg, store);
    } else {
      RunStep(cfg, store, ws, actions, k - 1);
      HealthyRunsSucceed(cfg, store, ws, actions, k - 1);
      RunKeepsInv(cfg, store, ws, actions, k - 1);
      StepKeepsUntroubled(cfg, store, ws[k - 1], actions[k - 1]);
    }
    PrefixHasNoErrors(ws[k].collected, ws[k].chan);
  }

  lemma PrefixHasNoErrors(a: seq<WriteResponse>, b: seq<WriteResponse>)
    requires NoErrors(a + b)
    ensures NoErrors(a)
  {
    assert forall k :: 0 <= k < |a| ==> (a + b)[k] == a[k];
  }

  /** And such a run can always be completed: any run without failures, the empty one included,
    * extends to one in which Simulate returns nil. */
  lemma {:induction false} SuccessIsReachable(cfg: Config, store: Store, ws: seq<World>, actions: seq<Action>)
    returns (ws': seq<World>, actions': seq<Action>)
    requires cfg.WellFormed() && IsRun(cfg, store, ws, actions) && AllWilling(actions)
    ensures IsRun(cfg, store, ws', actions') && AllWilling(actions') && actions <= actions'
    ensures |ws'[|actions'|].collected| == |cfg.jobs| && NoErrors(ws'[|actions'|].collected)
    decreases Measure(cfg, Start(cfg, store)) - |actions|
  {
    hide Measure, Enabled, Apply, Inv, Unfailing;
    var w := ws[|actions|];
    RunsAreFinite(cfg, store, ws, actions, |actions|);
    CollectedBound(cfg, store, w);
    if |w.collected| == |w.procs| {
      HealthyRunsSucceed(cfg, store, ws, actions, |actions|);
      return ws, actions;
    }
    NeverStuck(cfg, store, w);
    var a :| Enabled(w, a) && Willing(a);
    InvIsShaped(cfg, store, w);
    StepKeepsInv(cfg, store, w, a);
    OneMoreStep(cfg, store, ws, actions, a);
    var next := actions + [a];
    RunsAreFinite(cfg, store, ws + [Apply(cfg, w, a)], next, |next|);
    ws', actions' := SuccessIsReachable(cfg, store, ws + [Apply(cfg, w, a)], next);
  }

  lemma OneMoreStep(cfg: Config, store: Store, ws: seq<World>, actions: seq<Action>, a: Action)
    requires IsRun(cfg, store, ws, actions) && Shaped(cfg, ws[|actions|]) && Enabled(ws[|actions|], a)
    ensures IsRun(cfg, store, ws + [Apply(cfg, ws[|actions|], a)], actions + [a])
  {
    hide Shaped, Enabled, Apply;
  }
}
