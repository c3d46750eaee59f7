/** What follows for whole simulations: what a nil error guarantees, that no schedule gets
  * stuck or runs forever, and that the result does not depend on the order of arrival. */
module Outcome {
  import opened Wrappers
  import opened Marshal
  import opened Fxp
  import opened Framing
  import opened Protocol
  import opened Server
  import opened Transfer
  import opened Simulate

  // ---------------------------------------------------------------------------
  // Collection.

  /** Whether Simulate returns a nil error, once it has received these responses. */
  predicate NoErrors(collected: seq<WriteResponse>) {
    forall k :: 0 <= k < |collected| ==> collected[k].err.None?
  }

  predicate AllDelivered(procs: seq<Proc>) {
    forall i :: 0 <= i < |procs| ==> procs[i].phase.Delivered?
  }

  lemma {:induction false} DeliveredCount(procs: seq<Proc>)
    ensures |DeliveredBy(procs)| <= |procs|
    ensures |DeliveredBy(procs)| == |procs| <==> AllDelivered(procs)
  {
    if procs == [] {
    } else {
      DeliveredCount(procs[1..]);
      ContributionSize(procs[0]);
      DeliveredSplit(procs);
      AllDeliveredSplit(procs);
      hide DeliveredBy, Contribution, AllDelivered;
    }
  }

  lemma AllDeliveredSplit(procs: seq<Proc>)
    requires procs != []
    ensures AllDelivered(procs) <==> procs[0].phase.Delivered? && AllDelivered(procs[1..])
  {
  }

  lemma ContributionSize(p: Proc)
    ensures |Contribution(p)| == if p.phase.Delivered? then 1 else 0
  {
  }

  lemma DeliveredSplit(procs: seq<Proc>)
    requires procs != []
    ensures |DeliveredBy(procs)| == |DeliveredBy(procs[1..])| + |Contribution(procs[0])|
  {
  }

  lemma {:induction false} DeliveredMember(procs: seq<Proc>, i: nat)
    requires i < |procs| && procs[i].phase.Delivered?
    ensures procs[i].phase.resp in DeliveredBy(procs)
  {
    if i == 0 {
    } else {
      DeliveredMember(procs[1..], i - 1);
    }
  }

  /** Responses collected or on the channel: one for each client that has delivered. */
  lemma HowManyDelivered(cfg: Config, init: Store, w: World)
    requires Inv(cfg, init, w)
    ensures |w.collected| + |w.chan| <= |w.procs| == |cfg.jobs|
    ensures |w.collected| + |w.chan| == |w.procs| <==> AllDelivered(w.procs)
  {
    hide ProcHolds, Runnable, DeliveredBy, AllDelivered;
    DeliveredCount(w.procs);
    assert |multiset(w.collected + w.chan)| == |w.collected| + |w.chan|;
  }

  /** Each client delivers at most one response, so the channel never holds more than it has
    * room for: a client that has stopped can always deliver. */
  lemma NeverBlocks(cfg: Config, init: Store, w: World, i: nat)
    requires Inv(cfg, init, w) && i < |w.procs| && w.procs[i].phase.Stopped?
    ensures Enabled(w, Deliver(i))
  {
    hide Inv;
    HowManyDelivered(cfg, init, w);
  }

  /** When the collector is done it has received exactly one response from every client. */
  lemma EveryoneDelivered(cfg: Config, init: Store, w: World)
    requires Inv(cfg, init, w) && |w.collected| == |w.procs|
    ensures w.chan == [] && multiset(w.collected) == DeliveredBy(w.procs)
    ensures forall i :: 0 <= i < |w.procs| ==>
              w.procs[i].phase.Delivered? && w.procs[i].phase.resp in w.collected
  {
    hide ProcHolds, Runnable, DeliveredBy;
    HowManyDelivered(cfg, init, w);
    assert w.collected + w.chan == w.collected;
    forall i | 0 <= i < |w.procs|
      ensures w.procs[i].phase.Delivered? && w.procs[i].phase.resp in w.collected
    {
      DeliveredMember(w.procs, i);
      assert w.procs[i].phase.resp in multiset(w.collected);
    }
  }

  // ---------------------------------------------------------------------------
  // Safety of whole runs.

  /** A nil error means that every file holds the bytes its client generated, written from offset
    * 0 over whatever it held before, and that no other file has changed. The file then holds
    * these bytes and nothing else exactly when it was no longer than that before. */
  lemma EndToEnd(cfg: Config, init: Store, w: World)
    requires Inv(cfg, init, w) && |w.collected| == |w.procs| && NoErrors(w.collected)
    ensures forall i :: 0 <= i < |cfg.jobs| ==>
              var job := cfg.jobs[i];
              && Lookup(w.store, job.file) == Written(cfg.gens[i], Lookup(init, job.file), job.toSend)
              && (Lookup(w.store, job.file) == Some(Data(cfg.gens[i], job.toSend)) <==>
                    |OrEmpty(Lookup(init, job.file))| <= job.toSend)
    ensures forall f: seq<byte> :: (forall i :: 0 <= i < |cfg.jobs| ==> f != cfg.jobs[i].file) ==>
              Lookup(w.store, f) == Lookup(init, f)
  {
    hide ProcHolds, Runnable, Written;
    EveryoneDelivered(cfg, init, w);
    forall i | 0 <= i < |cfg.jobs|
      ensures var job := cfg.jobs[i];
              && Lookup(w.store, job.file) == Written(cfg.gens[i], Lookup(init, job.file), job.toSend)
              && (Lookup(w.store, job.file) == Some(Data(cfg.gens[i], job.toSend)) <==>
                    |OrEmpty(Lookup(init, job.file))| <= job.toSend)
    {
      assert ProcHolds(cfg, init, w, i);
      DeliveredMeansWritten(cfg, init, w, i);
      WrittenExact(cfg.gens[i], Lookup(init, cfg.jobs[i].file), cfg.jobs[i].toSend);
    }
  }

  lemma DeliveredMeansWritten(cfg: Config, init: Store, w: World, i: nat)
    requires i < |w.procs| == |cfg.jobs| == |cfg.gens| && ProcHolds(cfg, init, w, i)
    requires w.procs[i].phase.Delivered? && w.procs[i].phase.resp.err.None?
    ensures w.procs[i].phase.resp.bytesSent == cfg.jobs[i].toSend
    ensures Lookup(w.store, cfg.jobs[i].file)
            == Written(cfg.gens[i], Lookup(init, cfg.jobs[i].file), cfg.jobs[i].toSend)
  {
  }

  lemma WrittenExact(gen: Source, orig: Option<seq<byte>>, n: nat)
    ensures Written(gen, orig, n) == Some(Data(gen, n)) <==> |OrEmpty(orig)| <= n
  {
    hide Overwrite;
    OverwriteExact(OrEmpty(orig), Data(gen, n));
  }

  /** At every moment of every run, failed clients included, a client's file holds what it held
    * at the start with some prefix of the generated bytes written over it: never bytes out of
    * order, from another client, or beyond what the client was asked to send. */
  lemma NeverCorrupt(cfg: Config, init: Store, w: World, i: nat)
    requires Inv(cfg, init, w) && i < |cfg.jobs|
    ensures var job := cfg.jobs[i];
            || Lookup(w.store, job.file) == Lookup(init, job.file)
            || exists n: nat ::
                 n <= job.toSend && Lookup(w.store, job.file) == Written(cfg.gens[i], Lookup(init, job.file), n)
  {
    hide Encode, Written;
    assert ProcHolds(cfg, init, w, i);
    var job, gen, p := cfg.jobs[i], cfg.gens[i], w.procs[i];
    var orig, cur := Lookup(init, job.file), Lookup(w.store, job.file);
    if !(p.phase.Dialing? || AtServer(job, gen, p.st, p.handles, orig, cur)
         || exists q: Packet :: AfterServer(job, gen, p.st, p.handles, orig, cur, q)) {
      assert Complete(job, gen, p, orig, cur);
    }
  }

  /** Lockstep: each connection carries at most one request or at most one answer, never both,
    * so the constant request ID is never ambiguous. */
  lemma OneOutstanding(cfg: Config, init: Store, w: World, i: nat)
    requires Inv(cfg, init, w) && i < |cfg.jobs|
    ensures var p := w.procs[i];
            || (p.fromServer == [] && p.toServer <= Encode(Request(cfg.jobs[i], cfg.gens[i], p.st)))
            || (p.toServer == [] && exists q: Packet :: Fits(q) && p.fromServer == Encode(q))
  {
    hide Encode, AtServer, AfterServer, Fits;
    assert ProcHolds(cfg, init, w, i);
    var job, gen, p := cfg.jobs[i], cfg.gens[i], w.procs[i];
    var orig, cur := Lookup(init, job.file), Lookup(w.store, job.file);
    if p.fromServer != [] {
      assert AnswerInFlight(job, gen, p, orig, cur);
      var q: Packet :| Answering(job, gen, p.st, p.handles, orig, cur, q) && p.fromServer == Encode(q);
      AnswerFits(job, gen, p.st, p.handles, orig, cur, q);
    }
  }

  // ---------------------------------------------------------------------------
  // Progress and termination.

  /** Actions that are not failures of the network. */
  predicate Unfailing(a: Action) {
    match a
    case Dial(_, ok) => ok
    case Send(_, outcome) => outcome.Accept?
    case Break(_) => false
    case _ => true
  }

  predicate WillingChoice(choice: Choice) {
    !choice.refuse && choice.version == CLIENT_VER && |choice.handle| <= MAX_HANDLE
  }

  /** Nothing fails in this action, and the server does what it is asked. */
  predicate Willing(a: Action) {
    Unfailing(a) && (a.ServeOne? ==> WillingChoice(a.choice))
  }

  /** Until the collector has received every response, something can happen even if nothing
    * fails and nothing is refused any more. */
  lemma NeverStuck(cfg: Config, init: Store, w: World)
    requires cfg.WellFormed() && Inv(cfg, init, w) && |w.collected| < |w.procs|
    ensures exists a: Action :: Enabled(w, a) && Willing(a)
  {
    hide ProcHolds, Runnable, FrameReady, DeliveredBy;
    if |w.chan| > 0 {
      assert Enabled(w, Collect) && Willing(Collect);
    } else {
      HowManyDelivered(cfg, init, w);
      var i :| 0 <= i < |w.procs| && !w.procs[i].phase.Delivered?;
      assert ProcHolds(cfg, init, w, i);
      var choice := Choice(false, CLIENT_VER, []);
      match w.procs[i].phase
      case Dialing => assert Enabled(w, Dial(i, true)) && Willing(Dial(i, true));
      case Sending => assert Enabled(w, Send(i, Accept)) && Willing(Send(i, Accept));
      case Awaiting =>
        SomethingArrives(cfg, init, w, i);
        assert Willing(ServeOne(i, choice)) && Willing(Receive(i));
        assert Enabled(w, ServeOne(i, choice)) || Enabled(w, Receive(i));
      case Stopped(_) => assert Enabled(w, Deliver(i)) && Willing(Deliver(i));
      case Panicking => NeverPanics(cfg, init, w, i);
    }
  }

  /** No client ever crashes on what the reference server sends. */
  lemma NeverPanics(cfg: Config, init: Store, w: World, i: nat)
    requires Inv(cfg, init, w) && i < |w.procs|
    ensures !w.procs[i].phase.Panicking?
  {
    hide Encode;
    assert ProcHolds(cfg, init, w, i);
  }

  lemma SomethingArrives(cfg: Config, init: Store, w: World, i: nat)
    requires cfg.WellFormed() && Inv(cfg, init, w) && i < |w.procs| && w.procs[i].phase.Awaiting?
    ensures FrameReady(w.procs[i].toServer) || FrameReady(w.procs[i].fromServer)
  {
    hide Encode, AtServer, Answering, ReadPacketSpec, Fits;
    assert ProcHolds(cfg, init, w, i);
    var job, gen, p := cfg.jobs[i], cfg.gens[i], w.procs[i];
    var orig, cur := Lookup(init, job.file), Lookup(w.store, job.file);
    var req := Request(job, gen, p.st);
    if p.toServer == Encode(req) && RequestInFlight(job, gen, p, orig, cur) {
      HandleIsShort(job, gen, p.st, p.handles, orig, cur);
      RequestFits(job, gen, p.st);
      FramingRoundTrip(req, [], EOF);
      assert Encode(req) + [] == Encode(req);
    } else {
      var q: Packet :| Answering(job, gen, p.st, p.handles, orig, cur, q) && p.fromServer == Encode(q);
      AnswerFits(job, gen, p.st, p.handles, orig, cur, q);
      FramingRoundTrip(q, [], EOF);
      assert Encode(q) + [] == Encode(q);
    }
  }

  function Pending(p: Proc): nat {
    if FrameReady(p.toServer) then 1 else 0
  }

  /** A bound on the steps a process has left. */
  function ProcMeasure(job: Job, p: Proc): nat {
    match p.phase
    case Dialing => 3 * Rank(job, p.st) + 4
    case Sending => 3 * Rank(job, p.st) + 3
    case Awaiting => 3 * Rank(job, p.st) + 1 + Pending(p)
    case Stopped(_) => 2 + Pending(p)
    case Delivered(_) => Pending(p)
    case Panicking => Pending(p)
  }

  function SumMeasure(jobs: seq<Job>, procs: seq<Proc>): nat
    requires |jobs| == |procs|
  {
    if procs == [] then 0 else ProcMeasure(jobs[0], procs[0]) + SumMeasure(jobs[1..], procs[1..])
  }

  function Measure(cfg: Config, w: World): nat
    requires |cfg.jobs| == |w.procs|
  {
    SumMeasure(cfg.jobs, w.procs) + |w.chan|
  }

  lemma {:induction false} SumMeasureUpdate(jobs: seq<Job>, procs: seq<Proc>, i: nat, p: Proc)
    requires |jobs| == |procs| && i < |procs|
    ensures SumMeasure(jobs, procs[i := p]) + ProcMeasure(jobs[i], procs[i])
            == SumMeasure(jobs, procs) + ProcMeasure(jobs[i], p)
  {
    hide ProcMeasure;
    if i > 0 {
      SumMeasureUpdate(jobs[1..], procs[1..], i - 1, p);
      assert procs[i := p][1..] == procs[1..][i - 1 := p];
    } else {
      assert procs[i := p][1..] == procs[1..];
    }
  }

  lemma ConcludeMeasure(job: Job, gen: Source, p: Proc, x: Exchange, before: Proc)
    requires Runnable(job, before) && p.st == before.st
    ensures ProcMeasure(job, Conclude(p, Next(job, gen, p.st, x))) <= 3 * Rank(job, before.st) + Pending(p)
  {
    hide Encode, FrameReady;
  }

  lemma NothingSentYet(job: Job, gen: Source, p: Proc, orig: Option<seq<byte>>, cur: Option<seq<byte>>)
    requires ProcInv(job, gen, p, orig, cur) && FrameReady(p.toServer)
    ensures !p.phase.Dialing? && !p.phase.Sending?
  {
  }

  lemma ClientStepDecreases(cfg: Config, init: Store, w: World, a: Action)
    requires cfg.WellFormed() && Inv(cfg, init, w) && Enabled(w, a) && !a.Deliver? && !a.Collect?
    ensures var w' := Apply(cfg, w, a);
            ProcMeasure(cfg.jobs[a.i], w'.procs[a.i]) < ProcMeasure(cfg.jobs[a.i], w.procs[a.i])
  {
    hide Encode, FrameReady, Next, ParseResp, ReadPacketSpec, ProcInv, Serve;
    var job, gen, p := cfg.jobs[a.i], cfg.gens[a.i], w.procs[a.i];
    assert ProcHolds(cfg, init, w, a.i);
    match a
    case Dial(_, _) =>
    case Send(_, outcome) =>
      var b := Encode(Request(job, gen, p.st));
      var n := Accepted([outcome], |b|).0;
      var past := Extend(p.past, outcome, b[..n], []);
      ConcludeMeasure(job, gen, p.(toServer := p.toServer + b[..n], past := past), Unsent(n), p);
    case ServeOne(_, choice) =>
      ServeKeeps(job, gen, p, w.store, choice, Lookup(init, job.file));
      NothingSentYet(job, gen, p, Lookup(init, job.file), Lookup(w.store, job.file));
    case Receive(_) =>
      var r := ReadPacketSpec(Stream(p.fromServer, EOF));
      var req := Request(job, gen, p.st);
      var past := Extend(p.past, Accept, Encode(req), FrontFrame(p.fromServer));
      ConcludeMeasure(job, gen, p.(fromServer := r.rest.bytes, past := past),
                      Answered(ParseResp(Expected(req), r.bytes)), p);
    case Break(_) =>
      var past := Extend(p.past, Accept, Encode(Request(job, gen, p.st)), []);
      ConcludeMeasure(job, gen, p.(past := past), Answered(Rejected(ReadFailed)), p);
  }

  lemma StepDecreases(cfg: Config, init: Store, w: World, a: Action)
    requires cfg.WellFormed() && Inv(cfg, init, w) && Enabled(w, a)
    ensures Measure(cfg, Apply(cfg, w, a)) < Measure(cfg, w)
  {
    hide ProcInv, FrameReady, DialStep, SendStep, ServeStep, ReceiveStep, BreakStep, SumMeasure;
    var w' := Apply(cfg, w, a);
    match a
    case Collect =>
    case Deliver(i) => SumMeasureUpdate(cfg.jobs, w.procs, i, w'.procs[i]);
    case _ =>
      ClientStepDecreases(cfg, init, w, a);
      ClientStepKeeps(cfg, init, w, a);
      SumMeasureUpdate(cfg.jobs, w.procs, a.i, w'.procs[a.i]);
  }

  /** No run is longer than the measure of its first world: every schedule, fair or not,
    * comes to an end, and by NeverStuck only when all responses have been collected. */
  lemma {:induction false} RunsAreFinite(cfg: Config, store: Store, ws: seq<World>, actions: seq<Action>, k: nat)
    requires cfg.WellFormed() && IsRun(cfg, store, ws, actions) && k < |ws|
    ensures Inv(cfg, store, ws[k])
    ensures k + Measure(cfg, ws[k]) <= Measure(cfg, ws[0])
  {
    hide IsRun, Inv, Apply, Enabled, Measure;
    RunLength(cfg, store, ws, actions);
    RunKeepsInv(cfg, store, ws, actions, k);
    RunKeepsInv(cfg, store, ws, actions, 0);
    InvIsShaped(cfg, store, ws[k]);
    InvIsShaped(cfg, store, ws[0]);
    if k == 0 {
    } else {
      RunStep(cfg, store, ws, actions, k - 1);
      RunsAreFinite(cfg, store, ws, actions, k - 1);
      StepDecreases(cfg, store, ws[k - 1], actions[k - 1]);
    }
  }

  /** Every schedule completes: a run is never longer than the measure of its first world, and
    * a world in which nothing but failures and refusals could still happen is one in which the
    * collector has received a response from every client. */
  lemma EveryScheduleCompletes(cfg: Config, store: Store, ws: seq<World>, actions: seq<Action>)
    requires cfg.WellFormed() && IsRun(cfg, store, ws, actions)
    ensures |actions| <= Measure(cfg, Start(cfg, store))
    ensures var w := ws[|actions|];
            (forall a: Action :: Enabled(w, a) ==> !Willing(a)) ==> |w.collected| == |cfg.jobs|
  {
    hide Enabled, Apply, Inv, Measure;
    var w := ws[|actions|];
    RunsAreFinite(cfg, store, ws, actions, |actions|);
    CollectedBound(cfg, store, w);
    if |w.collected| < |w.procs| {
      NeverStuck(cfg, store, w);
    }
  }

  lemma CollectedBound(cfg: Config, init: Store, w: World)
    requires Inv(cfg, init, w)
    ensures |w.collected| <= |w.procs| == |cfg.jobs|
  {
    hide Inv;
    HowManyDelivered(cfg, init, w);
  }

  /** What every world of every run guarantees for every client: it has not panicked; if it has
    * returned, its send does not block; its connection carries at most one message; and its
    * file holds its old content with a prefix of the client's bytes written over it. */
  lemma SafeThroughout(cfg: Config, store: Store, ws: seq<World>, actions: seq<Action>, k: nat, i: nat)
    requires cfg.WellFormed() && IsRun(cfg, store, ws, actions) && k < |ws| && i < |cfg.jobs|
    ensures i < |ws[k].procs|
    ensures var p := ws[k].procs[i];
            var job, gen := cfg.jobs[i], cfg.gens[i];
            && !p.phase.Panicking?
            && (p.phase.Stopped? ==> Enabled(ws[k], Deliver(i)))
            && (p.toServer == [] || p.fromServer == [])
            && (|| Lookup(ws[k].store, job.file) == Lookup(store, job.file)
                || exists n: nat ::
                     n <= job.toSend && Lookup(ws[k].store, job.file) == Written(gen, Lookup(store, job.file), n))
  {
    hide IsRun, Inv, Written, Encode, Enabled;
    RunKeepsInv(cfg, store, ws, actions, k);
    var w := ws[k];
    CollectedBound(cfg, store, w);
    NeverPanics(cfg, store, w, i);
    OneOutstanding(cfg, store, w, i);
    NeverCorrupt(cfg, store, w, i);
    if w.procs[i].phase.Stopped? {
      NeverBlocks(cfg, store, w, i);
    }
  }
}
