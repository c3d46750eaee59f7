/** The whole of SSHTransfer.Simulate: every interleaving of the clients, their connections,
  * the buffered channel and the collector. */
module Simulate {
  import opened Wrappers
  import opened Marshal
  import Framing
  import opened Protocol
  import opened Server
  import opened Transfer

  /** One job per client, and the bytes each client's generator will produce. */
  datatype Config = Config(jobs: seq<Job>, gens: seq<Source>) {
    ghost predicate WellFormed() {
      && |jobs| == |gens|
      && (forall i :: 0 <= i < |jobs| ==> ShortNames(jobs[i]))
      && (forall i, j :: 0 <= i < j < |jobs| ==> jobs[i].file != jobs[j].file)
    }
  }

  /** The channel's buffer, in order of arrival; its capacity is the number of clients. */
  datatype World = World(procs: seq<Proc>, store: Store, chan: seq<WriteResponse>, collected: seq<WriteResponse>)

  datatype Action =
    | Dial(i: nat, ok: bool)                // NewClient returns
    | Send(i: nat, outcome: WriteOutcome)   // client i writes its next request
    | ServeOne(i: nat, choice: Choice)      // the server handles a whole frame from client i
    | Receive(i: nat)                       // client i reads a whole response
    | Break(i: nat)                         // client i's read fails
    | Deliver(i: nat)                       // client i sends its response on the channel
    | Collect                               // the collector receives one response

  function Start(cfg: Config, store: Store): World {
    World(seq(|cfg.jobs|, _ => FRESH_PROC), store, [], [])
  }

  predicate Shaped(cfg: Config, w: World) {
    && |w.procs| == |cfg.jobs| == |cfg.gens|
    && forall i :: 0 <= i < |w.procs| ==> Runnable(cfg.jobs[i], w.procs[i])
  }

  predicate Enabled(w: World, a: Action) {
    match a
    case Dial(i, _) => i < |w.procs| && w.procs[i].phase.Dialing?
    case Send(i, _) => i < |w.procs| && w.procs[i].phase.Sending?
    case ServeOne(i, _) => i < |w.procs| && FrameReady(w.procs[i].toServer)
    case Receive(i) => i < |w.procs| && w.procs[i].phase.Awaiting? && FrameReady(w.procs[i].fromServer)
    case Break(i) => i < |w.procs| && w.procs[i].phase.Awaiting?
    case Deliver(i) => i < |w.procs| && w.procs[i].phase.Stopped? && |w.chan| < |w.procs|
    case Collect => |w.chan| > 0 && |w.collected| < |w.procs|
  }

  function Apply(cfg: Config, w: World, a: Action): World
    requires Shaped(cfg, w) && Enabled(w, a)
  {
    match a
    case Dial(i, ok) => w.(procs := w.procs[i := DialStep(cfg.jobs[i], w.procs[i], ok)])
    case Send(i, outcome) => w.(procs := w.procs[i := SendStep(cfg.jobs[i], cfg.gens[i], w.procs[i], outcome)])
    case ServeOne(i, choice) =>
      var (p, store) := ServeStep(w.procs[i], w.store, choice);
      w.(procs := w.procs[i := p], store := store)
    case Receive(i) => w.(procs := w.procs[i := ReceiveStep(cfg.jobs[i], cfg.gens[i], w.procs[i])])
    case Break(i) => w.(procs := w.procs[i := BreakStep(cfg.jobs[i], cfg.gens[i], w.procs[i])])
    case Deliver(i) =>
      var resp := w.procs[i].phase.resp;
      w.(procs := w.procs[i := w.procs[i].(phase := Delivered(resp))], chan := w.chan + [resp])
    case Collect => w.(chan := w.chan[1..], collected := w.collected + [w.chan[0]])
  }

  /** A finite run: the worlds it goes through and the actions between them. */
  ghost predicate IsRun(cfg: Config, store: Store, ws: seq<World>, actions: seq<Action>) {
    && |ws| == |actions| + 1 && ws[0] == Start(cfg, store)
    && forall k :: 0 <= k < |actions| ==>
         Shaped(cfg, ws[k]) && Enabled(ws[k], actions[k]) && ws[k + 1] == Apply(cfg, ws[k], actions[k])
  }

  lemma RunLength(cfg: Config, store: Store, ws: seq<World>, actions: seq<Action>)
    requires IsRun(cfg, store, ws, actions)
    ensures |ws| == |actions| + 1 && ws[0] == Start(cfg, store)
  {
    hide Apply, Enabled, Shaped;
  }

  lemma RunStep(cfg: Config, store: Store, ws: seq<World>, actions: seq<Action>, k: nat)
    requires IsRun(cfg, store, ws, actions) && k < |actions|
    ensures |ws| == |actions| + 1
    ensures Shaped(cfg, ws[k]) && Enabled(ws[k], actions[k]) && ws[k + 1] == Apply(cfg, ws[k], actions[k])
  {
    hide Apply, Enabled, Shaped;
  }

  // ---------------------------------------------------------------------------
  // The global invariant.

  function Contribution(p: Proc): multiset<WriteResponse> {
    if p.phase.Delivered? then multiset{p.phase.resp} else multiset{}
  }

  /** The responses of the clients that have delivered theirs. */
  function DeliveredBy(procs: seq<Proc>): multiset<WriteResponse> {
    if procs == [] then multiset{} else DeliveredBy(procs[1..]) + Contribution(procs[0])
  }

  ghost predicate Inv(cfg: Config, init: Store, w: World) {
    && Shaped(cfg, w)
    && (forall i :: 0 <= i < |w.procs| ==> ProcHolds(cfg, init, w, i))
    && (forall f: seq<byte> :: (forall i :: 0 <= i < |cfg.jobs| ==> f != cfg.jobs[i].file) ==>
          Lookup(w.store, f) == Lookup(init, f))
    && multiset(w.collected + w.chan) == DeliveredBy(w.procs)
  }

  ghost predicate ProcHolds(cfg: Config, init: Store, w: World, i: nat)
    requires i < |w.procs| == |cfg.jobs| == |cfg.gens|
  {
    var file := cfg.jobs[i].file;
    ProcInv(cfg.jobs[i], cfg.gens[i], w.procs[i], Lookup(init, file), Lookup(w.store, file))
  }

  lemma InvIsShaped(cfg: Config, init: Store, w: World)
    requires Inv(cfg, init, w)
    ensures Shaped(cfg, w) && |w.procs| == |cfg.jobs| == |cfg.gens|
  {
    hide ProcHolds, Runnable;
  }

  lemma InvAtStart(cfg: Config, init: Store)
    requires cfg.WellFormed()
    ensures Inv(cfg, init, Start(cfg, init))
  {
    NoneDelivered(|cfg.jobs|);
    var none: seq<WriteResponse> := [];
    assert none + none == none;
    var w := Start(cfg, init);
    forall i | 0 <= i < |w.procs|
      ensures ProcHolds(cfg, init, w, i)
    {
    }
  }

  lemma {:induction false} NoneDelivered(n: nat)
    ensures DeliveredBy(seq(n, _ => FRESH_PROC)) == multiset{}
  {
    if n == 0 {
    } else {
      NoneDelivered(n - 1);
      assert seq(n, _ => FRESH_PROC)[1..] == seq(n - 1, _ => FRESH_PROC);
    }
  }

  lemma {:induction false} DeliveredUpdate(procs: seq<Proc>, i: nat, p: Proc)
    requires i < |procs|
    ensures DeliveredBy(procs[i := p]) + Contribution(procs[i]) == DeliveredBy(procs) + Contribution(p)
  {
    hide Contribution;
    if i > 0 {
      DeliveredUpdate(procs[1..], i - 1, p);
      var a, b, c := DeliveredBy(procs[1..][i - 1 := p]), DeliveredBy(procs[1..]), Contribution(procs[0]);
      assert procs[i := p][1..] == procs[1..][i - 1 := p];
      assert (a + c) + Contribution(procs[i]) == (a + Contribution(procs[i])) + c;
      assert (b + c) + Contribution(p) == (b + Contribution(p)) + c;
    } else {
      assert procs[i := p][1..] == procs[1..];
    }
  }

  lemma SameContribution(procs: seq<Proc>, i: nat, p: Proc)
    requires i < |procs| && Contribution(procs[i]) == Contribution(p)
    ensures DeliveredBy(procs[i := p]) == DeliveredBy(procs)
  {
    hide Contribution, DeliveredBy;
    DeliveredUpdate(procs, i, p);
    MultisetCancel(DeliveredBy(procs[i := p]), DeliveredBy(procs), Contribution(p));
  }

  /** Changing one process that keeps its own invariant, and no file but its own, keeps the
    * invariant of all. */
  lemma OneProcChanges(cfg: Config, init: Store, w: World, i: nat, p: Proc, store: Store)
    requires cfg.WellFormed() && Inv(cfg, init, w) && i < |w.procs|
    requires ProcInv(cfg.jobs[i], cfg.gens[i], p, Lookup(init, cfg.jobs[i].file), Lookup(store, cfg.jobs[i].file))
    requires forall f: seq<byte> :: f != cfg.jobs[i].file ==> Lookup(store, f) == Lookup(w.store, f)
    ensures var w' := w.(procs := w.procs[i := p], store := store);
            && Shaped(cfg, w') && (forall j :: 0 <= j < |w'.procs| ==> ProcHolds(cfg, init, w', j))
            && (forall f: seq<byte> :: (forall j :: 0 <= j < |cfg.jobs| ==> f != cfg.jobs[j].file) ==>
                  Lookup(store, f) == Lookup(init, f))
  {
    hide ProcInv, Runnable;
    RunnableHolds(cfg.jobs[i], cfg.gens[i], p, Lookup(init, cfg.jobs[i].file), Lookup(store, cfg.jobs[i].file));
    var w' := w.(procs := w.procs[i := p], store := store);
    forall j | 0 <= j < |w'.procs|
      ensures ProcHolds(cfg, init, w', j)
    {
      assert ProcHolds(cfg, init, w, j);
      if j != i {
        assert cfg.jobs[i].file != cfg.jobs[j].file;
      }
    }
  }

  lemma RunnableHolds(job: Job, gen: Source, p: Proc, orig: Option<seq<byte>>, cur: Option<seq<byte>>)
    requires ProcInv(job, gen, p, orig, cur)
    ensures Runnable(job, p)
  {
  }

  /** Only Deliver turns a process into one that has delivered. */
  lemma NotDelivered(job: Job, gen: Source, p: Proc, ok: bool, outcome: WriteOutcome)
    requires Runnable(job, p)
    ensures Contribution(DialStep(job, p, ok)) == multiset{}
    ensures p.phase.Sending? ==> Contribution(SendStep(job, gen, p, outcome)) == multiset{}
    ensures p.phase.Awaiting? ==>
              Contribution(ReceiveStep(job, gen, p)) == Contribution(BreakStep(job, gen, p)) == multiset{}
  {
    hide Framing.Encode, Request, Next, ParseResp, Framing.ReadPacketSpec, Conclude, Contribution, FrontFrame;
    forall q: Proc, st: State
      ensures !q.phase.Delivered? ==> Contribution(Conclude(q, st)) == multiset{}
    {
      ConcludeDeliversNothing(q, st);
    }
    ContributionByPhase(DialStep(job, p, ok));
    if p.phase.Sending? {
      ContributionByPhase(SendStep(job, gen, p, outcome));
    }
  }

  lemma ConcludeDeliversNothing(p: Proc, st: State)
    ensures !p.phase.Delivered? ==> Contribution(Conclude(p, st)) == multiset{}
  {
  }

  /** Every step of client i, and every answer it gets, keeps its own invariant, touches no
    * file but its own, and delivers nothing. */
  lemma ClientStepKeeps(cfg: Config, init: Store, w: World, a: Action)
    requires cfg.WellFormed() && Inv(cfg, init, w) && Enabled(w, a) && !a.Deliver? && !a.Collect?
    ensures var w' := Apply(cfg, w, a);
            && ProcInv(cfg.jobs[a.i], cfg.gens[a.i], w'.procs[a.i],
                       Lookup(init, cfg.jobs[a.i].file), Lookup(w'.store, cfg.jobs[a.i].file))
            && (forall f: seq<byte> :: f != cfg.jobs[a.i].file ==> Lookup(w'.store, f) == Lookup(w.store, f))
            && w'.procs == w.procs[a.i := w'.procs[a.i]] && w'.chan == w.chan && w'.collected == w.collected
            && Contribution(w'.procs[a.i]) == Contribution(w.procs[a.i])
  {
    hide ProcInv, DialStep, SendStep, ServeStep, ReceiveStep, BreakStep, Contribution, Runnable;
    var job, gen, p := cfg.jobs[a.i], cfg.gens[a.i], w.procs[a.i];
    var orig, cur := Lookup(init, job.file), Lookup(w.store, job.file);
    assert ProcHolds(cfg, init, w, a.i);
    ContributionByPhase(p);
    match a
    case Dial(_, ok) =>
      Untouched(job, gen, p, orig, cur);
      DialKeeps(job, gen, p, ok, orig);
      NotDelivered(job, gen, p, ok, Accept);
    case Send(_, outcome) =>
      SendKeeps(job, gen, p, outcome, orig, cur);
      NotDelivered(job, gen, p, true, outcome);
    case ServeOne(_, choice) =>
      ServeKeeps(job, gen, p, w.store, choice, orig);
      ContributionByPhase(ServeStep(p, w.store, choice).0);
    case Receive(_) =>
      ReceiveKeeps(job, gen, p, orig, cur);
      NotDelivered(job, gen, p, true, Accept);
    case Break(_) =>
      BreakKeeps(job, gen, p, orig, cur);
      NotDelivered(job, gen, p, true, Accept);
  }

  lemma ContributionByPhase(p: Proc)
    ensures Contribution(p) == if p.phase.Delivered? then multiset{p.phase.resp} else multiset{}
  {
  }

  lemma Untouched(job: Job, gen: Source, p: Proc, orig: Option<seq<byte>>, cur: Option<seq<byte>>)
    requires ProcInv(job, gen, p, orig, cur) && p.phase.Dialing?
    ensures cur == orig
  {
  }

  lemma DeliverKeeps(job: Job, gen: Source, p: Proc, orig: Option<seq<byte>>, cur: Option<seq<byte>>)
    requires ProcInv(job, gen, p, orig, cur) && p.phase.Stopped?
    ensures ProcInv(job, gen, p.(phase := Delivered(p.phase.resp)), orig, cur)
  {
  }

  lemma SameProcs(cfg: Config, init: Store, v: World, w: World)
    requires |v.procs| == |cfg.jobs| == |cfg.gens| && v.procs == w.procs && v.store == w.store
    requires forall j :: 0 <= j < |v.procs| ==> ProcHolds(cfg, init, v, j)
    ensures forall j :: 0 <= j < |w.procs| ==> ProcHolds(cfg, init, w, j)
  {
    hide ProcInv;
    forall j | 0 <= j < |w.procs|
      ensures ProcHolds(cfg, init, w, j)
    {
      assert ProcHolds(cfg, init, v, j);
    }
  }

  lemma DeliverKeepsInv(cfg: Config, init: Store, w: World, i: nat)
    requires cfg.WellFormed() && Inv(cfg, init, w) && Enabled(w, Deliver(i))
    ensures Inv(cfg, init, Apply(cfg, w, Deliver(i)))
  {
    hide ProcInv, Runnable, DeliveredBy;
    var w' := Apply(cfg, w, Deliver(i));
    var p := w.procs[i];
    var q := p.(phase := Delivered(p.phase.resp));
    assert ProcHolds(cfg, init, w, i);
    DeliverKeeps(cfg.jobs[i], cfg.gens[i], p, Lookup(init, cfg.jobs[i].file), Lookup(w.store, cfg.jobs[i].file));
    OneProcChanges(cfg, init, w, i, q, w.store);
    DeliveredUpdate(w.procs, i, q);
    assert w.collected + (w.chan + [p.phase.resp]) == w.collected + w.chan + [p.phase.resp];
    SameProcs(cfg, init, w.(procs := w.procs[i := q], store := w.store), w');
  }

  lemma CollectKeepsInv(cfg: Config, init: Store, w: World)
    requires cfg.WellFormed() && Inv(cfg, init, w) && Enabled(w, Collect)
    ensures Inv(cfg, init, Apply(cfg, w, Collect))
  {
    hide ProcInv, Runnable;
    assert (w.collected + [w.chan[0]]) + w.chan[1..] == w.collected + w.chan;
    SameProcs(cfg, init, w, Apply(cfg, w, Collect));
  }

  lemma ClientKeepsInv(cfg: Config, init: Store, w: World, a: Action)
    requires cfg.WellFormed() && Inv(cfg, init, w) && Enabled(w, a) && !a.Deliver? && !a.Collect?
    ensures Inv(cfg, init, Apply(cfg, w, a))
  {
    hide ProcInv, Runnable, Apply;
    ClientStepKeeps(cfg, init, w, a);
    var w' := Apply(cfg, w, a);
    OneProcChanges(cfg, init, w, a.i, w'.procs[a.i], w'.store);
    SameContribution(w.procs, a.i, w'.procs[a.i]);
    SameProcs(cfg, init, w.(procs := w.procs[a.i := w'.procs[a.i]], store := w'.store), w');
  }

  /** Every action, in every world, keeps the invariant. */
  lemma StepKeepsInv(cfg: Config, init: Store, w: World, a: Action)
    requires cfg.WellFormed() && Inv(cfg, init, w) && Enabled(w, a)
    ensures Inv(cfg, init, Apply(cfg, w, a))
  {
    hide Apply, Enabled, ProcHolds;
    match a
    case Collect => CollectKeepsInv(cfg, init, w);
    case Deliver(i) => DeliverKeepsInv(cfg, init, w, i);
    case _ => ClientKeepsInv(cfg, init, w, a);
  }

  /** The invariant holds in every world of every run. */
  lemma {:induction false} RunKeepsInv(cfg: Config, store: Store, ws: seq<World>, actions: seq<Action>, k: nat)
    requires cfg.WellFormed() && IsRun(cfg, store, ws, actions) && k < |ws|
    ensures Inv(cfg, store, ws[k])
  {
    hide IsRun, Inv, Apply, Enabled, Shaped;
    RunLength(cfg, store, ws, actions);
    if k == 0 {
      InvAtStart(cfg, store);
    } else {
      RunStep(cfg, store, ws, actions, k - 1);
      RunKeepsInv(cfg, store, ws, actions, k - 1);
      StepKeepsInv(cfg, store, ws[k - 1], actions[k - 1]);
    }
  }
}
