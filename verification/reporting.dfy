/** What the byte counts that clients report say about the files: a client's count against what
  * the server really holds for it, whatever failed and wherever. */
module Reporting {
  import opened Wrappers
  import opened Marshal
  import opened Protocol
  import opened Server
  import opened Transfer
  import opened Simulate
  import Accounting
  import Framing

  function LastOutcome(p: Proc): WriteOutcome {
    if p.past.outcomes == [] then Accept else p.past.outcomes[|p.past.outcomes| - 1]
  }

  /** How much of its last request a client that has returned put on the wire. */
  function OnWire(job: Job, gen: Source, p: Proc): (n: nat)
    requires Runnable(job, p)
    ensures n <= |Framing.Encode(Request(job, gen, p.st))|
  {
    Accepted([LastOutcome(p)], |Framing.Encode(Request(job, gen, p.st))|).0
  }

  /** The file data in its last request. */
  function Chunk(job: Job, st: State): (n: nat)
    requires Valid(job, st)
    ensures n <= BUFF_SIZE
  {
    if st.Writing? then PayloadSize(job.toSend, st.total) else 0
  }

  /** A write broke off before even its header was on the wire. */
  predicate HeaderLost(job: Job, gen: Source, p: Proc)
    requires Runnable(job, p)
  {
    && (p.phase.Stopped? || p.phase.Delivered?) && p.phase.resp.err.Some? && p.st.Writing?
    && OnWire(job, gen, p) < |Framing.Encode(Request(job, gen, p.st))| - Chunk(job, p.st)
  }

  /** The count of a client that has returned with an error: everything up to its last request,
    * less what is missing of that. */
  predicate CountsFailure(job: Job, gen: Source, p: Proc, bytesSent: u64)
    requires Runnable(job, p)
  {
    var missing := |Framing.Encode(Request(job, gen, p.st))| - OnWire(job, gen, p);
    bytesSent == if p.st.Writing? then Wrap64(p.st.total + Chunk(job, p.st) - missing) else Accounting.Base(p.st)
  }

  predicate SomeHeaderLost(cfg: Config, w: World) {
    Shaped(cfg, w) && exists i :: 0 <= i < |w.procs| && HeaderLost(cfg.jobs[i], cfg.gens[i], w.procs[i])
  }

  /** A request that is not on the wire in full is never handled. */
  predicate Unserved(job: Job, gen: Source, p: Proc, orig: Option<seq<byte>>, cur: Option<seq<byte>>)
    requires Runnable(job, p)
  {
    var b := Framing.Encode(Request(job, gen, p.st));
    OnWire(job, gen, p) < |b| ==>
      p.toServer <= b && |p.toServer| < |b| && AtServer(job, gen, p.st, p.handles, orig, cur)
  }

  predicate CountHolds(job: Job, gen: Source, p: Proc, orig: Option<seq<byte>>, cur: Option<seq<byte>>)
    requires Runnable(job, p)
  {
    (p.phase.Stopped? || p.phase.Delivered?) && p.phase.resp.err.Some? ==>
      CountsFailure(job, gen, p, p.phase.resp.bytesSent) && Unserved(job, gen, p, orig, cur)
  }

  // ---------------------------------------------------------------------------
  // Each step keeps it.

  /** The count a failed exchange ends a client with. */
  lemma FailedCount(job: Job, gen: Source, st: State, x: Exchange)
    requires Valid(job, st) && !st.Terminal()
    ensures var st' := Next(job, gen, st, x);
            var missing := if x.Unsent? then |Framing.Encode(Request(job, gen, st))| - x.n else 0;
            st'.Finished? && st'.resp.err.Some? ==>
              st'.resp.bytesSent
              == if st.Writing? then Wrap64(st.total + Chunk(job, st) - missing) else Accounting.Base(st)
  {
    hide Framing.Encode, Wrap64, Settle;
    if st.Writing? {
      var L := |Framing.Encode(Request(job, gen, st))|;
      var sent := if x.Unsent? then x.n else L;
      NextWriting(job, gen, st, x, Settle(Request(job, gen, st), x), L, sent);
      CountSentIsModular(st.total, Chunk(job, st), L, sent);
      hide Next, CountSent;
    }
  }

  lemma SendCounts(job: Job, gen: Source, p: Proc, outcome: WriteOutcome,
                   orig: Option<seq<byte>>, cur: Option<seq<byte>>)
    requires ProcInv(job, gen, p, orig, cur) && p.phase.Sending?
    requires Runnable(job, SendStep(job, gen, p, outcome))
    ensures CountHolds(job, gen, SendStep(job, gen, p, outcome), orig, cur)
  {
    hide Framing.Encode, Next, AtServer, Wrap64;
    var b := Framing.Encode(Request(job, gen, p.st));
    var (n, ok) := Accepted([outcome], |b|);
    if !ok {
      assert [] + b[..n] == b[..n];
      FailedCount(job, gen, p.st, Unsent(n));
    }
  }

  lemma ReceiveCounts(job: Job, gen: Source, p: Proc, orig: Option<seq<byte>>, cur: Option<seq<byte>>)
    requires Runnable(job, p) && p.phase.Awaiting? && Runnable(job, ReceiveStep(job, gen, p))
    ensures CountHolds(job, gen, ReceiveStep(job, gen, p), orig, cur)
  {
    hide Framing.Encode, Framing.ReadPacketSpec, ParseResp, Next, AtServer, Wrap64, FrontFrame;
    var req := Request(job, gen, p.st);
    var r := Framing.ReadPacketSpec(Framing.Stream(p.fromServer, Framing.EOF));
    FailedCount(job, gen, p.st, Answered(ParseResp(Expected(req), r.bytes)));
  }

  lemma BreakCounts(job: Job, gen: Source, p: Proc, orig: Option<seq<byte>>, cur: Option<seq<byte>>)
    requires Runnable(job, p) && p.phase.Awaiting? && Runnable(job, BreakStep(job, gen, p))
    ensures CountHolds(job, gen, BreakStep(job, gen, p), orig, cur)
  {
    hide Framing.Encode, Next, AtServer, Wrap64;
    FailedCount(job, gen, p.st, Answered(Rejected(ReadFailed)));
  }

  lemma DialCounts(job: Job, gen: Source, p: Proc, ok: bool, cur: Option<seq<byte>>)
    requires ProcInv(job, gen, p, cur, cur) && p.phase.Dialing?
    ensures Runnable(job, DialStep(job, p, ok)) && CountHolds(job, gen, DialStep(job, p, ok), cur, cur)
  {
    hide Framing.Encode;
  }

  /** The server does not handle a request of which a part is missing. */
  lemma ServeCounts(job: Job, gen: Source, p: Proc, store: Store, choice: Choice,
                    orig: Option<seq<byte>>, cur: Option<seq<byte>>)
    requires ShortNames(job) && Runnable(job, p) && FrameReady(p.toServer)
    requires CountHolds(job, gen, p, orig, Lookup(store, job.file))
    ensures Runnable(job, ServeStep(p, store, choice).0)
    ensures CountHolds(job, gen, ServeStep(p, store, choice).0, orig, cur)
  {
    hide Framing.Encode, Framing.ReadPacketSpec, Serve, AtServer, FrameReady, CountsFailure, OnWire, Framing.Fits;
    CountsTheSame(job, gen, p, ServeStep(p, store, choice).0);
    var req := Request(job, gen, p.st);
    if p.toServer <= Framing.Encode(req) && AtServer(job, gen, p.st, p.handles, orig, Lookup(store, job.file)) {
      HandleIsShort(job, gen, p.st, p.handles, orig, Lookup(store, job.file));
      RequestFits(job, gen, p.st);
      WholeRequest(req, p.toServer);
    }
  }

  lemma CountsTheSame(job: Job, gen: Source, p: Proc, p': Proc)
    requires Runnable(job, p) && p'.st == p.st && p'.past == p.past
    ensures OnWire(job, gen, p) == OnWire(job, gen, p')
    ensures forall n: u64 :: CountsFailure(job, gen, p, n) <==> CountsFailure(job, gen, p', n)
  {
    hide Framing.Encode, Wrap64;
  }

  predicate AllCounts(cfg: Config, init: Store, w: World) {
    && Shaped(cfg, w)
    && forall i :: 0 <= i < |w.procs| ==> CountHoldsAt(cfg, init, w, i)
  }

  predicate CountHoldsAt(cfg: Config, init: Store, w: World, i: nat)
    requires Shaped(cfg, w) && i < |w.procs|
  {
    var file := cfg.jobs[i].file;
    CountHolds(cfg.jobs[i], cfg.gens[i], w.procs[i], Lookup(init, file), Lookup(w.store, file))
  }

  lemma OwnStepCounts(cfg: Config, init: Store, w: World, a: Action)
    requires cfg.WellFormed() && Inv(cfg, init, w) && Enabled(w, a) && !a.Collect?
    requires CountHoldsAt(cfg, init, w, a.i) && Shaped(cfg, Apply(cfg, w, a))
    ensures CountHoldsAt(cfg, init, Apply(cfg, w, a), a.i)
  {
    hide ProcInv, CountHolds, Runnable, DialStep, SendStep, ServeStep, ReceiveStep, BreakStep, DeliveredBy;
    var job, gen, p := cfg.jobs[a.i], cfg.gens[a.i], w.procs[a.i];
    var orig, cur := Lookup(init, job.file), Lookup(w.store, job.file);
    assert ProcHolds(cfg, init, w, a.i);
    match a
    case Dial(_, ok) =>
      Untouched(job, gen, p, orig, cur);
      DialCounts(job, gen, p, ok, cur);
    case Send(_, outcome) => SendCounts(job, gen, p, outcome, orig, cur);
    case ServeOne(_, choice) =>
      ServeCounts(job, gen, p, w.store, choice, orig, Lookup(Apply(cfg, w, a).store, job.file));
    case Receive(_) => ReceiveCounts(job, gen, p, orig, cur);
    case Break(_) => BreakCounts(job, gen, p, orig, cur);
    case Deliver(_) => DeliverCounts(job, gen, p, orig, cur);
  }

  lemma DeliverCounts(job: Job, gen: Source, p: Proc, orig: Option<seq<byte>>, cur: Option<seq<byte>>)
    requires Runnable(job, p) && p.phase.Stopped? && CountHolds(job, gen, p, orig, cur)
    ensures Runnable(job, p.(phase := Delivered(p.phase.resp)))
    ensures CountHolds(job, gen, p.(phase := Delivered(p.phase.resp)), orig, cur)
  {
    hide Framing.Encode, Wrap64, AtServer;
  }

  lemma StepKeepsCounts(cfg: Config, init: Store, w: World, a: Action)
    requires cfg.WellFormed() && Inv(cfg, init, w) && AllCounts(cfg, init, w) && Enabled(w, a)
    requires Shaped(cfg, Apply(cfg, w, a))
    ensures AllCounts(cfg, init, Apply(cfg, w, a))
  {
    hide Inv, CountHolds, Runnable, DialStep, SendStep, ServeStep, ReceiveStep, BreakStep;
    var w' := Apply(cfg, w, a);
    if !a.Collect? {
      OwnStepCounts(cfg, init, w, a);
      forall j | 0 <= j < |w.procs| && j != a.i
        ensures CountHoldsAt(cfg, init, w', j)
      {
        assert CountHoldsAt(cfg, init, w, j) && cfg.jobs[j].file != cfg.jobs[a.i].file;
        if !a.Deliver? {
          ClientStepKeeps(cfg, init, w, a);
        }
      }
    } else {
      assert forall j :: 0 <= j < |w.procs| ==> CountHoldsAt(cfg, init, w, j) ==> CountHoldsAt(cfg, init, w', j);
    }
  }

  lemma {:induction false} RunKeepsCounts(cfg: Config, store: Store, ws: seq<World>, actions: seq<Action>, k: nat)
    requires cfg.WellFormed() && IsRun(cfg, store, ws, actions) && k < |ws|
    ensures Inv(cfg, store, ws[k]) && AllCounts(cfg, store, ws[k])
  {
    hide IsRun, Inv, Apply, Enabled, CountHolds;
    RunLength(cfg, store, ws, actions);
    RunKeepsInv(cfg, store, ws, actions, k);
    InvIsShaped(cfg, store, ws[k]);
    if k == 0 {
      CountsAtStart(cfg, store);
    } else {
      RunStep(cfg, store, ws, actions, k - 1);
      RunKeepsCounts(cfg, store, ws, actions, k - 1);
      StepKeepsCounts(cfg, store, ws[k - 1], actions[k - 1]);
    }
  }

  lemma CountsAtStart(cfg: Config, store: Store)
    requires cfg.WellFormed()
    ensures AllCounts(cfg, store, Start(cfg, store))
  {
    hide CountsFailure, Unserved;
  }

  // ---------------------------------------------------------------------------
  // What the counts are worth.

  /** The first n generated bytes are in the file, over what it held before. A file not yet
    * created holds none of them. */
  predicate HoldsBytes(gen: Source, orig: Option<seq<byte>>, cur: Option<seq<byte>>, n: nat) {
    cur == Written(gen, orig, n) || (n == 0 && cur == orig)
  }

  /** The count is right up to the data of one request. */
  predicate CountIsRight(job: Job, st: State, bytesSent: u64, n: nat)
    requires Valid(job, st)
  {
    n <= bytesSent <= n + Chunk(job, st) && bytesSent <= job.toSend
  }

  lemma WhatTheFileHolds(job: Job, gen: Source, p: Proc, orig: Option<seq<byte>>, cur: Option<seq<byte>>)
    returns (n: nat)
    requires ProcInv(job, gen, p, orig, cur) && CountHolds(job, gen, p, orig, cur)
    requires p.phase.Stopped? || p.phase.Delivered?
    ensures n <= job.toSend && HoldsBytes(gen, orig, cur, n)
    ensures CountIsRight(job, p.st, p.phase.resp.bytesSent, n) <==> !HeaderLost(job, gen, p)
  {
    hide Framing.Encode, Wrap64, Written;
    if p.phase.resp.err.None? {
      n := job.toSend;
    } else if p.st.Writing? {
      n := BytesOfWrite(job, gen, p, orig, cur);
    } else {
      n := Accounting.Base(p.st);
    }
  }

  lemma BytesOfWrite(job: Job, gen: Source, p: Proc, orig: Option<seq<byte>>, cur: Option<seq<byte>>)
    returns (n: nat)
    requires ProcInv(job, gen, p, orig, cur) && CountHolds(job, gen, p, orig, cur)
    requires (p.phase.Stopped? || p.phase.Delivered?) && p.phase.resp.err.Some? && p.st.Writing?
    ensures n <= job.toSend && HoldsBytes(gen, orig, cur, n)
    ensures CountIsRight(job, p.st, p.phase.resp.bytesSent, n) <==> !HeaderLost(job, gen, p)
  {
    hide Framing.Encode, Wrap64, Written;
    var req := Request(job, gen, p.st);
    var sent := OnWire(job, gen, p);
    if sent < |Framing.Encode(req)| {
      n := p.st.total;
      Accounting.CutWriteExact(n, req, sent, p.phase.resp.bytesSent);
    } else {
      WrapSmall(p.st.total + Chunk(job, p.st));
      if cur == Written(gen, orig, p.st.total) {
        n := p.st.total;
      } else {
        n := p.st.total + Chunk(job, p.st);
      }
    }
  }

  lemma WrapSmall(x: nat)
    requires x < TWO_64
    ensures Wrap64(x) == x
  {
  }

  predicate HasReturned(w: World, i: nat) {
    i < |w.procs| && (w.procs[i].phase.Stopped? || w.procs[i].phase.Delivered?)
  }

  /** In every world of every run, for every client that has returned: its file holds its old
    * content with some first part of its bytes written over it, and the client's count is right
    * about that part, up to the data of the one request it was at, exactly when it is not true
    * that a write broke off before its header was on the wire. */
  lemma ReportedIsWritten(cfg: Config, store: Store, ws: seq<World>, actions: seq<Action>, k: nat, i: nat)
    returns (n: nat)
    requires cfg.WellFormed() && IsRun(cfg, store, ws, actions) && k < |ws|
    requires i < |cfg.jobs| && HasReturned(ws[k], i)
    ensures Runnable(cfg.jobs[i], ws[k].procs[i])
    ensures var job, gen, p := cfg.jobs[i], cfg.gens[i], ws[k].procs[i];
            && n <= job.toSend
            && HoldsBytes(gen, Lookup(store, job.file), Lookup(ws[k].store, job.file), n)
            && (CountIsRight(job, p.st, p.phase.resp.bytesSent, n) <==> !HeaderLost(job, gen, p))
  {
    hide IsRun, Runnable, ProcInv, CountHolds, HeaderLost, HoldsBytes, CountIsRight, DeliveredBy;
    RunKeepsCounts(cfg, store, ws, actions, k);
    assert ProcHolds(cfg, store, ws[k], i) && CountHoldsAt(cfg, store, ws[k], i);
    var job := cfg.jobs[i];
    n := WhatTheFileHolds(job, cfg.gens[i], ws[k].procs[i], Lookup(store, job.file), Lookup(ws[k].store, job.file));
  }
}
