/** The order in which different clients act does not matter: two runs in which every client and
  * its side of the server do the same things in the same order lead to the same clients and the
  * same files. */
module Confluence {
  import opened Marshal
  import Fxp
  import Framing
  import opened Server
  import opened Transfer
  import opened Simulate

  /** The action is a step of client i, of its connection, or of the server on that connection. */
  predicate Concerns(a: Action, i: nat) {
    !a.Collect? && a.i == i
  }

  /** What client i and the server on its connection do, in order. */
  function Restrict(actions: seq<Action>, i: nat): seq<Action> {
    if actions == [] then []
    else
      var last := actions[|actions| - 1];
      Restrict(actions[..|actions| - 1], i) + (if Concerns(last, i) then [last] else [])
  }

  /** Both worlds show the same to client i: its own state, its connection, and its file. */
  predicate AgreeAt(cfg: Config, v: World, w: World, i: nat)
    requires i < |v.procs| == |w.procs| == |cfg.jobs|
  {
    v.procs[i] == w.procs[i] && Lookup(v.store, cfg.jobs[i].file) == Lookup(w.store, cfg.jobs[i].file)
  }

  /** A request's effect on a file depends on what the file holds and on nothing else. */
  lemma PerformPointwise(handles: Handles, s: Store, t: Store, p: Fxp.Packet, choice: Choice, f: seq<byte>)
    requires Lookup(s, f) == Lookup(t, f)
    ensures var a, b := Perform(handles, s, p, choice), Perform(handles, t, p, choice);
            a.handles == b.handles && a.reply == b.reply && Lookup(a.store, f) == Lookup(b.store, f)
  {
    hide Overwrite;
  }

  lemma ServePointwise(p: Proc, s: Store, t: Store, choice: Choice, f: seq<byte>)
    requires Lookup(s, f) == Lookup(t, f)
    ensures var (p1, s1) := ServeStep(p, s, choice);
            var (p2, s2) := ServeStep(p, t, choice);
            p1 == p2 && Lookup(s1, f) == Lookup(s2, f)
  {
    hide Framing.ReadPacketSpec, Decode, Perform;
    var body := Framing.ReadPacketSpec(Framing.Stream(p.toServer, Framing.EOF)).bytes;
    if Decode(body).Some? {
      PerformPointwise(p.handles, s, t, Decode(body).value, choice, f);
    }
  }

  /** The same action leads client i from worlds that agree to worlds that agree. */
  lemma SameStep(cfg: Config, v: World, w: World, a: Action, i: nat)
    requires Shaped(cfg, v) && Shaped(cfg, w) && Enabled(v, a) && Enabled(w, a)
    requires Concerns(a, i) && i < |cfg.jobs| && AgreeAt(cfg, v, w, i)
    ensures var v', w' := Apply(cfg, v, a), Apply(cfg, w, a);
            |v'.procs| == |w'.procs| == |cfg.jobs| && AgreeAt(cfg, v', w', i)
  {
    hide Runnable, DialStep, SendStep, ServeStep, ReceiveStep, BreakStep;
    if a.ServeOne? {
      ServePointwise(v.procs[i], v.store, w.store, a.choice, cfg.jobs[i].file);
    }
  }

  /** What the others do does not show. */
  lemma OthersStep(cfg: Config, init: Store, w: World, a: Action, i: nat)
    requires cfg.WellFormed() && Inv(cfg, init, w) && Enabled(w, a) && !Concerns(a, i) && i < |cfg.jobs|
    ensures |Apply(cfg, w, a).procs| == |cfg.jobs| && AgreeAt(cfg, w, Apply(cfg, w, a), i)
  {
    hide ProcHolds, ProcInv, Runnable, DialStep, SendStep, ServeStep, ReceiveStep, BreakStep, DeliveredBy;
    if !a.Collect? && !a.Deliver? {
      ClientStepKeeps(cfg, init, w, a);
      assert cfg.jobs[i].file != cfg.jobs[a.i].file;
    }
  }

  /** The restriction to client i determines what client i sees, in every prefix of both runs. */
  lemma {:induction false} ClientsAgree(cfg: Config, store: Store, vs: seq<World>, xs: seq<Action>, m: nat,
                                        ws: seq<World>, ys: seq<Action>, n: nat, i: nat)
    requires cfg.WellFormed() && i < |cfg.jobs| && IsRun(cfg, store, vs, xs) && IsRun(cfg, store, ws, ys)
    requires m <= |xs| && n <= |ys| && Restrict(xs[..m], i) == Restrict(ys[..n], i)
    ensures |vs[m].procs| == |ws[n].procs| == |cfg.jobs| && AgreeAt(cfg, vs[m], ws[n], i)
    decreases m + n
  {
    hide IsRun, Apply, Enabled, Inv, Shaped, Concerns, Lookup;
    RunLength(cfg, store, vs, xs);
    RunLength(cfg, store, ws, ys);
    if m > 0 {
      LastStep(cfg, store, vs, xs, m - 1, i);
    }
    if n > 0 {
      LastStep(cfg, store, ws, ys, n - 1, i);
    }
    if m > 0 && !Concerns(xs[m - 1], i) {
      ClientsAgree(cfg, store, vs, xs, m - 1, ws, ys, n, i);
    } else if n > 0 && !Concerns(ys[n - 1], i) {
      ClientsAgree(cfg, store, vs, xs, m, ws, ys, n - 1, i);
    } else if m > 0 && n > 0 {
      LastIsSame(Restrict(xs[..m - 1], i), xs[m - 1], Restrict(ys[..n - 1], i), ys[n - 1]);
      ClientsAgree(cfg, store, vs, xs, m - 1, ws, ys, n - 1, i);
      SameStep(cfg, vs[m - 1], ws[n - 1], xs[m - 1], i);
    }
  }

  lemma LastIsSame(s: seq<Action>, a: Action, t: seq<Action>, b: Action)
    requires s + [a] == t + [b]
    ensures s == t && a == b
  {
    assert s == (s + [a])[..|s|] && (s + [a])[|s|] == a;
    assert t == (t + [b])[..|t|] && (t + [b])[|t|] == b;
  }

  /** One step of a run, seen from client i. */
  lemma LastStep(cfg: Config, store: Store, ws: seq<World>, actions: seq<Action>, k: nat, i: nat)
    requires cfg.WellFormed() && i < |cfg.jobs| && IsRun(cfg, store, ws, actions) && k < |actions|
    ensures Restrict(actions[..k + 1], i)
            == Restrict(actions[..k], i) + (if Concerns(actions[k], i) then [actions[k]] else [])
    ensures Shaped(cfg, ws[k]) && Enabled(ws[k], actions[k]) && ws[k + 1] == Apply(cfg, ws[k], actions[k])
    ensures |ws[k].procs| == |ws[k + 1].procs| == |cfg.jobs|
    ensures !Concerns(actions[k], i) ==> AgreeAt(cfg, ws[k], ws[k + 1], i)
  {
    hide IsRun, Apply, Enabled, Inv, AgreeAt, Runnable;
    RunStep(cfg, store, ws, actions, k);
    assert actions[..k + 1][..k] == actions[..k];
    RunKeepsInv(cfg, store, ws, actions, k);
    RunKeepsInv(cfg, store, ws, actions, k + 1);
    InvIsShaped(cfg, store, ws[k + 1]);
    if !Concerns(actions[k], i) {
      OthersStep(cfg, store, ws[k], actions[k], i);
    }
  }

  /** Two runs from the same start in which every client does the same in the same order, however
    * the clients are interleaved with each other and with the collector, end with the same
    * clients, the same files, and the same responses collected or on the channel. */
  lemma RunsAreConfluent(cfg: Config, store: Store, vs: seq<World>, xs: seq<Action>, ws: seq<World>, ys: seq<Action>)
    requires cfg.WellFormed() && IsRun(cfg, store, vs, xs) && IsRun(cfg, store, ws, ys)
    requires forall i :: 0 <= i < |cfg.jobs| ==> Restrict(xs, i) == Restrict(ys, i)
    ensures var v, w := vs[|xs|], ws[|ys|];
            && v.procs == w.procs && v.store == w.store
            && multiset(v.collected + v.chan) == multiset(w.collected + w.chan)
  {
    hide IsRun, Inv, Restrict, AgreeAt, Shaped;
    RunLength(cfg, store, vs, xs);
    RunLength(cfg, store, ws, ys);
    var v, w := vs[|xs|], ws[|ys|];
    RunKeepsInv(cfg, store, vs, xs, |xs|);
    RunKeepsInv(cfg, store, ws, ys, |ys|);
    InvIsShaped(cfg, store, v);
    InvIsShaped(cfg, store, w);
    assert xs[..|xs|] == xs && ys[..|ys|] == ys;
    forall i | 0 <= i < |cfg.jobs|
      ensures AgreeAt(cfg, v, w, i)
    {
      ClientsAgree(cfg, store, vs, xs, |xs|, ws, ys, |ys|, i);
    }
    AgreeEverywhere(cfg, store, v, w);
  }

  /** Worlds that show the same to every client hold the same, the rest of the store being as it
    * was at the start in both. */
  lemma AgreeEverywhere(cfg: Config, init: Store, v: World, w: World)
    requires Inv(cfg, init, v) && Inv(cfg, init, w) && |v.procs| == |w.procs| == |cfg.jobs|
    requires forall i :: 0 <= i < |cfg.jobs| ==> AgreeAt(cfg, v, w, i)
    ensures v.procs == w.procs && v.store == w.store
    ensures multiset(v.collected + v.chan) == multiset(w.collected + w.chan)
  {
    hide ProcHolds, Runnable, DeliveredBy, Lookup;
    forall i | 0 <= i < |cfg.jobs|
      ensures v.procs[i] == w.procs[i]
    {
      assert AgreeAt(cfg, v, w, i);
    }
    forall f: seq<byte>
      ensures Lookup(v.store, f) == Lookup(w.store, f)
    {
      if i :| 0 <= i < |cfg.jobs| && f == cfg.jobs[i].file {
        assert AgreeAt(cfg, v, w, i);
      }
    }
    SameFiles(v.store, w.store);
  }

  lemma SameFiles(s: Store, t: Store)
    requires forall f: seq<byte> :: Lookup(s, f) == Lookup(t, f)
    ensures s == t
  {
    forall f: seq<byte>
      ensures f in s <==> f in t
      ensures f in s ==> s[f] == t[f]
    {
      assert Lookup(s, f) == Lookup(t, f);
    }
  }
}
