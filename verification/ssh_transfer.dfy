/** The methods of `v2/simulator/ssh-transfer.go` and the theorem about a simulation as a whole:
  * from the number of bytes to send, through the partition, the clients and the bytes on the
  * wire, to the files the server ends up with. */
module SshTransfer {
  import opened Wrappers
  import opened Marshal
  import Framing
  import opened Protocol
  import opened Server
  import opened Transfer
  import opened Simulate
  import opened Outcome
  import Healthy
  import SshClient
  import Conn
  import Confluence
  import Replay
  import Reporting

  const MAX_CLIENTS: nat := 2
  /** 1 * bytesize.MB. */
  const MIN_SEND_SIZE: u64 := 0x10_0000

  // ---------------------------------------------------------------------------
  // Jobs.

  function Text(s: string): seq<byte> {
    seq(|s|, k requires 0 <= k < |s| => (s[k] as int % 0x100) as byte)
  }

  function Decimal(n: nat): (b: seq<byte>)
    ensures |b| >= 1
  {
    if n < 10 then [(48 + n) as byte] else Decimal(n / 10) + [(48 + n % 10) as byte]
  }

  lemma {:induction false} DecimalInjective(m: nat, n: nat)
    requires Decimal(m) == Decimal(n)
    ensures m == n
  {
    var b := Decimal(m);
    var last := b[|b| - 1] as int - 48;
    assert last == m % 10 == n % 10;
    if m < 10 || n < 10 {
    } else {
      assert Decimal(m / 10) == b[..|b| - 1] == Decimal(n / 10);
      DecimalInjective(m / 10, n / 10);
    }
  }

  function ClientName(i: nat): seq<byte> {
    Text("alphasoc-") + Decimal(i)
  }

  function FileName(i: nat): seq<byte> {
    Text("flightsim-ssh-transfer-") + Decimal(i)
  }

  lemma FileNameInjective(i: nat, j: nat)
    requires FileName(i) == FileName(j)
    ensures i == j
  {
    var n := |Text("flightsim-ssh-transfer-")|;
    assert FileName(i)[n..] == Decimal(i) && FileName(j)[n..] == Decimal(j);
    DecimalInjective(i, j);
  }

  /** How much each client sends. */
  function Sizes(sendSize: u64): (sizes: seq<u64>)
    requires sendSize > 0
    ensures 1 <= |sizes| <= MAX_CLIENTS
  {
    Conn.NeverWraps(MAX_CLIENTS, sendSize, MIN_SEND_SIZE);
    Conn.PartitionWithinLimit(MAX_CLIENTS, sendSize, MIN_SEND_SIZE);
    var chunk := Conn.FinalChunk(MAX_CLIENTS, sendSize, MIN_SEND_SIZE);
    Conn.ChunksPartition(sendSize, chunk);
    Conn.Chunks(sendSize, chunk)
  }

  /** The split in numbers: up to 1 MB goes to a single client; otherwise the chunk size is the
    * least multiple of 1 MB of which two will do, and a second client takes the rest. */
  lemma SizesInNumbers(sendSize: u64)
    requires sendSize > 0
    ensures Sizes(sendSize)
            == if sendSize <= 0x10_0000 then [sendSize]
               else
                 var c := (sendSize + 0x1F_FFFF) / 0x20_0000 * 0x10_0000;
                 if c < sendSize < 2 * c then [c, sendSize - c] else [c, c]
  {
  }

  /** "alphasoc-0" and "alphasoc-1". */
  lemma ClientNames(i: nat)
    requires i < MAX_CLIENTS
    ensures ClientName(i) == [97, 108, 112, 104, 97, 115, 111, 99, 45] + [(48 + i) as byte]
  {
  }

  /** "flightsim-ssh-transfer-0" and "flightsim-ssh-transfer-1". */
  lemma FileNames(i: nat)
    requires i < MAX_CLIENTS
    ensures FileName(i) == [102, 108, 105, 103, 104, 116, 115, 105, 109, 45, 115, 115, 104, 45,
                            116, 114, 97, 110, 115, 102, 101, 114, 45] + [(48 + i) as byte]
  {
  }

  function JobAt(sizes: seq<u64>, i: nat): Job
    requires i < |sizes|
  {
    Job(ClientName(i), FileName(i), sizes[i])
  }

  function JobsFor(sizes: seq<u64>): (jobs: seq<Job>)
    ensures |jobs| == |sizes|
  {
    seq(|sizes|, i requires 0 <= i < |sizes| => JobAt(sizes, i))
  }

  /** Client i goes by the name that ends in i, writes the file whose name ends in i, and has the
    * i-th share. */
  lemma JobInBytes(sendSize: u64, i: nat)
    requires sendSize > 0 && i < |Sizes(sendSize)|
    ensures JobsFor(Sizes(sendSize))[i]
            == Job([97, 108, 112, 104, 97, 115, 111, 99, 45] + [(48 + i) as byte],
                   [102, 108, 105, 103, 104, 116, 115, 105, 109, 45, 115, 115, 104, 45,
                    116, 114, 97, 110, 115, 102, 101, 114, 45] + [(48 + i) as byte],
                   Sizes(sendSize)[i])
  {
    hide Sizes, ClientName, FileName;
    ClientNames(i);
    FileNames(i);
  }

  lemma ConfigIsWellFormed(sendSize: u64, gens: seq<Source>)
    requires sendSize > 0 && |gens| == |Sizes(sendSize)|
    ensures Config(JobsFor(Sizes(sendSize)), gens).WellFormed()
  {
    hide FileName;
    var jobs := JobsFor(Sizes(sendSize));
    forall i, j | 0 <= i < j < |jobs|
      ensures jobs[i].file != jobs[j].file
    {
      if jobs[i].file == jobs[j].file {
        FileNameInjective(i, j);
      }
    }
    forall i | 0 <= i < |jobs|
      ensures ShortNames(jobs[i])
    {
      ShortFileName(i);
    }
  }

  lemma ShortFileName(i: nat)
    requires i < 10
    ensures |FileName(i)| <= MAX_HANDLE
  {
  }

  // ---------------------------------------------------------------------------
  // The collector's sums.

  /** totalBytesSent after receiving these responses, in uint64 arithmetic. */
  function TotalBytes(s: seq<WriteResponse>): u64 {
    if s == [] then 0 else Wrap64(TotalBytes(s[..|s| - 1]) + s[|s| - 1].bytesSent)
  }

  /** The clients whose errors are reported, in order of arrival. */
  function FailedNames(s: seq<WriteResponse>): seq<seq<byte>> {
    if s == [] then []
    else FailedNames(s[..|s| - 1]) + (if s[|s| - 1].err.Some? then [s[|s| - 1].clientName] else [])
  }

  lemma OneMoreResponse(s: seq<WriteResponse>, i: nat)
    requires i < |s|
    ensures TotalBytes(s[..i + 1]) == Wrap64(TotalBytes(s[..i]) + s[i].bytesSent)
    ensures FailedNames(s[..i + 1]) == FailedNames(s[..i]) + (if s[i].err.Some? then [s[i].clientName] else [])
  {
    assert s[..i + 1][..i] == s[..i];
  }

  function SumBytes(s: seq<WriteResponse>): nat {
    if s == [] then 0 else s[0].bytesSent + SumBytes(s[1..])
  }

  lemma {:induction false} SumBytesAppend(a: seq<WriteResponse>, b: seq<WriteResponse>)
    ensures SumBytes(a + b) == SumBytes(a) + SumBytes(b)
  {
    if a == [] {
      assert a + b == b;
    } else {
      SumBytesAppend(a[1..], b);
      assert (a + b)[1..] == a[1..] + b;
    }
  }

  lemma {:induction false} TotalIsSum(s: seq<WriteResponse>)
    ensures TotalBytes(s) == Wrap64(SumBytes(s))
  {
    if s == [] {
    } else {
      var front, last := s[..|s| - 1], s[|s| - 1];
      TotalIsSum(front);
      SumBytesAppend(front, [last]);
      assert s == front + [last];
      assert SumBytes([last]) == last.bytesSent;
      WrapAdd(last.bytesSent, SumBytes(front));
    }
  }

  lemma {:induction false} SumBytesPermuted(s: seq<WriteResponse>, t: seq<WriteResponse>)
    requires multiset(s) == multiset(t)
    ensures SumBytes(s) == SumBytes(t)
  {
    if s == [] {
      assert |t| == |multiset(t)| == 0;
    } else {
      var k := FindFirst(s, t);
      var rest := t[..k] + t[k + 1..];
      SumBytesPermuted(s[1..], rest);
      TakeOut(t, k);
    }
  }

  /** The first of these responses, found in another order of them. */
  lemma FindFirst(s: seq<WriteResponse>, t: seq<WriteResponse>) returns (k: nat)
    requires multiset(s) == multiset(t) && s != []
    ensures k < |t| && t[k] == s[0] && multiset(s[1..]) == multiset(t[..k] + t[k + 1..])
  {
    hide SumBytes;
    assert s[0] in multiset(t);
    k :| 0 <= k < |t| && t[k] == s[0];
    assert multiset(s) == multiset(s[1..]) + multiset{s[0]} by {
      assert s == [s[0]] + s[1..];
    }
    assert multiset(t) == multiset(t[..k] + t[k + 1..]) + multiset{s[0]} by {
      TakeOut(t, k);
    }
    MultisetCancel(multiset(s[1..]), multiset(t[..k] + t[k + 1..]), multiset{s[0]});
  }

  lemma TakeOut(t: seq<WriteResponse>, k: nat)
    requires k < |t|
    ensures var rest := t[..k] + t[k + 1..];
            && multiset(t) == multiset(rest) + multiset{t[k]}
            && SumBytes(t) == t[k].bytesSent + SumBytes(rest)
  {
    var back := [t[k]] + t[k + 1..];
    assert t == t[..k] + back;
    SumBytesAppend(t[..k], back);
    SumBytesAppend(t[..k], t[k + 1..]);
    assert back[1..] == t[k + 1..];
  }

  lemma {:induction false} FailedNamesExact(s: seq<WriteResponse>)
    ensures FailedNames(s) == [] <==> NoErrors(s)
  {
    if s == [] {
    } else {
      var front := s[..|s| - 1];
      FailedNamesExact(front);
      assert NoErrors(s) <==> NoErrors(front) && s[|s| - 1].err.None? by {
        assert forall k :: 0 <= k < |front| ==> front[k] == s[k];
      }
    }
  }

  lemma {:induction false} FailedNamesAppend(a: seq<WriteResponse>, b: seq<WriteResponse>)
    ensures FailedNames(a + b) == FailedNames(a) + FailedNames(b)
    decreases |b|
  {
    if b == [] {
      assert a + b == a;
    } else {
      var front := b[..|b| - 1];
      FailedNamesAppend(a, front);
      assert (a + b)[..|a + b| - 1] == a + front;
    }
  }

  lemma {:induction false} FailedNamesPermuted(s: seq<WriteResponse>, t: seq<WriteResponse>)
    requires multiset(s) == multiset(t)
    ensures multiset(FailedNames(s)) == multiset(FailedNames(t))
  {
    hide FailedNames;
    if s == [] {
      assert |t| == |multiset(t)| == 0;
    } else {
      var k := FindFirst(s, t);
      var rest := t[..k] + t[k + 1..];
      FailedNamesPermuted(s[1..], rest);
      assert s == [s[0]] + s[1..] && t == t[..k] + ([t[k]] + t[k + 1..]);
      FailedNamesAppend([s[0]], s[1..]);
      FailedNamesAppend(t[..k], [t[k]] + t[k + 1..]);
      FailedNamesAppend([t[k]], t[k + 1..]);
      FailedNamesAppend(t[..k], t[k + 1..]);
    }
  }

  /** At these positions, in ascending order, are the responses that bear an error, and these are
    * the names of their clients. */
  predicate FailuresAt(s: seq<WriteResponse>, names: seq<seq<byte>>, ks: seq<nat>) {
    && |ks| == |names|
    && (forall i, j :: 0 <= i < j < |ks| ==> ks[i] < ks[j])
    && (forall i :: 0 <= i < |ks| ==> ks[i] < |s| && names[i] == s[ks[i]].clientName)
    && (forall k :: 0 <= k < |s| ==> (s[k].err.Some? <==> k in ks))
  }

  /** The clients reported are those whose responses bear an error, in order of arrival. */
  lemma {:induction false} FailedNamesInOrder(s: seq<WriteResponse>) returns (ks: seq<nat>)
    ensures FailuresAt(s, FailedNames(s), ks)
  {
    hide FailuresAt;
    if s == [] {
      ks := [];
      assert FailuresAt(s, [], ks) by {
        NoFailures();
      }
    } else {
      var front, last := s[..|s| - 1], s[|s| - 1];
      ks := FailedNamesInOrder(front);
      OneMoreFailure(front, last, FailedNames(front), ks);
      assert s == front + [last] && FailedNames(front) + [] == FailedNames(front);
      if last.err.Some? {
        ks := ks + [|front|];
      }
    }
  }

  lemma NoFailures()
    ensures FailuresAt([], [], [])
  {
  }

  lemma OneMoreFailure(s: seq<WriteResponse>, r: WriteResponse, names: seq<seq<byte>>, ks: seq<nat>)
    requires FailuresAt(s, names, ks)
    ensures if r.err.Some? then FailuresAt(s + [r], names + [r.clientName], ks + [|s|])
            else FailuresAt(s + [r], names, ks)
  {
    assert forall k :: 0 <= k < |s| ==> (s + [r])[k] == s[k];
    assert forall k :: k in ks + [|s|] <==> k in ks || k == |s|;
  }

  /** Whatever the order in which the responses arrive, the total is the same, the same clients
    * are reported as failed, and so the verdict is the same. */
  lemma ArrivalOrderIrrelevant(s: seq<WriteResponse>, t: seq<WriteResponse>)
    requires multiset(s) == multiset(t)
    ensures TotalBytes(s) == TotalBytes(t)
    ensures multiset(FailedNames(s)) == multiset(FailedNames(t))
    ensures FailedNames(s) == [] <==> FailedNames(t) == []
  {
    TotalIsSum(s);
    TotalIsSum(t);
    SumBytesPermuted(s, t);
    FailedNamesPermuted(s, t);
    assert |FailedNames(s)| == |multiset(FailedNames(s))| == |multiset(FailedNames(t))| == |FailedNames(t)|;
  }

  // ---------------------------------------------------------------------------
  // The theorem.

  /** The world a run ends in, once the collector has received a response from everyone. */
  ghost predicate Ends(cfg: Config, store: Store, ws: seq<World>, actions: seq<Action>, w: World) {
    IsRun(cfg, store, ws, actions) && w == ws[|actions|] && |w.collected| == |cfg.jobs|
  }

  /** What a file held before the simulation; an absent file counts as empty. */
  function OldContent(store: Store, i: nat): seq<byte> {
    OrEmpty(Lookup(store, FileName(i)))
  }

  /** Under every interleaving and every choice the server may make: if Simulate returns nil,
    * then there is one file for each client, under its own name; it holds the bytes that client
    * generated, written from offset 0 over what was there before, and nothing else exactly when
    * no longer file was there; all other files are untouched; and the shares add up to the size
    * asked for, which is also the total the collector has counted. The clients' connections are
    * queues of bytes here; that it does not matter in what chunks a client gets to read them is
    * stated by Framing.ReadFull and Framing.ReadPacket. */
  lemma SimulateDelivers(sendSize: u64, gens: seq<Source>, store: Store, ws: seq<World>, actions: seq<Action>, w: World)
    requires sendSize > 0 && |gens| == |Sizes(sendSize)|
    requires Ends(Config(JobsFor(Sizes(sendSize)), gens), store, ws, actions, w) && FailedNames(w.collected) == []
    ensures Conn.Sum(Sizes(sendSize)) == sendSize
    ensures forall i :: 0 <= i < |gens| ==>
              var data := Data(gens[i], Sizes(sendSize)[i]);
              && FileName(i) in w.store
              && w.store[FileName(i)] == Overwrite(OldContent(store, i), 0, data)
              && (w.store[FileName(i)] == data <==> |OldContent(store, i)| <= Sizes(sendSize)[i])
    ensures forall f: seq<byte> :: (forall i :: 0 <= i < |gens| ==> f != FileName(i)) ==>
              Lookup(w.store, f) == Lookup(store, f)
    ensures TotalBytes(w.collected) == sendSize
  {
    hide FileName, Sizes, Inv, IsRun, Overwrite;
    var cfg := Config(JobsFor(Sizes(sendSize)), gens);
    ConfigIsWellFormed(sendSize, gens);
    AtEnd(cfg, store, ws, actions, w);
    FailedNamesExact(w.collected);
    EndToEnd(cfg, store, w);
    SizesAddUp(sendSize);
    forall i | 0 <= i < |gens|
      ensures var data := Data(gens[i], Sizes(sendSize)[i]);
              && FileName(i) in w.store
              && w.store[FileName(i)] == Overwrite(OldContent(store, i), 0, data)
              && (w.store[FileName(i)] == data <==> |OldContent(store, i)| <= Sizes(sendSize)[i])
    {
      assert cfg.jobs[i].file == FileName(i);
    }
    forall f: seq<byte> | forall i :: 0 <= i < |gens| ==> f != FileName(i)
      ensures Lookup(w.store, f) == Lookup(store, f)
    {
      assert forall i :: 0 <= i < |cfg.jobs| ==> cfg.jobs[i].file == FileName(i);
    }
    TotalOnSuccess(cfg, store, w, Sizes(sendSize));
  }

  /** The lengths of the first n clients' files. */
  function FileSizes(store: Store, n: nat): seq<nat> {
    seq(n, i requires 0 <= i < n => |OldContent(store, i)|)
  }

  /** After a nil error the files' sizes add up to the size asked for exactly when no client's
    * file was longer before than its share; otherwise they add up to more. */
  lemma FilesAddUp(sendSize: u64, gens: seq<Source>, store: Store, ws: seq<World>, actions: seq<Action>, w: World)
    requires sendSize > 0 && |gens| == |Sizes(sendSize)|
    requires Ends(Config(JobsFor(Sizes(sendSize)), gens), store, ws, actions, w) && FailedNames(w.collected) == []
    ensures Conn.Sum(FileSizes(w.store, |gens|)) >= sendSize
    ensures Conn.Sum(FileSizes(w.store, |gens|)) == sendSize <==>
              forall i :: 0 <= i < |gens| ==> |OldContent(store, i)| <= Sizes(sendSize)[i]
  {
    hide FileName, Sizes, IsRun, Overwrite, TotalBytes, FailedNames;
    SimulateDelivers(sendSize, gens, store, ws, actions, w);
    forall i | 0 <= i < |gens|
      ensures var now, before := |OldContent(w.store, i)|, |OldContent(store, i)|;
              now == if before <= Sizes(sendSize)[i] then Sizes(sendSize)[i] else before
    {
      OverwriteExact(OldContent(store, i), Data(gens[i], Sizes(sendSize)[i]));
    }
    SumDominates(FileSizes(w.store, |gens|), Sizes(sendSize));
  }

  lemma {:induction false} SumDominates(a: seq<nat>, b: seq<nat>)
    requires |a| == |b| && forall i :: 0 <= i < |a| ==> a[i] >= b[i]
    ensures Conn.Sum(a) >= Conn.Sum(b)
    ensures Conn.Sum(a) == Conn.Sum(b) <==> forall i :: 0 <= i < |a| ==> a[i] == b[i]
  {
    if a == [] {
    } else {
      SumDominates(a[1..], b[1..]);
      assert (forall i :: 0 <= i < |a| ==> a[i] == b[i]) <==> a == b;
      assert a == [a[0]] + a[1..] && b == [b[0]] + b[1..];
    }
  }

  /** Whatever the server's files are before, some run ends with a nil error. */
  lemma SimulateCanDeliver(sendSize: u64, gens: seq<Source>, store: Store)
    returns (ws: seq<World>, actions: seq<Action>)
    requires sendSize > 0 && |gens| == |Sizes(sendSize)|
    ensures |ws| == |actions| + 1
    ensures Ends(Config(JobsFor(Sizes(sendSize)), gens), store, ws, actions, ws[|actions|])
    ensures FailedNames(ws[|actions|].collected) == []
  {
    hide Sizes;
    var cfg := Config(JobsFor(Sizes(sendSize)), gens);
    ConfigIsWellFormed(sendSize, gens);
    ws, actions := Healthy.SuccessIsReachable(cfg, store, [Start(cfg, store)], []);
    FailedNamesExact(ws[|actions|].collected);
  }

  /** The old tail does survive: one byte is sent to a server that has a file of two bytes under
    * the client's name; Simulate returns nil, and the second byte is still there. */
  lemma OldTailWitness(gen: Source) returns (ws: seq<World>, actions: seq<Action>)
    ensures Sizes(1) == [1] && |ws| == |actions| + 1
    ensures Ends(Config(JobsFor([1]), [gen]), map[FileName(0) := [7, 8]], ws, actions, ws[|actions|])
    ensures FailedNames(ws[|actions|].collected) == []
    ensures var store := ws[|actions|].store;
            FileName(0) in store && store[FileName(0)] == [gen(0), 8]
  {
    OneByteShare();
    hide FileName, Sizes, IsRun, Overwrite, TotalBytes, FailedNames;
    var store := map[FileName(0) := [7, 8]];
    ws, actions := SimulateCanDeliver(1, [gen], store);
    SimulateDelivers(1, [gen], store, ws, actions, ws[|actions|]);
    assert Data(gen, 1) == [gen(0)];
    OverwriteExact([7, 8], Data(gen, 1));
  }

  lemma OneByteShare()
    ensures Sizes(1) == [1]
  {
  }

  lemma AtEnd(cfg: Config, store: Store, ws: seq<World>, actions: seq<Action>, w: World)
    requires cfg.WellFormed() && Ends(cfg, store, ws, actions, w)
    ensures Inv(cfg, store, w) && |w.procs| == |cfg.jobs|
  {
    RunKeepsInv(cfg, store, ws, actions, |actions|);
    hide ProcHolds, Runnable;
  }

  lemma SizesAddUp(sendSize: u64)
    requires sendSize > 0
    ensures Conn.Sum(Sizes(sendSize)) == sendSize
  {
    Conn.NeverWraps(MAX_CLIENTS, sendSize, MIN_SEND_SIZE);
    Conn.PartitionWithinLimit(MAX_CLIENTS, sendSize, MIN_SEND_SIZE);
  }

  /** The responses of clients that have all delivered, in the order of the clients. */
  function ResponsesOf(procs: seq<Proc>): (rs: seq<WriteResponse>)
    requires AllDelivered(procs)
    ensures |rs| == |procs| && forall i :: 0 <= i < |procs| ==> rs[i] == procs[i].phase.resp
  {
    seq(|procs|, i requires 0 <= i < |procs| => procs[i].phase.resp)
  }

  lemma OneMoreOf(x: WriteResponse, s: seq<WriteResponse>)
    ensures multiset([x] + s) == multiset(s) + multiset{x}
  {
  }

  lemma {:induction false} ResponsesAreDelivered(procs: seq<Proc>)
    requires AllDelivered(procs)
    ensures multiset(ResponsesOf(procs)) == DeliveredBy(procs)
  {
    if procs == [] {
    } else {
      AllDeliveredSplit(procs);
      ResponsesAreDelivered(procs[1..]);
      var first, later := procs[0].phase.resp, ResponsesOf(procs[1..]);
      assert ResponsesOf(procs) == [first] + later;
      OneMoreOf(first, later);
    }
  }

  lemma {:induction false} SumOfSizes(rs: seq<WriteResponse>, sizes: seq<u64>)
    requires |rs| == |sizes| && forall i :: 0 <= i < |rs| ==> rs[i].bytesSent == sizes[i]
    ensures SumBytes(rs) == Conn.Sum(sizes)
  {
    if rs == [] {
    } else {
      SumOfSizes(rs[1..], sizes[1..]);
    }
  }

  lemma AllReportTheirSize(cfg: Config, store: Store, w: World)
    requires Inv(cfg, store, w) && |w.collected| == |w.procs| && NoErrors(w.collected)
    ensures AllDelivered(w.procs) && multiset(w.collected) == DeliveredBy(w.procs)
    ensures |w.procs| == |cfg.jobs|
    ensures forall i :: 0 <= i < |w.procs| ==> w.procs[i].phase.resp.bytesSent == cfg.jobs[i].toSend
  {
    hide ProcHolds, Runnable, DeliveredBy;
    EveryoneDelivered(cfg, store, w);
    forall i | 0 <= i < |w.procs|
      ensures w.procs[i].phase.resp.bytesSent == cfg.jobs[i].toSend
    {
      assert ProcHolds(cfg, store, w, i);
      DeliveredMeansWritten(cfg, store, w, i);
    }
  }

  lemma TotalOnSuccess(cfg: Config, store: Store, w: World, sizes: seq<u64>)
    requires Inv(cfg, store, w) && |w.collected| == |w.procs| && NoErrors(w.collected)
    requires |sizes| == |cfg.jobs| && forall i :: 0 <= i < |sizes| ==> cfg.jobs[i].toSend == sizes[i]
    requires Conn.Sum(sizes) < TWO_64
    ensures TotalBytes(w.collected) == Conn.Sum(sizes)
  {
    hide Inv, DeliveredBy, SumBytes, TotalBytes, NoErrors;
    AllReportTheirSize(cfg, store, w);
    CollectedSum(cfg, store, w);
    SumOfSizes(ResponsesOf(w.procs), sizes);
  }

  // ---------------------------------------------------------------------------
  // The total that is printed.

  /** What client i's file holds of its bytes, and that its count is right about it. */
  predicate RightAbout(cfg: Config, store: Store, w: World, i: nat, n: nat)
    requires i < |w.procs| == |cfg.jobs| == |cfg.gens| && Runnable(cfg.jobs[i], w.procs[i])
  {
    var job := cfg.jobs[i];
    && Reporting.HoldsBytes(cfg.gens[i], Lookup(store, job.file), Lookup(w.store, job.file), n)
    && w.procs[i].phase.Delivered? && n <= w.procs[i].phase.resp.bytesSent <= n + BUFF_SIZE
    && w.procs[i].phase.resp.bytesSent <= job.toSend
  }

  ghost predicate IsRight(cfg: Config, store: Store, w: World, i: nat)
    requires i < |w.procs| == |cfg.jobs| == |cfg.gens| && Runnable(cfg.jobs[i], w.procs[i])
  {
    exists n: nat :: RightAbout(cfg, store, w, i, n)
  }

  ghost function Held(cfg: Config, store: Store, w: World, i: nat): (n: nat)
    requires i < |w.procs| == |cfg.jobs| == |cfg.gens| && Runnable(cfg.jobs[i], w.procs[i])
    requires IsRight(cfg, store, w, i)
    ensures RightAbout(cfg, store, w, i, n)
  {
    var n: nat :| RightAbout(cfg, store, w, i, n);
    n
  }

  lemma EveryCountRight(cfg: Config, store: Store, ws: seq<World>, actions: seq<Action>, w: World)
    returns (held: seq<nat>)
    requires cfg.WellFormed() && Ends(cfg, store, ws, actions, w) && !Reporting.SomeHeaderLost(cfg, w)
    ensures Shaped(cfg, w) && |held| == |cfg.jobs|
    ensures forall i :: 0 <= i < |held| ==> RightAbout(cfg, store, w, i, held[i])
  {
    hide IsRun, Inv, Reporting.HoldsBytes, Reporting.HeaderLost, Reporting.Chunk, Runnable, DeliveredBy;
    AtEnd(cfg, store, ws, actions, w);
    InvIsShaped(cfg, store, w);
    EveryoneDelivered(cfg, store, w);
    assert |ws| == |actions| + 1 by {
      RunLength(cfg, store, ws, actions);
    }
    forall i | 0 <= i < |w.procs|
      ensures IsRight(cfg, store, w, i)
    {
      var n := Reporting.ReportedIsWritten(cfg, store, ws, actions, |actions|, i);
      assert RightAbout(cfg, store, w, i, n);
    }
    held := seq(|cfg.jobs|, i requires 0 <= i < |cfg.jobs| => Held(cfg, store, w, i));
  }

  lemma {:induction false} SumBetween(rs: seq<WriteResponse>, held: seq<nat>, sizes: seq<u64>)
    requires |rs| == |held| == |sizes|
    requires forall i :: 0 <= i < |rs| ==>
               held[i] <= rs[i].bytesSent <= held[i] + 0x10_0000 && rs[i].bytesSent <= sizes[i]
    ensures Conn.Sum(held) <= SumBytes(rs) <= Conn.Sum(held) + |rs| * 0x10_0000
    ensures SumBytes(rs) <= Conn.Sum(sizes)
  {
    if rs == [] {
    } else {
      SumBetween(rs[1..], held[1..], sizes[1..]);
    }
  }

  lemma AboutCount(cfg: Config, init: Store, w: World, i: nat, n: nat)
    requires i < |w.procs| == |cfg.jobs| == |cfg.gens| && Runnable(cfg.jobs[i], w.procs[i])
    requires RightAbout(cfg, init, w, i, n)
    ensures w.procs[i].phase.Delivered? && n <= w.procs[i].phase.resp.bytesSent <= n + 0x10_0000
    ensures w.procs[i].phase.resp.bytesSent <= cfg.jobs[i].toSend
  {
    hide Reporting.HoldsBytes;
  }

  lemma CollectedSum(cfg: Config, init: Store, w: World)
    requires Inv(cfg, init, w) && |w.collected| == |w.procs|
    ensures AllDelivered(w.procs) && TotalBytes(w.collected) == Wrap64(SumBytes(ResponsesOf(w.procs)))
  {
    hide Inv, DeliveredBy, SumBytes, TotalBytes;
    EveryoneDelivered(cfg, init, w);
    ResponsesAreDelivered(w.procs);
    SumBytesPermuted(w.collected, ResponsesOf(w.procs));
    TotalIsSum(w.collected);
  }

  lemma TotalBetween(cfg: Config, init: Store, w: World, held: seq<nat>, sizes: seq<u64>)
    requires Inv(cfg, init, w) && |w.collected| == |w.procs| == |cfg.jobs| == |held| == |sizes|
    requires Shaped(cfg, w) && forall i :: 0 <= i < |held| ==> RightAbout(cfg, init, w, i, held[i])
    requires Conn.Sum(sizes) < TWO_64 && forall i :: 0 <= i < |sizes| ==> cfg.jobs[i].toSend == sizes[i]
    ensures Conn.Sum(held) <= TotalBytes(w.collected) <= Conn.Sum(held) + |held| * 0x10_0000
    ensures TotalBytes(w.collected) <= Conn.Sum(sizes)
  {
    hide Inv, Runnable, SumBytes, TotalBytes, RightAbout, Conn.Sum, Wrap64;
    CollectedSum(cfg, init, w);
    var rs := ResponsesOf(w.procs);
    forall i | 0 <= i < |rs|
      ensures held[i] <= rs[i].bytesSent <= held[i] + 0x10_0000 && rs[i].bytesSent <= sizes[i]
    {
      AboutCount(cfg, init, w, i, held[i]);
    }
    SumBetween(rs, held, sizes);
    Conn.WrapIdentity(SumBytes(rs));
  }

  /** The total that Simulate prints as successfully transferred, also after errors: unless some
    * write broke off before its header was on the wire, it is at least what the files hold of the
    * clients' bytes, and at most one chunk for each client more. */
  lemma TotalIsWritten(sendSize: u64, gens: seq<Source>, store: Store, ws: seq<World>, actions: seq<Action>, w: World)
    returns (held: seq<nat>)
    requires sendSize > 0 && |gens| == |Sizes(sendSize)|
    requires Ends(Config(JobsFor(Sizes(sendSize)), gens), store, ws, actions, w)
    requires !Reporting.SomeHeaderLost(Config(JobsFor(Sizes(sendSize)), gens), w)
    ensures |held| == |gens|
    ensures forall i :: 0 <= i < |gens| ==>
              Reporting.HoldsBytes(gens[i], Lookup(store, FileName(i)), Lookup(w.store, FileName(i)), held[i])
    ensures Conn.Sum(held) <= TotalBytes(w.collected) <= Conn.Sum(held) + |gens| * BUFF_SIZE
    ensures TotalBytes(w.collected) <= sendSize
  {
    hide FileName, Sizes, IsRun, Inv, Reporting.HoldsBytes, Reporting.SomeHeaderLost, Runnable, TotalBytes;
    var cfg := Config(JobsFor(Sizes(sendSize)), gens);
    ConfigIsWellFormed(sendSize, gens);
    held := EveryCountRight(cfg, store, ws, actions, w);
    forall i | 0 <= i < |gens|
      ensures Reporting.HoldsBytes(gens[i], Lookup(store, FileName(i)), Lookup(w.store, FileName(i)), held[i])
    {
      assert RightAbout(cfg, store, w, i, held[i]) && cfg.jobs[i].file == FileName(i);
    }
    hide RightAbout;
    AtEnd(cfg, store, ws, actions, w);
    SizesAddUp(sendSize);
    TotalBetween(cfg, store, w, held, Sizes(sendSize));
  }

  lemma {:induction false} SamePhasesDeliverTheSame(a: seq<Proc>, b: seq<Proc>)
    requires |a| == |b| && forall i :: 0 <= i < |a| ==> a[i].phase == b[i].phase
    ensures DeliveredBy(a) == DeliveredBy(b)
  {
    if a == [] {
    } else {
      SamePhasesDeliverTheSame(a[1..], b[1..]);
    }
  }

  /** Two completed schedules in which each client returned the same response report the same
    * total and the same failed clients, in whatever order the responses arrived. */
  lemma SameResponsesSameReport(cfg: Config, init: Store, v: World, w: World)
    requires Inv(cfg, init, v) && |v.collected| == |v.procs|
    requires Inv(cfg, init, w) && |w.collected| == |w.procs| == |v.procs|
    requires forall i :: 0 <= i < |v.procs| ==> v.procs[i].phase == w.procs[i].phase
    ensures TotalBytes(v.collected) == TotalBytes(w.collected)
    ensures multiset(FailedNames(v.collected)) == multiset(FailedNames(w.collected))
    ensures FailedNames(v.collected) == [] <==> FailedNames(w.collected) == []
  {
    hide Inv, DeliveredBy;
    EveryoneDelivered(cfg, init, v);
    EveryoneDelivered(cfg, init, w);
    SamePhasesDeliverTheSame(v.procs, w.procs);
    ArrivalOrderIrrelevant(v.collected, w.collected);
  }

  /** In whatever order the clients get to act: two completed runs from the same start in which
    * each client, with the server on its connection, does the same in the same order leave the
    * same files and report the same total and the same failed clients. */
  lemma ScheduleIrrelevant(cfg: Config, store: Store, vs: seq<World>, xs: seq<Action>, v: World,
                           ws: seq<World>, ys: seq<Action>, w: World)
    requires cfg.WellFormed() && Ends(cfg, store, vs, xs, v) && Ends(cfg, store, ws, ys, w)
    requires forall i :: 0 <= i < |cfg.jobs| ==> Confluence.Restrict(xs, i) == Confluence.Restrict(ys, i)
    ensures v.store == w.store
    ensures TotalBytes(v.collected) == TotalBytes(w.collected)
    ensures multiset(FailedNames(v.collected)) == multiset(FailedNames(w.collected))
    ensures FailedNames(v.collected) == [] <==> FailedNames(w.collected) == []
  {
    hide IsRun, Inv, TotalBytes, FailedNames;
    AtEnd(cfg, store, vs, xs, v);
    AtEnd(cfg, store, ws, ys, w);
    Confluence.RunsAreConfluent(cfg, store, vs, xs, ws, ys);
    SameResponsesSameReport(cfg, store, v, w);
  }

  // ---------------------------------------------------------------------------
  // The source's methods.

  /** A buffered channel. Sending on a full one would block; NeverBlocks shows none ever does. */
  class Channel {
    const capacity: nat
    var buffer: seq<WriteResponse>

    constructor (capacity: nat)
      ensures this.capacity == capacity && buffer == []
    {
      this.capacity := capacity;
      buffer := [];
    }

    method Send(resp: WriteResponse)
      requires |buffer| < capacity
      modifies this
      ensures buffer == old(buffer) + [resp]
    {
      buffer := buffer + [resp];
    }

    /** Takes the oldest response, waiting for one if there is none. `later` are the responses
      * still to be sent, in order, `rest` those not waited for. None if nothing ever comes. */
    method Receive(later: seq<WriteResponse>) returns (resp: Option<WriteResponse>, rest: seq<WriteResponse>)
      requires capacity > 0
      modifies this
      ensures var coming := old(buffer) + later;
              if coming == [] then resp.None? else resp == Some(coming[0]) && buffer + rest == coming[1..]
      ensures buffer == if old(buffer) == [] then [] else old(buffer)[1..]
    {
      rest := later;
      if buffer == [] {
        if later == [] {
          return None, later;
        }
        Send(later[0]);
        rest := later[1..];
      }
      resp := Some(buffer[0]);
      buffer := buffer[1..];
    }
  }

  /** What one client's goroutine sends on the channel, or the panic it dies of. */
  function ClientResult(job: Job, gen: Source, dialed: bool, w: Wire): State {
    if !dialed then Finished(WriteResponse(job.name, 0, [], Some(ConnectFailed)))
    else Run(job, gen, Initing, w).0
  }

  /** In every run, the response a client has returned is what its goroutine sends: a connect error
    * if it has no exchange behind it, else the result of the sequential run on a connection with
    * its past. */
  lemma ClientsSendTheirResult(cfg: Config, store: Store, ws: seq<World>, actions: seq<Action>, k: nat, i: nat)
    requires cfg.WellFormed() && IsRun(cfg, store, ws, actions) && k < |ws|
    requires i < |cfg.jobs| && Reporting.HasReturned(ws[k], i)
    ensures var past := ws[k].procs[i].past;
            var w := Wire([], past.outcomes, Framing.Stream(past.got, Framing.Broken));
            ClientResult(cfg.jobs[i], cfg.gens[i], past.outcomes != [], w) == Finished(ws[k].procs[i].phase.resp)
  {
    hide IsRun, Run, Runnable;
    Replay.ClientsRunTheProtocol(cfg, store, ws, actions, k);
    assert Replay.HistoryHolds(cfg.jobs[i], cfg.gens[i], ws[k].procs[i]);
  }

  /** A client that cannot reach the server reports an error, and the same one as in the model of
    * all clients. */
  lemma RefusedDial(job: Job, gen: Source, w: Wire)
    ensures var out := ClientResult(job, gen, false, w);
            && out.Finished? && out.resp.err.Some? && out.resp.bytesSent == 0 && out.resp.clientName == job.name
            && DialStep(job, FRESH_PROC, false).phase == Stopped(out.resp)
  {
  }

  class SSHTransfer {
    var sendSize: u64

    constructor (sendSize: u64)
      ensures this.sendSize == sendSize
    {
      this.sendSize := sendSize;
    }

    /** The body of a client's goroutine (`simulate` in the source): on every path but a panic,
      * exactly one response. `dialed` says whether NewClient reached the server. */
    method RunClient(c: SshClient.Client, dialed: bool, handle: seq<byte>, toSend: u64, ch: Channel)
      returns (panicked: bool)
      requires |ch.buffer| < ch.capacity
      modifies c.w, c.r`chunks, c.randomGen`pos, ch
      ensures var end := ClientResult(Job(c.name, handle, toSend), old(c.randomGen.Ahead()), dialed, old(c.Conn()));
              && (panicked <==> end.Crashed?)
              && ch.buffer == if end.Finished? then old(ch.buffer) + [end.resp] else old(ch.buffer)
    {
      hide Run, Framing.Encode, DoExchange, Next;
      if !dialed {
        ch.Send(WriteResponse(c.name, 0, [], Some(ConnectFailed)));
        return false;
      }
      ghost var job := Job(c.name, handle, toSend);
      ghost var gen := c.randomGen.Ahead();
      ghost var before := c.Conn();
      ghost var x;
      var out;
      out, x := c.Handshake();
      assert out == Next(job, gen, Initing, x);
      RunUnfolds(job, gen, Initing, before, x, c.Conn());
      ghost var after := c.Conn();
      HandshakeEnds(job, gen, x);
      if out.Opening? {
        out := c.WriteRandom(handle, toSend);
        assert (out, c.Conn()) == Run(job, gen, Opening, after);
        RunFinishes(job, gen, Opening, after);
      } else {
        RunEnds(job, gen, out, after);
      }
      if out.Finished? {
        ch.Send(out.resp);
      }
      panicked := out.Crashed?;
    }

    /** The first part of Simulate: reject a size of zero, else one job for each client. */
    method Launch() returns (jobs: Option<seq<Job>>)
      ensures jobs.None? <==> sendSize == 0
      ensures jobs.Some? ==> jobs.value == JobsFor(Sizes(sendSize))
    {
      if sendSize <= 0 {
        return None;
      }
      Conn.NeverWraps(MAX_CLIENTS, sendSize, MIN_SEND_SIZE);
      var result := Conn.ComputeSenderSizes(MAX_CLIENTS, sendSize, MIN_SEND_SIZE);
      ghost var j: nat :|
        && Conn.EndsFirstAt(MAX_CLIENTS, sendSize, MIN_SEND_SIZE, j)
        && (result.None? <==> Conn.Tried(MIN_SEND_SIZE, j) == 0)
        && (result.Some? ==> result.value == Conn.Chunks(sendSize, Conn.Tried(MIN_SEND_SIZE, j)));
      Conn.SearchOutcome(MAX_CLIENTS, sendSize, MIN_SEND_SIZE, j);
      var senderSizes := result.value;
      assert senderSizes == Sizes(sendSize);
      var numClients := |senderSizes|;
      var launched: seq<Job> := [];
      for i := 0 to numClients
        invariant launched == JobsFor(Sizes(sendSize))[..i]
      {
        launched := launched + [Job(ClientName(i), FileName(i), senderSizes[i])];
      }
      jobs := Some(launched);
    }

    /** The receive loop of Simulate. `later` are the responses that clients still send, in order,
      * when the collector has to wait for one. It waits forever if there are not enough of them,
      * which by NeverStuck does not happen. */
    method Collect(ch: Channel, numClients: nat, later: seq<WriteResponse>)
      returns (stuck: bool, totalBytesSent: u64, errsEncountered: seq<seq<byte>>)
      requires ch.capacity >= numClients
      modifies ch
      ensures stuck <==> |old(ch.buffer)| + |later| < numClients
      ensures !stuck ==>
                var arrivals := (old(ch.buffer) + later)[..numClients];
                totalBytesSent == TotalBytes(arrivals) && errsEncountered == FailedNames(arrivals)
      ensures ch.buffer == if numClients <= |old(ch.buffer)| then old(ch.buffer)[numClients..] else []
    {
      ghost var before := ch.buffer;
      ghost var arrivals := before + later;
      var coming := later;
      totalBytesSent, errsEncountered := 0, [];
      assert TotalBytes(arrivals[..0]) == 0 && FailedNames(arrivals[..0]) == [];
      hide TotalBytes, FailedNames, Wrap64;
      for i := 0 to numClients
        invariant i <= |arrivals| && ch.buffer + coming == arrivals[i..]
        invariant ch.buffer == if i <= |before| then before[i..] else []
        invariant totalBytesSent == TotalBytes(arrivals[..i])
        invariant errsEncountered == FailedNames(arrivals[..i])
      {
        var next;
        next, coming := ch.Receive(coming);
        if next.None? {
          return true, totalBytesSent, errsEncountered;
        }
        var res := next.value;
        Advance(arrivals, i);
        if i < |before| {
          Advance(before, i);
        }
        OneMoreResponse(arrivals, i);
        if res.err.Some? {
          errsEncountered := errsEncountered + [res.clientName];
        }
        totalBytesSent := Wrap64(totalBytesSent + res.bytesSent);
      }
      stuck := false;
    }
  }

  lemma Advance(s: seq<WriteResponse>, i: nat)
    requires i < |s|
    ensures s[i..] != [] && s[i..][0] == s[i] && s[i..][1..] == s[i + 1..]
  {
  }

  lemma HandshakeEnds(job: Job, gen: Source, x: Exchange)
    ensures var st := Next(job, gen, Initing, x);
            st.Opening? || st.Terminal()
  {
  }

  lemma {:induction false} RunFinishes(job: Job, gen: Source, st: State, w: Wire)
    requires Valid(job, st)
    ensures Run(job, gen, st, w).0.Terminal()
    decreases Rank(job, st)
  {
    hide DoExchange, Next, Request;
    if st.Terminal() {
    } else {
      var (x, w') := DoExchange(Request(job, gen, st), w);
      RunFinishes(job, gen, Next(job, gen, st, x), w');
    }
  }
}
