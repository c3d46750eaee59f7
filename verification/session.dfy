/** What every run of one client does on the wire, whatever the server answers and wherever
  * the connection fails: the order of its requests, the exact condition for success, and what
  * the byte count it reports is worth. */
module Session {
  import opened Wrappers
  import opened Marshal
  import opened Fxp
  import Framing
  import opened Protocol

  // ---------------------------------------------------------------------------
  // The requests of a complete session.

  /** ceil(toSend / buffSize). */
  function NumWrites(toSend: u64): nat {
    (toSend + 0xF_FFFF) / 0x10_0000
  }

  /** How much of the file lies before write k. */
  function Before(toSend: u64, k: nat): nat {
    if ChunkOffset(k) < toSend then ChunkOffset(k) else toSend
  }

  function WriteAt(job: Job, gen: Source, handle: seq<byte>, k: nat): Packet
    requires k < NumWrites(job.toSend)
  {
    Write(REQ_ID, handle, ChunkOffset(k), Payload(gen, ChunkOffset(k), Before(job.toSend, k + 1) - ChunkOffset(k)))
  }

  function Writes(job: Job, gen: Source, handle: seq<byte>): (ps: seq<Packet>)
    ensures |ps| == NumWrites(job.toSend)
  {
    seq(NumWrites(job.toSend), k requires 0 <= k < NumWrites(job.toSend) => WriteAt(job, gen, handle, k))
  }

  /** Init, Open, then every write in order, then Close. */
  function Requests(job: Job, gen: Source, handle: seq<byte>): (ps: seq<Packet>)
    ensures |ps| == NumWrites(job.toSend) + 3
  {
    [Init(CLIENT_VER), Open(REQ_ID, job.file, O_CREATE)] + Writes(job, gen, handle) + [Close(REQ_ID, handle)]
  }

  function JoinData(ps: seq<Packet>): seq<byte>
    requires forall i :: 0 <= i < |ps| ==> ps[i].Write?
  {
    if ps == [] then [] else JoinData(ps[..|ps| - 1]) + ps[|ps| - 1].data
  }

  /** The first k writes start where the ones before them end, lie below toSend (so the uint64
    * product i*buffSize never wraps), and carry the generated bytes in order without a gap. */
  lemma {:induction false} WritesTile(job: Job, gen: Source, handle: seq<byte>, k: nat)
    requires k <= NumWrites(job.toSend)
    ensures JoinData(Writes(job, gen, handle)[..k]) == Data(gen, Before(job.toSend, k))
    ensures Before(job.toSend, NumWrites(job.toSend)) == job.toSend
    ensures k < NumWrites(job.toSend) ==>
              var p := Writes(job, gen, handle)[k];
              && p.offset == ChunkOffset(k) == Before(job.toSend, k) < job.toSend
              && 1 <= |p.data| <= BUFF_SIZE && p.offset + |p.data| == Before(job.toSend, k + 1)
  {
    hide ChunkOffset, NumWrites, Before, Payload;
    var ps := Writes(job, gen, handle);
    WriteBounds(job.toSend, k);
    if k == 0 {
      assert Data(gen, 0) == [] by {
        DataIsEmpty(gen);
      }
    } else {
      WritesTile(job, gen, handle, k - 1);
      WriteBounds(job.toSend, k - 1);
      DataGrows(gen, ChunkOffset(k - 1), Before(job.toSend, k) - ChunkOffset(k - 1));
      assert ps[..k][..k - 1] == ps[..k - 1];
      hide Writes, WriteAt, Data;
    }
  }

  lemma WriteBounds(toSend: u64, k: nat)
    requires k <= NumWrites(toSend)
    ensures Before(toSend, NumWrites(toSend)) == toSend && Before(toSend, 0) == 0
    ensures k < NumWrites(toSend) ==>
              && ChunkOffset(k) == Before(toSend, k) < toSend
              && 1 <= Before(toSend, k + 1) - ChunkOffset(k) <= BUFF_SIZE
  {
  }

  /** In numbers: ceil(toSend / 2^20) writes, at multiples of 2^20, each of 2^20 bytes or of what
    * is left. */
  lemma WritesInNumbers(job: Job, gen: Source, handle: seq<byte>, k: nat)
    ensures var ps := Writes(job, gen, handle);
            && (k < |ps| <==> k * 0x10_0000 < job.toSend)
            && (k < |ps| ==>
                  var left := job.toSend - k * 0x10_0000;
                  ps[k].offset == k * 0x10_0000 && |ps[k].data| == if left >= 0x10_0000 then 0x10_0000 else left)
  {
    hide Payload;
  }

  lemma DataIsEmpty(gen: Source)
    ensures Data(gen, 0) == []
  {
  }

  lemma DataGrows(gen: Source, n: nat, m: nat)
    ensures Data(gen, n) + Payload(gen, n, m) == Data(gen, n + m)
  {
  }

  // ---------------------------------------------------------------------------
  // What happened in a run.

  datatype Event = Event(packet: Packet, x: Exchange)

  function Log(job: Job, gen: Source, st: State, w: Wire): seq<Event>
    requires Valid(job, st)
    decreases Rank(job, st)
  {
    if st.Terminal() then []
    else
      var p := Request(job, gen, st);
      var (x, w') := DoExchange(p, w);
      [Event(p, x)] + Log(job, gen, Next(job, gen, st, x), w')
  }

  /** The handle the server gave out, or the empty string if the run never got that far. */
  function HandleOf(job: Job, gen: Source, st: State, w: Wire): seq<byte>
    requires Valid(job, st)
    decreases Rank(job, st)
  {
    if st.Terminal() then []
    else if st.Writing? || st.Closing? then st.handle
    else
      var (x, w') := DoExchange(Request(job, gen, st), w);
      HandleOf(job, gen, Next(job, gen, st, x), w')
  }

  /** The position of a state's request within the session. */
  function Index(job: Job, st: State): nat
    requires !st.Terminal()
  {
    match st
    case Initing => 0
    case Opening => 1
    case Writing(_, i, _) => i + 2
    case Closing(_, _) => NumWrites(job.toSend) + 2
  }

  predicate Succeeded(st: State) {
    st.Finished? && st.resp.err.None?
  }

  lemma RequestsAt(job: Job, gen: Source, handle: seq<byte>, k: nat)
    ensures var ps := Requests(job, gen, handle);
            && ps[0] == Init(CLIENT_VER) && ps[1] == Open(REQ_ID, job.file, O_CREATE)
            && ps[NumWrites(job.toSend) + 2] == Close(REQ_ID, handle)
            && (k < NumWrites(job.toSend) ==> ps[k + 2] == WriteAt(job, gen, handle, k))
  {
    hide WriteAt;
  }

  /** The loop guard holds exactly for the writes of the session. */
  lemma WithinWrites(toSend: u64, i: nat)
    requires ChunkOffset(i) < toSend
    ensures i < NumWrites(toSend) && Wrap64(ChunkOffset(i)) == ChunkOffset(i) == Before(toSend, i)
    ensures ChunkOffset(i) + PayloadSize(toSend, ChunkOffset(i)) == Before(toSend, i + 1)
  {
  }

  lemma RequestIsPlanned(job: Job, gen: Source, st: State, handle: seq<byte>)
    requires Valid(job, st) && !st.Terminal()
    requires st.Writing? || st.Closing? ==> handle == st.handle
    ensures Index(job, st) < |Requests(job, gen, handle)|
    ensures Request(job, gen, st) == Requests(job, gen, handle)[Index(job, st)]
    ensures st.Writing? ==> st.total == Before(job.toSend, st.i)
    ensures st.Writing? ==> st.total + |Request(job, gen, st).data| == Before(job.toSend, st.i + 1)
  {
    hide Requests, NumWrites, Before, ChunkOffset, Payload, PayloadSize, Wrap64;
    if st.Writing? {
      RequestsAt(job, gen, handle, st.i);
      WithinWrites(job.toSend, st.i);
    } else {
      RequestsAt(job, gen, handle, 0);
    }
  }

  /** Good exchanges move on to the next request, or finish the session after Close; any other
    * exchange ends the run with an error. */
  lemma NextIsNext(job: Job, gen: Source, st: State, x: Exchange)
    requires Valid(job, st) && !st.Terminal()
    ensures var st' := Next(job, gen, st, x);
            if !Good(Request(job, gen, st), x) then st'.Terminal() && !Succeeded(st')
            else if st.Closing? then st' == Finished(WriteResponse(job.name, job.toSend, st.handle, None))
            else
              && !st'.Terminal() && Index(job, st') == Index(job, st) + 1
              && (st.Writing? ==> st'.handle == st.handle && st'.total == Before(job.toSend, st.i + 1))
  {
    hide Framing.Encode;
    if st.Writing? {
      RequestIsPlanned(job, gen, st, st.handle);
    }
  }

  /** The session's requests from this state on, for the handle the server gives out. */
  function Planned(job: Job, gen: Source, st: State, w: Wire): seq<Packet>
    requires Valid(job, st) && !st.Terminal()
  {
    var all := Requests(job, gen, HandleOf(job, gen, st, w));
    if Index(job, st) <= |all| then all[Index(job, st)..] else []
  }

  /** The session's requests start with the present one; the rest is what the next state plans. */
  lemma PlannedUnfolds(job: Job, gen: Source, st: State, w: Wire)
    requires Valid(job, st) && !st.Terminal()
    ensures var (x, w') := DoExchange(Request(job, gen, st), w);
            var st' := Next(job, gen, st, x);
            var ps := Planned(job, gen, st, w);
            && |ps| >= 1 && ps[0] == Request(job, gen, st) && (st.Closing? ==> |ps| == 1)
            && (!st'.Terminal() ==> ps == [Request(job, gen, st)] + Planned(job, gen, st', w'))
  {
    hide DoExchange, Request, Next, Good, Requests;
    var handle := HandleOf(job, gen, st, w);
    var (x, w') := DoExchange(Request(job, gen, st), w);
    var st' := Next(job, gen, st, x);
    RequestIsPlanned(job, gen, st, handle);
    NextIsNext(job, gen, st, x);
    if !st'.Terminal() {
      assert handle == HandleOf(job, gen, st', w');
      RequestIsPlanned(job, gen, st', handle);
    }
  }

  /** The events are those requests, in order and without a gap, and all but the last were
    * answered well. */
  predicate Follows(log: seq<Event>, ps: seq<Packet>) {
    && 1 <= |log| <= |ps|
    && (forall j :: 0 <= j < |log| ==> log[j].packet == ps[j])
    && (forall j :: 0 <= j < |log| - 1 ==> Good(log[j].packet, log[j].x))
  }

  predicate EndsWell(log: seq<Event>)
    requires |log| > 0
  {
    Good(log[|log| - 1].packet, log[|log| - 1].x)
  }

  lemma FollowsCons(e: Event, log: seq<Event>, ps: seq<Packet>)
    requires Follows(log, ps) && Good(e.packet, e.x)
    ensures Follows([e] + log, [e.packet] + ps)
    ensures EndsWell([e] + log) <==> EndsWell(log)
  {
  }

  /** Every run follows the session: its requests are those of the session, in order and
    * without a gap; each is sent only after all earlier ones were answered well; a run ends
    * early only on a bad exchange, and succeeds exactly when the last exchange is good too. */
  lemma {:induction false} TraceGrammar(job: Job, gen: Source, st: State, w: Wire)
    requires Valid(job, st) && !st.Terminal()
    ensures var ps := Planned(job, gen, st, w);
            var log := Log(job, gen, st, w);
            && Follows(log, ps)
            && (EndsWell(log) ==> |log| == |ps|)
            && (Succeeded(Run(job, gen, st, w).0) <==> EndsWell(log))
    decreases Rank(job, st)
  {
    hide DoExchange, Request, Next, Good, Planned, Follows, EndsWell;
    var p := Request(job, gen, st);
    var (x, w') := DoExchange(p, w);
    var st' := Next(job, gen, st, x);
    PlannedUnfolds(job, gen, st, w);
    NextIsNext(job, gen, st, x);
    if st'.Terminal() {
      OneEvent(Event(p, x), Planned(job, gen, st, w));
    } else {
      TraceGrammar(job, gen, st', w');
      FollowsCons(Event(p, x), Log(job, gen, st', w'), Planned(job, gen, st', w'));
    }
  }

  lemma OneEvent(e: Event, ps: seq<Packet>)
    requires |ps| >= 1 && e.packet == ps[0]
    ensures Follows([e] + [], ps)
    ensures EndsWell([e] + []) <==> Good(e.packet, e.x)
  {
  }
}
