/** Model of `v2/simulator/ssh/client.go` on values: one request/response exchange, the state
  * machine that strings exchanges together, and a whole run of it over one connection. */
module Protocol {
  import opened Wrappers
  import opened Marshal
  import opened Fxp
  import opened Framing

  const CLIENT_VER: u32 := 3
  const REQ_ID: u32 := 1
  /** os.O_CREATE on Linux, which is what the open request carries as its flags word. */
  const O_CREATE: u32 := 0x40
  const BUFF_SIZE: nat := 0x10_0000

  /** i*buffSize, before the conversion to uint64. */
  function ChunkOffset(i: nat): nat {
    i * 0x10_0000
  }

  // ---------------------------------------------------------------------------
  // One connection, as one client sees it.

  /** What the pipe does with one Write call: take it all, or take at most `n` bytes of it and
    * return an error. */
  datatype WriteOutcome = Accept | Short(n: nat)

  /** Bytes put on the wire so far, what will happen to the next writes (all is well once the
    * list is used up), and everything that will ever arrive from the server. */
  datatype Wire = Wire(sent: seq<byte>, outcomes: seq<WriteOutcome>, input: Stream)

  /** How many of the bytes a write puts on the wire, and whether it returns a nil error. */
  function Accepted(outcomes: seq<WriteOutcome>, length: nat): (r: (nat, bool))
    ensures r.0 <= length && (r.1 ==> r.0 == length)
  {
    if outcomes == [] || outcomes[0].Accept? then (length, true)
    else (if outcomes[0].n < length then outcomes[0].n else length, false)
  }

  datatype RespError =
    | ReadFailed | BadPacket | ServerError | UnexpectedType | Unsupported | InvalidResponse | WriteFailed

  /** A packet with a nil error, an error, or the run-time panic of indexing an empty frame. */
  datatype Reply = Got(packet: Packet) | Rejected(reason: RespError) | Panicked

  function Parsed(resp: Option<Packet>): Reply {
    if resp.None? then Rejected(BadPacket) else Got(resp.value)
  }

  /** ReadResp once a whole frame body is there. */
  function ParseResp(expected: byte, resp: seq<byte>): Reply {
    if resp == [] then Panicked
    else
      var respType := resp[0];
      var respData := resp[1..];
      if respType == TYPE_CODE_STATUS then
        var status := StatusRespSpec(respData);
        if status.None? || expected == respType then Parsed(status)
        else if status.value.Status? && status.value.errCode != SSH_FX_OK then Rejected(ServerError)
        else Rejected(UnexpectedType)
      else if expected != respType then Rejected(UnexpectedType)
      else if respType == TYPE_CODE_VERSION then Parsed(VersionRespSpec(respData))
      else if respType == TYPE_CODE_HANDLE then Parsed(OpenRespSpec(respData))
      else Rejected(Unsupported)
  }

  function ReadRespSpec(expected: byte, s: Stream): (Reply, Stream) {
    var r := ReadPacketSpec(s);
    (if r.err.Some? then Rejected(ReadFailed) else ParseResp(expected, r.bytes), r.rest)
  }

  /** A request whose write failed after `n` bytes, or one that was written in full and whose
    * reply was then read. */
  datatype Exchange = Unsent(n: nat) | Answered(reply: Reply)

  /** The response type each request waits for. */
  function Expected(p: Packet): byte {
    match p
    case Init(_) => TYPE_CODE_VERSION
    case Open(_, _, _) => TYPE_CODE_HANDLE
    case _ => TYPE_CODE_STATUS
  }

  /** Write one request, then read one response. */
  function DoExchange(p: Packet, w: Wire): (x: (Exchange, Wire))
    ensures x.0.Unsent? ==> x.0.n <= |Encode(p)|
  {
    var b := Encode(p);
    var (n, ok) := Accepted(w.outcomes, |b|);
    var w' := Wire(w.sent + b[..n], if w.outcomes == [] then [] else w.outcomes[1..], w.input);
    if !ok then (Unsent(n), w')
    else
      var (reply, input) := ReadRespSpec(Expected(p), w.input);
      (Answered(reply), w'.(input := input))
  }

  /** The response packet each request is answered with. */
  predicate RightKind(p: Packet, q: Packet) {
    match p
    case Init(_) => q.Version?
    case Open(_, _, _) => q.Handle?
    case _ => q.Status?
  }

  /** What the Send functions make of an exchange. */
  function Settle(p: Packet, x: Exchange): (r: Reply)
    ensures r.Got? ==> RightKind(p, r.packet)
  {
    if x.Unsent? then Rejected(WriteFailed)
    else if !x.reply.Got? then x.reply
    else
      var q := x.reply.packet;
      if !RightKind(p, q) then Rejected(InvalidResponse)
      else if q.Status? && q.errCode != SSH_FX_OK then Rejected(ServerError)
      else Got(q)
  }

  /** The exchange went as the client hoped. */
  predicate Good(p: Packet, x: Exchange) {
    var r := Settle(p, x);
    r.Got? && (r.packet.Version? ==> r.packet.version == CLIENT_VER)
  }

  // ---------------------------------------------------------------------------
  // The client's state machine.

  datatype Failure = ConnectFailed | InitFailed | VersionMismatch | OpenFailed | TransferFailed | CloseFailed

  datatype WriteResponse = WriteResponse(clientName: seq<byte>, bytesSent: u64, handle: seq<byte>, err: Option<Failure>)

  /** What one client is asked to do: its name, the remote file, and the number of bytes. */
  datatype Job = Job(name: seq<byte>, file: seq<byte>, toSend: u64)

  /** The bytes a client's random generator will produce, in order. */
  type Source = nat -> byte

  function Payload(gen: Source, offset: nat, n: nat): (p: seq<byte>)
    ensures |p| == n
  {
    seq(n, k requires 0 <= k => gen(offset + k))
  }

  /** The first n of them. */
  function Data(gen: Source, n: nat): seq<byte> {
    Payload(gen, 0, n)
  }

  datatype State =
    | Initing
    | Opening
    | Writing(handle: seq<byte>, i: u64, total: u64)
    | Closing(handle: seq<byte>, total: u64)
    | Finished(resp: WriteResponse)
    | Crashed
  {
    predicate Terminal() {
      Finished? || Crashed?
    }
  }

  function PayloadSize(toSend: u64, total: u64): (n: nat)
    requires total < toSend
    ensures 1 <= n <= BUFF_SIZE && n <= toSend - total
  {
    var leftToSend := toSend - total;
    if leftToSend >= BUFF_SIZE then BUFF_SIZE else leftToSend
  }

  /** All writes before this state were full chunks, so the offset is the running total. */
  predicate Valid(job: Job, st: State) {
    match st
    case Writing(_, i, total) => total < job.toSend && total == ChunkOffset(i)
    case Closing(_, total) => total == job.toSend
    case _ => true
  }

  /** The request a client in this state sends. */
  function Request(job: Job, gen: Source, st: State): Packet
    requires Valid(job, st) && !st.Terminal()
  {
    match st
    case Initing => Init(CLIENT_VER)
    case Opening => Open(REQ_ID, job.file, O_CREATE)
    case Writing(handle, i, total) =>
      Write(REQ_ID, handle, Wrap64(ChunkOffset(i)), Payload(gen, total, PayloadSize(job.toSend, total)))
    case Closing(handle, _) => Close(REQ_ID, handle)
  }

  /** The running total after a write: both subtractions and the sum are uint64 operations. */
  function CountSent(total: u64, payloadSize: nat, bytesToSend: nat, bytesSent: nat): u64 {
    var pktOverhead := Wrap64(bytesToSend - payloadSize);
    var dataBytesSent := Wrap64(bytesSent - pktOverhead);
    if dataBytesSent > 0 then Wrap64(total + dataBytesSent) else total
  }

  /** The exact modular formula: the payload less whatever did not reach the wire. */
  lemma CountSentIsModular(total: u64, payloadSize: nat, bytesToSend: nat, bytesSent: nat)
    ensures CountSent(total, payloadSize, bytesToSend, bytesSent)
            == Wrap64(total + payloadSize - (bytesToSend - bytesSent))
  {
    var o := bytesToSend - payloadSize;
    WrapSub(bytesSent, o);
    WrapAdd(total, bytesSent - o);
  }

  /** A write that reached the wire in full adds exactly its payload. */
  lemma CountSentInFull(total: u64, payloadSize: nat, bytesToSend: nat)
    requires total + payloadSize < TWO_64
    ensures CountSent(total, payloadSize, bytesToSend, bytesToSend) == total + payloadSize
  {
  }

  function Fail(job: Job, bytesSent: u64, handle: seq<byte>, err: Failure): State {
    Finished(WriteResponse(job.name, bytesSent, handle, Some(err)))
  }

  /** The loop guard of WriteRandom. */
  function WriteOrClose(job: Job, handle: seq<byte>, i: u64, total: u64): State {
    if total < job.toSend then Writing(handle, i, total) else Closing(handle, total)
  }

  /** The rest of one pass through the loop of WriteRandom, once SendWrite has returned. */
  function AfterWrite(job: Job, st: State, bytesToSend: nat, x: Exchange, reply: Reply): (st': State)
    requires Valid(job, st) && st.Writing? && (reply.Got? ==> x.Answered?)
    ensures Valid(job, st') && Rank(job, st') < Rank(job, st)
    ensures reply.Got? ==>
              st' == WriteOrClose(job, st.handle, st.i + 1, st.total + PayloadSize(job.toSend, st.total))
  {
    var bytesSent := if x.Unsent? then x.n else bytesToSend;
    var n := PayloadSize(job.toSend, st.total);
    var total := CountSent(st.total, n, bytesToSend, bytesSent);
    if !reply.Got? then Fail(job, total, st.handle, TransferFailed)
    else
      CountSentInFull(st.total, n, bytesToSend);
      assert n < BUFF_SIZE ==> total == job.toSend;
      WriteOrClose(job, st.handle, Wrap64(st.i + 1), total)
  }

  /** newClient and WriteRandom, one exchange at a time. */
  function Next(job: Job, gen: Source, st: State, x: Exchange): (st': State)
    requires Valid(job, st) && !st.Terminal()
    ensures Valid(job, st') && Rank(job, st') < Rank(job, st)
  {
    hide Encode;
    var p := Request(job, gen, st);
    var reply := Settle(p, x);
    if reply.Panicked? then Crashed
    else
      match st
      case Initing =>
        if !reply.Got? then Fail(job, 0, [], InitFailed)
        else if reply.packet.version != CLIENT_VER then Fail(job, 0, [], VersionMismatch)
        else Opening
      case Opening =>
        if !reply.Got? then Fail(job, 0, [], OpenFailed)
        else WriteOrClose(job, reply.packet.handle, 0, 0)
      case Writing(_, _, _) => AfterWrite(job, st, |Encode(p)|, x, reply)
      case Closing(handle, total) =>
        if !reply.Got? then Fail(job, total, handle, CloseFailed)
        else Finished(WriteResponse(job.name, total, handle, None))
  }

  /** A bound on the exchanges still to come. */
  function Rank(job: Job, st: State): nat {
    match st
    case Initing => job.toSend + 3
    case Opening => job.toSend + 2
    case Writing(_, _, total) => if total < job.toSend then job.toSend - total + 1 else 1
    case Closing(_, _) => 1
    case _ => 0
  }

  /** Run a client until it returns (or panics). */
  function Run(job: Job, gen: Source, st: State, w: Wire): (State, Wire)
    requires Valid(job, st)
    decreases Rank(job, st)
  {
    if st.Terminal() then (st, w)
    else
      var (x, w') := DoExchange(Request(job, gen, st), w);
      Run(job, gen, Next(job, gen, st, x), w')
  }

  /** One exchange further into a run. */
  lemma RunUnfolds(job: Job, gen: Source, st: State, w: Wire, x: Exchange, w': Wire)
    requires Valid(job, st) && !st.Terminal()
    requires DoExchange(Request(job, gen, st), w) == (x, w')
    ensures Run(job, gen, st, w) == Run(job, gen, Next(job, gen, st, x), w')
  {
  }

  /** The same, with the end of the run in place of a run from its end. */
  lemma RunGoesOn(job: Job, gen: Source, st: State, w: Wire, x: Exchange, w': Wire)
    requires Valid(job, st) && !st.Terminal()
    requires DoExchange(Request(job, gen, st), w) == (x, w')
    ensures var st' := Next(job, gen, st, x);
            Run(job, gen, st, w) == if st'.Terminal() then (st', w') else Run(job, gen, st', w')
  {
    hide DoExchange, Next, Request;
  }

  lemma RunEnds(job: Job, gen: Source, st: State, w: Wire)
    requires st.Terminal()
    ensures Run(job, gen, st, w) == (st, w)
  {
  }

  lemma NextOpening(job: Job, gen: Source, x: Exchange)
    ensures var reply := Settle(Open(REQ_ID, job.file, O_CREATE), x);
            Next(job, gen, Opening, x)
            == if reply.Panicked? then Crashed
               else if !reply.Got? then Fail(job, 0, [], OpenFailed)
               else WriteOrClose(job, reply.packet.handle, 0, 0)
  {
  }

  lemma NextWriting(job: Job, gen: Source, st: State, x: Exchange, reply: Reply, bytesToSend: nat, bytesSent: nat)
    requires st.Writing? && Valid(job, st)
    requires reply == Settle(Request(job, gen, st), x) && bytesToSend == |Encode(Request(job, gen, st))|
    requires bytesSent == if x.Unsent? then x.n else bytesToSend
    ensures var n := PayloadSize(job.toSend, st.total);
            var total := CountSent(st.total, n, bytesToSend, bytesSent);
            && (reply.Got? ==> total == st.total + n && Wrap64(st.i + 1) == st.i + 1)
            && Next(job, gen, st, x)
               == if reply.Panicked? then Crashed
                  else if !reply.Got? then Fail(job, total, st.handle, TransferFailed)
                  else WriteOrClose(job, st.handle, st.i + 1, total)
  {
    hide Encode;
    if reply.Got? {
      CountSentInFull(st.total, PayloadSize(job.toSend, st.total), bytesToSend);
    }
  }

  lemma NextClosing(job: Job, gen: Source, st: State, x: Exchange)
    requires st.Closing? && Valid(job, st)
    ensures var reply := Settle(Close(REQ_ID, st.handle), x);
            Next(job, gen, st, x)
            == if reply.Panicked? then Crashed
               else if !reply.Got? then Fail(job, st.total, st.handle, CloseFailed)
               else Finished(WriteResponse(job.name, st.total, st.handle, None))
  {
  }

  lemma WritingRequest(job: Job, gen: Source, st: State, payload: seq<byte>)
    requires st.Writing? && Valid(job, st)
    requires |payload| == PayloadSize(job.toSend, st.total)
    requires forall k :: 0 <= k < |payload| ==> payload[k] == gen(st.total + k)
    ensures Request(job, gen, st) == Write(REQ_ID, st.handle, Wrap64(ChunkOffset(st.i)), payload)
  {
  }
}
