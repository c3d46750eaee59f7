/** The methods of `v2/simulator/ssh/client.go`, in the source's imperative form, proved against
  * the protocol of module Protocol. Every Send method returns the exchange it performed as a
  * ghost result next to what the source returns. */
module SshClient {
  import opened Wrappers
  import opened Marshal
  import opened Fxp
  import opened Framing
  import opened Protocol

  /** The write end of the session's pipe. A write that accepts fewer bytes returns an error. */
  class Writer {
    var sent: seq<byte>
    var outcomes: seq<WriteOutcome>

    constructor (outcomes: seq<WriteOutcome>)
      ensures sent == [] && this.outcomes == outcomes
    {
      sent := [];
      this.outcomes := outcomes;
    }

    method Write(b: seq<byte>) returns (n: nat, ok: bool)
      modifies this
      ensures (n, ok) == Accepted(old(outcomes), |b|)
      ensures sent == old(sent) + b[..n]
      ensures outcomes == if old(outcomes) == [] then [] else old(outcomes)[1..]
    {
      n, ok := |b|, true;
      if outcomes != [] {
        if outcomes[0].Short? {
          ok := false;
          n := if outcomes[0].n < |b| then outcomes[0].n else |b|;
        }
        outcomes := outcomes[1..];
      }
      sent := sent + b[..n];
    }
  }

  /** rand.Rand used as a source of bytes: each Read continues where the last one stopped. */
  class RandomGen {
    const source: Source
    var pos: nat

    constructor (source: Source)
      ensures this.source == source && pos == 0
    {
      this.source := source;
      pos := 0;
    }

    /** The bytes still to be generated. */
    ghost function Ahead(): Source
      reads this
    {
      var p := pos;
      (k: nat) => source(p + k)
    }

    method Read(b: array<byte>, n: nat)
      requires n <= b.Length
      modifies this`pos, b
      ensures pos == old(pos) + n
      ensures forall k :: 0 <= k < n ==> b[k] == source(old(pos) + k)
      ensures forall k :: n <= k < b.Length ==> b[k] == old(b[k])
    {
      for j := 0 to n
        invariant pos == old(pos) + j
        invariant forall k :: 0 <= k < j ==> b[k] == source(old(pos) + k)
        invariant forall k :: n <= k < b.Length ==> b[k] == old(b[k])
      {
        b[j] := source(pos);
        pos := pos + 1;
      }
    }
  }

  class Client {
    const name: seq<byte>
    const w: Writer
    const r: Reader
    const randomGen: RandomGen

    constructor (name: seq<byte>, w: Writer, r: Reader, randomGen: RandomGen)
      ensures this.name == name && this.w == w && this.r == r && this.randomGen == randomGen
    {
      this.name := name;
      this.w := w;
      this.r := r;
      this.randomGen := randomGen;
    }

    ghost function Conn(): Wire
      reads w, r
    {
      Wire(w.sent, w.outcomes, r.Remaining())
    }

    method ReadResp(expectedRespType: byte) returns (reply: Reply)
      modifies r`chunks
      ensures (reply, r.Remaining()) == ReadRespSpec(expectedRespType, old(r.Remaining()))
    {
      var resp, err := ReadPacket(r);
      if err.Some? {
        return Rejected(ReadFailed);
      }
      if resp == [] {
        return Panicked;
      }
      var respType := resp[0];
      var respData := resp[1..];
      if respType == TYPE_CODE_STATUS {
        var statusResp := StatusResp(respData);
        if statusResp.None? {
          return Rejected(BadPacket);
        }
        if expectedRespType == respType {
          return Got(statusResp.value);
        }
        if statusResp.value.Status? && statusResp.value.errCode != SSH_FX_OK {
          return Rejected(ServerError);
        }
        return Rejected(UnexpectedType);
      }
      if expectedRespType != respType {
        return Rejected(UnexpectedType);
      }
      if respType == TYPE_CODE_VERSION {
        var version := VersionResp(respData);
        return Parsed(version);
      } else if respType == TYPE_CODE_HANDLE {
        var handle := OpenResp(respData);
        return Parsed(handle);
      } else {
        return Rejected(Unsupported);
      }
    }

    method SendInit() returns (reply: Reply, ghost x: Exchange)
      modifies w, r`chunks
      ensures (x, Conn()) == DoExchange(Init(CLIENT_VER), old(Conn()))
      ensures reply == Settle(Init(CLIENT_VER), x)
    {
      var initPkt := Init(CLIENT_VER);
      var rawInitPkt := MakeRawPacket(initPkt);
      var n, ok := w.Write(rawInitPkt.Marshal());
      if !ok {
        return Rejected(WriteFailed), Unsent(n);
      }
      reply := ReadResp(TYPE_CODE_VERSION);
      x := Answered(reply);
      if reply.Got? && !reply.packet.Version? {
        reply := Rejected(InvalidResponse);
      }
    }

    method SendOpen(filename: seq<byte>, flags: u32) returns (reply: Reply, ghost x: Exchange)
      modifies w, r`chunks
      ensures (x, Conn()) == DoExchange(Open(REQ_ID, filename, flags), old(Conn()))
      ensures reply == Settle(Open(REQ_ID, filename, flags), x)
    {
      var openPkt := Open(REQ_ID, filename, flags);
      var rawOpenPkt := MakeRawPacket(openPkt);
      var n, ok := w.Write(rawOpenPkt.Marshal());
      if !ok {
        return Rejected(WriteFailed), Unsent(n);
      }
      reply := ReadResp(TYPE_CODE_HANDLE);
      x := Answered(reply);
      if reply.Got? && !reply.packet.Handle? {
        reply := Rejected(InvalidResponse);
      }
    }

    /** Returns the number of bytes to send and sent as well. */
    method SendWrite(handle: seq<byte>, offset: u64, data: seq<byte>)
      returns (bytesToSend: nat, bytesSent: nat, reply: Reply, ghost x: Exchange)
      modifies w, r`chunks
      ensures var p := Write(REQ_ID, handle, offset, data);
              && (x, Conn()) == DoExchange(p, old(Conn())) && reply == Settle(p, x)
              && bytesToSend == |Encode(p)| && bytesSent == if x.Unsent? then x.n else bytesToSend
    {
      var writePkt := Write(REQ_ID, handle, offset, data);
      var rawWritePkt := MakeRawPacket(writePkt);
      var rawWritePktBytes := rawWritePkt.Marshal();
      bytesToSend := |rawWritePktBytes|;
      var ok;
      bytesSent, ok := w.Write(rawWritePktBytes);
      if !ok {
        return bytesToSend, bytesSent, Rejected(WriteFailed), Unsent(bytesSent);
      }
      reply := ReadResp(TYPE_CODE_STATUS);
      x := Answered(reply);
      if reply.Got? {
        if !reply.packet.Status? {
          reply := Rejected(InvalidResponse);
        } else if reply.packet.errCode != SSH_FX_OK {
          reply := Rejected(ServerError);
        }
      }
    }

    method SendClose(handle: seq<byte>) returns (reply: Reply, ghost x: Exchange)
      modifies w, r`chunks
      ensures (x, Conn()) == DoExchange(Close(REQ_ID, handle), old(Conn()))
      ensures reply == Settle(Close(REQ_ID, handle), x)
    {
      var closePkt := Close(REQ_ID, handle);
      var rawClosePkt := MakeRawPacket(closePkt);
      var n, ok := w.Write(rawClosePkt.Marshal());
      if !ok {
        return Rejected(WriteFailed), Unsent(n);
      }
      reply := ReadResp(TYPE_CODE_STATUS);
      x := Answered(reply);
      if reply.Got? {
        if !reply.packet.Status? {
          reply := Rejected(InvalidResponse);
        } else if reply.packet.errCode != SSH_FX_OK {
          reply := Rejected(ServerError);
        }
      }
    }

    /** The second half of newClient: the version handshake. */
    method Handshake() returns (out: State, ghost x: Exchange)
      modifies w, r`chunks
      ensures (x, Conn()) == DoExchange(Init(CLIENT_VER), old(Conn()))
      ensures forall job: Job, gen: Source :: job.name == name ==> out == Next(job, gen, Initing, x)
    {
      var initResp;
      initResp, x := SendInit();
      if initResp.Panicked? {
        return Crashed, x;
      }
      if !initResp.Got? {
        return Finished(WriteResponse(name, 0, [], Some(InitFailed))), x;
      }
      if initResp.packet.version != CLIENT_VER {
        return Finished(WriteResponse(name, 0, [], Some(VersionMismatch))), x;
      }
      out := Opening;
    }

    /** Returns the WriteResponse, or reports the panic, that a run of the protocol from Opening
      * ends with, and leaves the connection as that run does. */
    method WriteRandom(handleStr: seq<byte>, toSend: u64) returns (out: State)
      modifies w, r`chunks, randomGen`pos
      ensures (out, Conn()) == Run(Job(name, handleStr, toSend), old(randomGen.Ahead()), Opening, old(Conn()))
    {
      hide Encode, DoExchange, Run, Settle, Next, Wrap64, Payload, ChunkOffset;
      ghost var job := Job(name, handleStr, toSend);
      ghost var gen := randomGen.Ahead();
      ghost var pos := randomGen.pos;
      ghost var goal := Run(job, gen, Opening, Conn());
      ghost var x;
      var openResp;
      ghost var before := Conn();
      openResp, x := SendOpen(handleStr, O_CREATE);
      ghost var st: State;
      RunGoesOn(job, gen, Opening, before, x, Conn());
      NextOpening(job, gen, x);
      if openResp.Panicked? {
        return Crashed;
      }
      if !openResp.Got? {
        return Finished(WriteResponse(name, 0, [], Some(OpenFailed)));
      }
      var handle := openResp.packet.handle;
      var totalDataBytesSent: u64 := 0;
      var bytes := new byte[BUFF_SIZE];
      var i: u64 := 0;
      while totalDataBytesSent < toSend
        invariant Valid(job, WriteOrClose(job, handle, i, totalDataBytesSent))
        invariant goal == Run(job, gen, WriteOrClose(job, handle, i, totalDataBytesSent), Conn())
        invariant randomGen.pos == pos + totalDataBytesSent
        decreases toSend - totalDataBytesSent
      {
        before, st := Conn(), Writing(handle, i, totalDataBytesSent);
        var leftToSend := toSend - totalDataBytesSent;
        var payloadSize := if leftToSend >= BUFF_SIZE then BUFF_SIZE else leftToSend;
        randomGen.Read(bytes, payloadSize);
        WritingRequest(job, gen, st, bytes[..payloadSize]);
        var bytesToSend, bytesSent, reply;
        bytesToSend, bytesSent, reply, x := SendWrite(handle, Wrap64(ChunkOffset(i)), bytes[..payloadSize]);
        RunGoesOn(job, gen, st, before, x, Conn());
        NextWriting(job, gen, st, x, reply, bytesToSend, bytesSent);
        var pktOverhead := Wrap64(bytesToSend - payloadSize);
        var dataBytesSent := Wrap64(bytesSent - pktOverhead);
        if dataBytesSent > 0 {
          totalDataBytesSent := Wrap64(totalDataBytesSent + dataBytesSent);
        }
        assert totalDataBytesSent == CountSent(st.total, payloadSize, bytesToSend, bytesSent);
        hide CountSent, PayloadSize;
        if reply.Panicked? {
          return Crashed;
        }
        if !reply.Got? {
          return Finished(WriteResponse(name, totalDataBytesSent, handle, Some(TransferFailed)));
        }
        i := Wrap64(i + 1);
      }
      var closeResp;
      before, st := Conn(), Closing(handle, totalDataBytesSent);
      closeResp, x := SendClose(handle);
      RunGoesOn(job, gen, st, before, x, Conn());
      NextClosing(job, gen, st, x);
      if closeResp.Panicked? {
        return Crashed;
      }
      out := Finished(WriteResponse(name, totalDataBytesSent, handle,
                                    if closeResp.Got? then None else Some(CloseFailed)));
    }
  }
}
