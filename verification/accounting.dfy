/** The bytes of a run, the exact condition for its success in terms of the server's bytes, and
  * the worth of the byte count it reports. */
module Accounting {
  import opened Wrappers
  import opened Marshal
  import opened Fxp
  import opened Framing
  import opened Protocol
  import opened Session

  // ---------------------------------------------------------------------------
  // The bytes on the wire.

  /** What an exchange put on the wire: the whole request, or the part before the failure. */
  function EventBytes(e: Event): seq<byte> {
    var b := Encode(e.packet);
    if e.x.Unsent? && e.x.n < |b| then b[..e.x.n] else b
  }

  function LogBytes(log: seq<Event>): seq<byte> {
    if log == [] then [] else EventBytes(log[0]) + LogBytes(log[1..])
  }

  lemma {:induction false} RunSends(job: Job, gen: Source, st: State, w: Wire)
    requires Valid(job, st)
    ensures Run(job, gen, st, w).1.sent == w.sent + LogBytes(Log(job, gen, st, w))
    decreases Rank(job, st)
  {
    hide Encode, DoExchange, Next, EventBytes, Request;
    if st.Terminal() {
      assert w.sent + [] == w.sent;
    } else {
      var p := Request(job, gen, st);
      var (x, w') := DoExchange(p, w);
      ExchangeSends(p, w);
      var rest := Log(job, gen, Next(job, gen, st, x), w');
      RunSends(job, gen, Next(job, gen, st, x), w');
      assert ([Event(p, x)] + rest)[1..] == rest;
      assert w.sent + (EventBytes(Event(p, x)) + LogBytes(rest)) == w'.sent + LogBytes(rest);
    }
  }

  lemma {:induction false} FollowsBytes(log: seq<Event>, ps: seq<Packet>)
    requires Follows(log, ps)
    ensures LogBytes(log) == EncodeAll(ps[..|log| - 1]) + EventBytes(log[|log| - 1])
  {
    hide Encode;
    var n := |log| - 1;
    if n == 0 {
      assert EventBytes(log[0]) + [] == [] + EventBytes(log[0]);
    } else {
      FollowsBytes(log[1..], ps[1..]);
      assert ps[..n][1..] == ps[1..][..n - 1];
      Framing.Regroup(Encode(ps[0]), EncodeAll(ps[1..][..n - 1]), EventBytes(log[n]));
    }
  }

  /** The bytes are those of the first n requests in full, then a prefix of the next one. */
  predicate SentInOrder(bytes: seq<byte>, ps: seq<Packet>, n: nat) {
    && n < |ps| && EncodeAll(ps[..n]) <= bytes
    && bytes[|EncodeAll(ps[..n])|..] <= Encode(ps[n])
  }

  lemma FollowsInOrder(log: seq<Event>, ps: seq<Packet>)
    requires Follows(log, ps)
    ensures SentInOrder(LogBytes(log), ps, |log| - 1) && LogBytes(log) <= EncodeAll(ps)
  {
    hide Encode, EventBytes;
    FollowsBytes(log, ps);
    var n := |log| - 1;
    CutEvent(log[n]);
    var later := [ps[n]] + ps[n + 1..];
    assert ps == ps[..n] + later;
    EncodeAllAppend(ps[..n], later);
    assert later[1..] == ps[n + 1..];
    assert EncodeAll(later) == Encode(ps[n]) + EncodeAll(ps[n + 1..]);
  }

  /** A run puts its requests on the wire in session order, all of them in full except that
    * the last one may be cut short, and nothing else: its bytes are a prefix of the session's. */
  lemma WireGrammar(job: Job, gen: Source, st: State, w: Wire)
    requires Valid(job, st) && !st.Terminal()
    ensures var log := Log(job, gen, st, w);
            var ps := Planned(job, gen, st, w);
            && Run(job, gen, st, w).1.sent == w.sent + LogBytes(log)
            && 1 <= |log| <= |ps|
            && SentInOrder(LogBytes(log), ps, |log| - 1) && LogBytes(log) <= EncodeAll(ps)
  {
    hide Run, Log, Planned, EncodeAll, SentInOrder;
    TraceGrammar(job, gen, st, w);
    RunSends(job, gen, st, w);
    FollowsInOrder(Log(job, gen, st, w), Planned(job, gen, st, w));
  }

  lemma CutEvent(e: Event)
    ensures EventBytes(e) <= Encode(e.packet)
  {
  }

  lemma ExchangeSends(p: Packet, w: Wire)
    ensures var (x, w') := DoExchange(p, w);
            && (x.Unsent? ==> x.n <= |Encode(p)|)
            && w'.sent == w.sent + EventBytes(Event(p, x))
            && (Good(p, x) ==> w'.sent == w.sent + Encode(p))
  {
  }

  // ---------------------------------------------------------------------------
  // Success, in terms of the bytes the server sends.

  /** A frame body that answers request p well: it starts with the encoding of a packet of the
    * right type, with status OK (or the client's own version). */
  ghost predicate AnswersWell(p: Packet, body: seq<byte>) {
    exists q: Packet ::
      && RightKind(p, q) && StringsFit(Fields(q)) && Body(q) <= body
      && (q.Status? ==> q.errCode == SSH_FX_OK) && (q.Version? ==> q.version == CLIENT_VER)
  }

  lemma ParseExact(p: Packet, body: seq<byte>)
    requires p.Init? || p.Open? || p.Write? || p.Close?
    ensures Good(p, Answered(ParseResp(Expected(p), body))) <==> AnswersWell(p, body)
  {
    hide ParseResp, Settle, Good, Body, StringsFit, Fields;
    var reply := ParseResp(Expected(p), body);
    GoodMeans(p, reply);
    if Good(p, Answered(reply)) {
      ParsedIsPrefix(Expected(p), body, reply.packet);
    }
    if AnswersWell(p, body) {
      var q :| RightKind(p, q) && StringsFit(Fields(q)) && Body(q) <= body
               && (q.Status? ==> q.errCode == SSH_FX_OK) && (q.Version? ==> q.version == CLIENT_VER);
      ParsedIsPrefix(Expected(p), body, q);
    }
  }

  lemma GoodMeans(p: Packet, reply: Reply)
    requires p.Init? || p.Open? || p.Write? || p.Close?
    ensures Good(p, Answered(reply)) <==>
              && reply.Got? && RightKind(p, reply.packet)
              && (reply.packet.Status? ==> reply.packet.errCode == SSH_FX_OK)
              && (reply.packet.Version? ==> reply.packet.version == CLIENT_VER)
    ensures forall q: Packet :: RightKind(p, q) <==> q.GetCode() == Expected(p)
  {
  }

  /** ReadResp accepts a body as packet q exactly when it starts with q's body and is of the
    * expected type. */
  lemma ParsedIsPrefix(expected: byte, body: seq<byte>, q: Packet)
    requires expected == TYPE_CODE_VERSION || expected == TYPE_CODE_HANDLE || expected == TYPE_CODE_STATUS
    ensures ParseResp(expected, body) == Got(q) <==>
              q.GetCode() == expected && StringsFit(Fields(q)) && Body(q) <= body
  {
    if body != [] {
      var data := body[1..];
      StatusRespExact(data, q);
      OpenRespExact(data, q);
      VersionRespExact(data, q);
      BodyPrefix(q, body);
      VersionFits(q);
      hide Body, Packet.Marshal, StringsFit, Fields;
    }
  }

  /** The body starts with a packet of this type. */
  ghost predicate StartsWith(code: byte, body: seq<byte>) {
    exists q: Packet :: q.GetCode() == code && StringsFit(Fields(q)) && Body(q) <= body
  }

  /** It starts with a status packet whose error code is not zero. */
  ghost predicate StartsWithError(body: seq<byte>) {
    exists q: Packet :: q.Status? && q.errCode != 0 && StringsFit(Fields(q)) && Body(q) <= body
  }

  /** Why ReadResp rejects a body: a status where another type is expected tells of a server error
    * if it bears one; a packet of the expected type, or a status, has to be well formed; nothing
    * else may come. */
  lemma RejectionReasons(expected: byte, body: seq<byte>)
    requires body != []
    ensures var reply, code := ParseResp(expected, body), body[0];
            && (reply == Rejected(ServerError) <==> code == 101 != expected && StartsWithError(body))
            && (reply == Rejected(UnexpectedType) <==>
                  code != expected && (code == 101 ==> StartsWith(101, body) && !StartsWithError(body)))
            && (reply == Rejected(BadPacket) <==>
                  && (code == 101 || (code == expected && (code == 2 || code == 102)))
                  && !StartsWith(code, body))
            && (reply == Rejected(Unsupported) <==> code == expected && code != 2 && code != 101 && code != 102)
  {
    hide StatusRespSpec, OpenRespSpec, VersionRespSpec, StartsWith, StartsWithError;
    if body[0] == 101 {
      StatusStarts(body);
    } else {
      OtherStarts(body);
    }
  }

  lemma StatusStarts(body: seq<byte>)
    requires body != [] && body[0] == 101
    ensures var q := StatusRespSpec(body[1..]);
            && (q.Some? <==> StartsWith(101, body)) && (q.Some? ==> q.value.Status?)
            && (q.Some? && q.value.errCode != 0 <==> StartsWithError(body))
  {
    hide StatusRespSpec, Body, StringsFit, Fields, Packet.Marshal;
    var data := body[1..];
    forall q: Packet
      ensures StatusRespSpec(data) == Some(q) <==> q.GetCode() == 101 && StringsFit(Fields(q)) && Body(q) <= body
    {
      StatusRespExact(data, q);
      BodyPrefix(q, body);
    }
    assert StatusRespSpec(data).Some? ==> StatusRespSpec(data) == Some(StatusRespSpec(data).value);
  }

  lemma OtherStarts(body: seq<byte>)
    requires body != []
    ensures body[0] == 2 ==> (VersionRespSpec(body[1..]).Some? <==> StartsWith(2, body))
    ensures body[0] == 102 ==> (OpenRespSpec(body[1..]).Some? <==> StartsWith(102, body))
  {
    hide VersionRespSpec, OpenRespSpec, Body, StringsFit, Fields, Packet.Marshal;
    var data := body[1..];
    forall q: Packet
      ensures body[0] == 2 ==> (VersionRespSpec(data) == Some(q) <==>
                                q.GetCode() == 2 && StringsFit(Fields(q)) && Body(q) <= body)
      ensures body[0] == 102 ==> (OpenRespSpec(data) == Some(q) <==>
                                  q.GetCode() == 102 && StringsFit(Fields(q)) && Body(q) <= body)
    {
      VersionRespExact(data, q);
      OpenRespExact(data, q);
      BodyPrefix(q, body);
      VersionFits(q);
    }
    assert VersionRespSpec(data).Some? ==> VersionRespSpec(data) == Some(VersionRespSpec(data).value);
    assert OpenRespSpec(data).Some? ==> OpenRespSpec(data) == Some(OpenRespSpec(data).value);
  }

  lemma VersionFits(q: Packet)
    ensures q.Version? ==> StringsFit(Fields(q))
  {
  }

  lemma BodyPrefix(q: Packet, body: seq<byte>)
    requires body != []
    ensures Body(q) <= body <==> q.GetCode() == body[0] && q.Marshal() <= body[1..]
  {
    hide Packet.Marshal, Packet.GetCode;
    assert body == [body[0]] + body[1..];
    if Body(q) <= body {
      assert Body(q)[1..] == q.Marshal();
    }
  }

  /** What the Send methods make of an exchange that is not good. */
  lemma SettleReasons(p: Packet, q: Packet, n: nat, reason: RespError)
    requires p.Init? || p.Open? || p.Write? || p.Close?
    ensures Settle(p, Unsent(n)) == Rejected(WriteFailed) && Settle(p, Answered(Panicked)) == Panicked
    ensures Settle(p, Answered(Rejected(reason))) == Rejected(reason)
    ensures Settle(p, Answered(Got(q)))
            == if q.GetCode() != (if p.Init? then 2 else if p.Open? then 102 else 101) then Rejected(InvalidResponse)
               else if q.Status? && q.errCode != 0 then Rejected(ServerError)
               else Got(q)
  {
  }

  /** The next write is taken in full and the stream starts with a frame that answers well. */
  ghost predicate WellServed(p: Packet, w: Wire) {
    && (w.outcomes == [] || w.outcomes[0].Accept?)
    && exists body: seq<byte> ::
         |body| < TWO_32 && Frame(body) <= w.input.bytes && AnswersWell(p, body)
  }

  lemma ExchangeExact(p: Packet, w: Wire)
    requires p.Init? || p.Open? || p.Write? || p.Close?
    ensures Good(p, DoExchange(p, w).0) <==> WellServed(p, w)
  {
    hide Encode, ParseResp, Good, AnswersWell, Frame, ReadPacketSpec;
    RejectedIsNotGood(p);
    FirstFrame(w.input);
    var r := ReadPacketSpec(w.input);
    if r.err.None? {
      ParseExact(p, r.bytes);
    }
  }

  /** ReadPacket returns the body of the frame the stream starts with, if there is one. */
  lemma FirstFrame(s: Stream)
    ensures var r := ReadPacketSpec(s);
            && (r.err.None? ==> |r.bytes| < TWO_32 && Frame(r.bytes) <= s.bytes)
            && (forall body: seq<byte> :: |body| < TWO_32 && Frame(body) <= s.bytes ==> r.err.None? && r.bytes == body)
  {
    hide Frame;
    var r := ReadPacketSpec(s);
    if r.err.None? {
      ReadPacketExact(s, r.bytes, r.rest.bytes);
    }
    forall body: seq<byte> | |body| < TWO_32 && Frame(body) <= s.bytes
      ensures r.err.None? && r.bytes == body
    {
      var rest := s.bytes[|Frame(body)|..];
      assert s.bytes == Frame(body) + rest;
      ReadPacketExact(s, body, rest);
    }
  }

  lemma RejectedIsNotGood(p: Packet)
    ensures !Good(p, Answered(Rejected(ReadFailed)))
    ensures forall n :: !Good(p, Unsent(n))
  {
  }

  /** None of the writes of these requests fails, and the bytes are, frame by frame, good
    * answers to them. */
  ghost predicate Served(ps: seq<Packet>, outcomes: seq<WriteOutcome>, bytes: seq<byte>)
    decreases |ps|
  {
    ps == [] ||
    (&& (outcomes == [] || outcomes[0].Accept?)
     && exists body: seq<byte> ::
          && |body| < TWO_32 && Frame(body) <= bytes && AnswersWell(ps[0], body)
          && Served(ps[1..], if outcomes == [] then [] else outcomes[1..], bytes[|Frame(body)|..]))
  }

  lemma ServedExchange(ps: seq<Packet>, w: Wire)
    requires ps != [] && (ps[0].Init? || ps[0].Open? || ps[0].Write? || ps[0].Close?)
    ensures var (x, w') := DoExchange(ps[0], w);
            Served(ps, w.outcomes, w.input.bytes) <==> Good(ps[0], x) && Served(ps[1..], w'.outcomes, w'.input.bytes)
  {
    hide Encode, ParseResp, Good, AnswersWell, Frame, ReadPacketSpec;
    ExchangeExact(ps[0], w);
    FirstFrame(w.input);
    var r := ReadPacketSpec(w.input);
    if r.err.None? {
      RestOfStream(w.input);
    }
  }

  lemma RestOfStream(s: Stream)
    requires ReadPacketSpec(s).err.None?
    ensures var r := ReadPacketSpec(s);
            |r.bytes| < TWO_32 && Frame(r.bytes) <= s.bytes && r.rest.bytes == s.bytes[|Frame(r.bytes)|..]
  {
    hide Frame;
    var r := ReadPacketSpec(s);
    ReadPacketExact(s, r.bytes, r.rest.bytes);
  }

  lemma RequestKind(job: Job, gen: Source, st: State)
    requires Valid(job, st) && !st.Terminal()
    ensures var p := Request(job, gen, st);
            p.Init? || p.Open? || p.Write? || p.Close?
  {
  }

  /** A run succeeds exactly when none of its session's writes fails and the server's bytes
    * are, frame by frame, good answers to the session's requests; it then reports toSend bytes. */
  lemma {:induction false} SuccessExact(job: Job, gen: Source, st: State, w: Wire)
    requires Valid(job, st) && !st.Terminal()
    ensures Succeeded(Run(job, gen, st, w).0) <==> Served(Planned(job, gen, st, w), w.outcomes, w.input.bytes)
    ensures Succeeded(Run(job, gen, st, w).0) ==> Run(job, gen, st, w).0.resp.bytesSent == job.toSend
    decreases Rank(job, st)
  {
    hide DoExchange, Request, Next, Good, Planned, Served;
    var p := Request(job, gen, st);
    var (x, w') := DoExchange(p, w);
    var st' := Next(job, gen, st, x);
    RequestKind(job, gen, st);
    PlannedUnfolds(job, gen, st, w);
    NextIsNext(job, gen, st, x);
    ServedExchange(Planned(job, gen, st, w), w);
    if st'.Terminal() {
      assert st.Closing? ==> Planned(job, gen, st, w)[1..] == [];
      NothingLeft(w');
    } else {
      SuccessExact(job, gen, st', w');
    }
  }

  lemma NothingLeft(w: Wire)
    ensures Served([], w.outcomes, w.input.bytes)
  {
  }

  /** The condition depends on the server's bytes, not on the run: any handle will do. */
  lemma SuccessByBytes(job: Job, gen: Source, st: State, w: Wire, handle: seq<byte>)
    requires Valid(job, st) && !st.Terminal()
    ensures var all := Requests(job, gen, handle);
            && Index(job, st) < |all|
            && (Succeeded(Run(job, gen, st, w).0) <==> Served(all[Index(job, st)..], w.outcomes, w.input.bytes))
  {
    hide Run, Served, Succeeded;
    SuccessExact(job, gen, st, w);
    SamePlan(job, gen, st, w, handle);
    ServedByKind(Planned(job, gen, st, w), Requests(job, gen, handle)[Index(job, st)..], w.outcomes, w.input.bytes);
  }

  /** Requests that take the same answers. */
  predicate SameKinds(ps: seq<Packet>, qs: seq<Packet>) {
    && |ps| == |qs|
    && forall i :: 0 <= i < |ps| ==> (ps[i].Init? <==> qs[i].Init?) && (ps[i].Open? <==> qs[i].Open?)
  }

  lemma SamePlan(job: Job, gen: Source, st: State, w: Wire, handle: seq<byte>)
    requires Valid(job, st) && !st.Terminal()
    ensures Index(job, st) < |Requests(job, gen, handle)|
    ensures SameKinds(Planned(job, gen, st, w), Requests(job, gen, handle)[Index(job, st)..])
  {
    hide HandleOf, Requests, SameKinds;
    var granted := HandleOf(job, gen, st, w);
    if st.Writing? || st.Closing? {
      HandleIsKept(job, gen, st, w);
    }
    RequestIsPlanned(job, gen, st, granted);
    AnyHandle(job, gen, granted, handle);
    SameKindsFrom(Requests(job, gen, granted), Requests(job, gen, handle), Index(job, st));
  }

  lemma AnyHandle(job: Job, gen: Source, h: seq<byte>, h': seq<byte>)
    ensures SameKinds(Requests(job, gen, h), Requests(job, gen, h'))
  {
  }

  lemma SameKindsFrom(ps: seq<Packet>, qs: seq<Packet>, n: nat)
    requires SameKinds(ps, qs) && n <= |ps|
    ensures SameKinds(ps[n..], qs[n..])
  {
  }

  lemma HandleIsKept(job: Job, gen: Source, st: State, w: Wire)
    requires Valid(job, st) && (st.Writing? || st.Closing?)
    ensures HandleOf(job, gen, st, w) == st.handle
  {
  }

  lemma {:induction false} ServedByKind(ps: seq<Packet>, qs: seq<Packet>, outcomes: seq<WriteOutcome>, bytes: seq<byte>)
    requires SameKinds(ps, qs)
    ensures Served(ps, outcomes, bytes) <==> Served(qs, outcomes, bytes)
    decreases |ps|
  {
    hide Frame, Body, StringsFit, Fields;
    if ps == [] {
    } else {
      var later := if outcomes == [] then [] else outcomes[1..];
      forall body: seq<byte> | |body| < TWO_32 && Frame(body) <= bytes
        ensures AnswersWell(ps[0], body) <==> AnswersWell(qs[0], body)
        ensures var rest := bytes[|Frame(body)|..];
                Served(ps[1..], later, rest) <==> Served(qs[1..], later, rest)
      {
        ServedByKind(ps[1..], qs[1..], later, bytes[|Frame(body)|..]);
      }
    }
  }

  /** The one way to crash a client: a frame of length zero where a response is due. */
  lemma PanicExact(expected: byte, s: Stream)
    ensures ReadRespSpec(expected, s).0.Panicked? <==> Frame([]) <= s.bytes
  {
    hide Frame, ReadPacketSpec, ParseResp;
    FirstFrame(s);
    var r := ReadPacketSpec(s);
    PanicOnEmpty(expected, r.bytes);
    if Frame([]) <= s.bytes {
      assert r.err.None? && r.bytes == [];
    }
  }

  lemma PanicOnEmpty(expected: byte, body: seq<byte>)
    ensures ParseResp(expected, body).Panicked? <==> body == []
  {
  }

  /** Some of these requests, maybe none, are written and answered well; the next one is written
    * too, and what then comes is a frame of length zero. */
  ghost predicate MeetsEmptyFrame(ps: seq<Packet>, outcomes: seq<WriteOutcome>, bytes: seq<byte>)
    decreases |ps|
  {
    && ps != [] && (outcomes == [] || outcomes[0].Accept?)
    && (|| Frame([]) <= bytes
        || exists body: seq<byte> ::
             && |body| < TWO_32 && Frame(body) <= bytes && AnswersWell(ps[0], body)
             && MeetsEmptyFrame(ps[1..], if outcomes == [] then [] else outcomes[1..], bytes[|Frame(body)|..]))
  }

  /** An exchange panics exactly when its request is written and an empty frame comes back. */
  lemma ExchangePanics(p: Packet, w: Wire)
    ensures DoExchange(p, w).0 == Answered(Panicked) <==>
              (w.outcomes == [] || w.outcomes[0].Accept?) && Frame([]) <= w.input.bytes
  {
    hide Encode, ReadRespSpec, Frame;
    PanicExact(Expected(p), w.input);
  }

  lemma MeetsExchange(ps: seq<Packet>, w: Wire)
    requires ps != [] && (ps[0].Init? || ps[0].Open? || ps[0].Write? || ps[0].Close?)
    ensures var (x, w') := DoExchange(ps[0], w);
            MeetsEmptyFrame(ps, w.outcomes, w.input.bytes) <==>
              || x == Answered(Panicked)
              || (Good(ps[0], x) && MeetsEmptyFrame(ps[1..], w'.outcomes, w'.input.bytes))
  {
    hide Encode, ParseResp, Good, AnswersWell, Frame, ReadPacketSpec;
    ExchangePanics(ps[0], w);
    ExchangeExact(ps[0], w);
    FirstFrame(w.input);
    var r := ReadPacketSpec(w.input);
    if r.err.None? {
      RestOfStream(w.input);
    }
  }

  lemma CrashedExact(job: Job, gen: Source, st: State, x: Exchange)
    requires Valid(job, st) && !st.Terminal()
    ensures Next(job, gen, st, x).Crashed? <==> x == Answered(Panicked)
  {
    hide Encode;
  }

  /** A run crashes exactly when, after good answers to all earlier requests, a request that went
    * out in full is answered with an empty frame. */
  lemma {:induction false} CrashExact(job: Job, gen: Source, st: State, w: Wire)
    requires Valid(job, st) && !st.Terminal()
    ensures Run(job, gen, st, w).0.Crashed? <==> MeetsEmptyFrame(Planned(job, gen, st, w), w.outcomes, w.input.bytes)
    decreases Rank(job, st)
  {
    hide DoExchange, Request, Next, Good, Planned, MeetsEmptyFrame;
    var p := Request(job, gen, st);
    var (x, w') := DoExchange(p, w);
    var st' := Next(job, gen, st, x);
    RequestKind(job, gen, st);
    PlannedUnfolds(job, gen, st, w);
    NextIsNext(job, gen, st, x);
    CrashedExact(job, gen, st, x);
    MeetsExchange(Planned(job, gen, st, w), w);
    if st'.Terminal() {
      assert st.Closing? ==> Planned(job, gen, st, w)[1..] == [];
      NothingToMeet(w');
    } else {
      CrashExact(job, gen, st', w');
    }
  }

  /** Nor does this condition depend on the handle. */
  lemma CrashByBytes(job: Job, gen: Source, st: State, w: Wire, handle: seq<byte>)
    requires Valid(job, st) && !st.Terminal()
    ensures var all := Requests(job, gen, handle);
            && Index(job, st) < |all|
            && (Run(job, gen, st, w).0.Crashed? <==>
                  MeetsEmptyFrame(all[Index(job, st)..], w.outcomes, w.input.bytes))
  {
    hide Run, MeetsEmptyFrame;
    CrashExact(job, gen, st, w);
    SamePlan(job, gen, st, w, handle);
    MeetsByKind(Planned(job, gen, st, w), Requests(job, gen, handle)[Index(job, st)..], w.outcomes, w.input.bytes);
  }

  lemma {:induction false} MeetsByKind(ps: seq<Packet>, qs: seq<Packet>, outcomes: seq<WriteOutcome>, bytes: seq<byte>)
    requires SameKinds(ps, qs)
    ensures MeetsEmptyFrame(ps, outcomes, bytes) <==> MeetsEmptyFrame(qs, outcomes, bytes)
    decreases |ps|
  {
    hide Frame, Body, StringsFit, Fields;
    if ps == [] {
    } else {
      var later := if outcomes == [] then [] else outcomes[1..];
      forall body: seq<byte> | |body| < TWO_32 && Frame(body) <= bytes
        ensures AnswersWell(ps[0], body) <==> AnswersWell(qs[0], body)
        ensures var rest := bytes[|Frame(body)|..];
                MeetsEmptyFrame(ps[1..], later, rest) <==> MeetsEmptyFrame(qs[1..], later, rest)
      {
        MeetsByKind(ps[1..], qs[1..], later, bytes[|Frame(body)|..]);
      }
    }
  }

  lemma NothingToMeet(w: Wire)
    ensures !MeetsEmptyFrame([], w.outcomes, w.input.bytes)
  {
  }

  // ---------------------------------------------------------------------------
  // The response.

  /** At which stage a run ends whose last exchange is this one. */
  function FailureAt(e: Event): Option<Failure> {
    if Good(e.packet, e.x) then None
    else if e.packet.Init? then Some(if Settle(e.packet, e.x).Got? then VersionMismatch else InitFailed)
    else if e.packet.Open? then Some(OpenFailed)
    else if e.packet.Write? then Some(TransferFailed)
    else Some(CloseFailed)
  }

  /** A response bears the client's name, the handle the server gave out, if it did, and the stage
    * of the last exchange if that failed. */
  lemma {:induction false} ResponseFields(job: Job, gen: Source, st: State, w: Wire)
    requires Valid(job, st) && !st.Terminal()
    ensures var log := Log(job, gen, st, w);
            var end := Run(job, gen, st, w).0;
            && |log| >= 1
            && (end.Finished? ==>
                  && end.resp.clientName == job.name && end.resp.handle == HandleOf(job, gen, st, w)
                  && end.resp.err == FailureAt(log[|log| - 1]))
    decreases Rank(job, st)
  {
    hide DoExchange, Next, Request, FailureAt;
    var p := Request(job, gen, st);
    var (x, w') := DoExchange(p, w);
    var st' := Next(job, gen, st, x);
    LastFields(job, gen, st, x);
    NextIsNext(job, gen, st, x);
    if st'.Terminal() {
      assert [Event(p, x)] + [] == [Event(p, x)];
    } else {
      ResponseFields(job, gen, st', w');
      if st.Writing? || st.Closing? {
        HandleIsKept(job, gen, st, w);
        HandleIsKept(job, gen, st', w');
      }
    }
  }

  lemma LastFields(job: Job, gen: Source, st: State, x: Exchange)
    requires Valid(job, st) && !st.Terminal()
    ensures var st' := Next(job, gen, st, x);
            st'.Finished? ==>
              && st'.resp.clientName == job.name
              && st'.resp.handle == (if st.Writing? || st.Closing? then st.handle else [])
              && st'.resp.err == FailureAt(Event(Request(job, gen, st), x))
    ensures st.Writing? && !Next(job, gen, st, x).Terminal() ==>
              Next(job, gen, st, x).Writing? || Next(job, gen, st, x).Closing?
  {
    hide Framing.Encode, Wrap64;
  }

  /** The handle is the one the open request was answered with. */
  lemma GrantedHandle(job: Job, gen: Source, w: Wire)
    ensures var log := Log(job, gen, Opening, w);
            && |log| >= 1
            && HandleOf(job, gen, Opening, w)
               == if Good(log[0].packet, log[0].x) then log[0].x.reply.packet.handle else []
  {
    hide Framing.Encode, DoExchange;
    var (x, w') := DoExchange(Request(job, gen, Opening), w);
    NextOpening(job, gen, x);
  }

  // ---------------------------------------------------------------------------
  // The reported byte count.

  /** Bytes of file data the server has acknowledged. */
  function Acked(log: seq<Event>): nat {
    if log == [] then 0
    else (if log[0].packet.Write? && Good(log[0].packet, log[0].x) then |log[0].packet.data| else 0) + Acked(log[1..])
  }

  function Base(st: State): nat {
    if st.Writing? || st.Closing? then st.total else 0
  }

  /** What WriteRandom reports, given what was acknowledged before and the last event. */
  predicate Reports(bytesSent: u64, acked: nat, job: Job, last: Event) {
    var p, x := last.packet, last.x;
    if Good(p, x) && p.Close? then bytesSent == acked == job.toSend
    else if p.Write? && x.Answered? then bytesSent == acked + |p.data|
    else if p.Write? then bytesSent == Wrap64(acked + |p.data| - (|Encode(p)| - x.n))
    else bytesSent == acked
  }

  /** A good exchange that does not end the run adds what it acknowledged to the total. */
  lemma BaseStep(job: Job, gen: Source, st: State, x: Exchange)
    requires Valid(job, st) && !st.Terminal() && !Next(job, gen, st, x).Terminal()
    ensures var st' := Next(job, gen, st, x);
            && Good(Request(job, gen, st), x)
            && Base(st') == Base(st) + Acked([Event(Request(job, gen, st), x)]) <= job.toSend
  {
    hide Encode, Next, Settle, Good;
    NextIsNext(job, gen, st, x);
    RequestIsPlanned(job, gen, st, if st.Writing? || st.Closing? then st.handle else []);
  }

  lemma AckedCons(e: Event, log: seq<Event>)
    ensures Acked([e] + log) == Acked([e]) + Acked(log)
  {
  }

  /** On success the count is toSend and equals what was acknowledged. If a write reached the
    * wire in full but was not acknowledged, its payload is counted all the same; if it was cut
    * short, the count is the exact modular formula; otherwise it is what was acknowledged. */
  lemma {:induction false} ReportedCount(job: Job, gen: Source, st: State, w: Wire)
    requires Valid(job, st) && !st.Terminal()
    ensures var log := Log(job, gen, st, w);
            var end := Run(job, gen, st, w).0;
            && |log| >= 1
            && (end.Finished? ==> Reports(end.resp.bytesSent, Base(st) + Acked(log), job, log[|log| - 1]))
    decreases Rank(job, st)
  {
    hide Encode, DoExchange, Good, Next, Request, Acked, Base, Reports, Valid;
    var p := Request(job, gen, st);
    var (x, w') := DoExchange(p, w);
    var st' := Next(job, gen, st, x);
    if st'.Terminal() {
      NextIsNext(job, gen, st, x);
      NextReports(job, gen, st, x);
      assert [Event(p, x)] + [] == [Event(p, x)];
    } else {
      ReportedCount(job, gen, st', w');
      BaseStep(job, gen, st, x);
      AckedCons(Event(p, x), Log(job, gen, st', w'));
    }
  }

  lemma NextReports(job: Job, gen: Source, st: State, x: Exchange)
    requires Valid(job, st) && !st.Terminal() && (st.Closing? || !Good(Request(job, gen, st), x))
    ensures var e := Event(Request(job, gen, st), x);
            var st' := Next(job, gen, st, x);
            st'.Finished? ==> Reports(st'.resp.bytesSent, Base(st) + Acked([e]), job, e)
  {
    hide Encode, Wrap64;
    if st.Writing? {
      var p := Request(job, gen, st);
      var L := |Encode(p)|;
      var sent := if x.Unsent? then x.n else L;
      NextWriting(job, gen, st, x, Settle(p, x), L, sent);
      CountSentIsModular(st.total, |p.data|, L, sent);
      CountSentInFull(st.total, |p.data|, L);
      hide CountSent, Next;
    }
  }

  /** The offset of the last write is the number of bytes acknowledged before it. */
  lemma {:induction false} LastWrite(job: Job, gen: Source, st: State, w: Wire)
    requires Valid(job, st) && !st.Terminal()
    requires st.Writing? || st.Closing? ==> |st.handle| < TWO_32
    ensures var log := Log(job, gen, st, w);
            && |log| >= 1 && Base(st) + Acked(log) <= job.toSend
            && var last := log[|log| - 1];
               last.packet.Write? && !Good(last.packet, last.x) ==>
                 && last.packet.offset == Base(st) + Acked(log)
                 && 1 <= |last.packet.data| <= BUFF_SIZE
                 && last.packet.offset + |last.packet.data| <= job.toSend
                 && |last.packet.handle| < TWO_32
                 && (last.x.Unsent? ==> last.x.n <= |Encode(last.packet)|)
    decreases Rank(job, st)
  {
    hide Encode, DoExchange, Good, Next, Request, Base, Acked, Valid;
    var p := Request(job, gen, st);
    var (x, w') := DoExchange(p, w);
    var st' := Next(job, gen, st, x);
    if st'.Terminal() {
      ExchangeSends(p, w);
      WriteFacts(job, gen, st, x);
      assert [Event(p, x)] + [] == [Event(p, x)];
    } else {
      HandleFits(job, gen, st, w);
      LastWrite(job, gen, st', w');
      BaseStep(job, gen, st, x);
      AckedCons(Event(p, x), Log(job, gen, st', w'));
    }
  }

  lemma WriteFacts(job: Job, gen: Source, st: State, x: Exchange)
    requires Valid(job, st) && !st.Terminal() && Next(job, gen, st, x).Terminal()
    ensures var p := Request(job, gen, st);
            && Base(st) + Acked([Event(p, x)]) <= job.toSend
            && (p.Write? ==> st.Writing?)
            && (p.Write? && !Good(p, x) ==>
                  && p.offset == Base(st) + Acked([Event(p, x)]) && p.handle == st.handle
                  && 1 <= |p.data| <= BUFF_SIZE && p.offset + |p.data| <= job.toSend)
  {
    hide Encode, Next, Settle, Good;
    NextIsNext(job, gen, st, x);
    if st.Writing? {
      RequestIsPlanned(job, gen, st, st.handle);
      WritesTile(job, gen, st.handle, st.i);
    }
  }

  /** A handle read from a response is shorter than 2^32 bytes. */
  lemma HandleFits(job: Job, gen: Source, st: State, w: Wire)
    requires Valid(job, st) && !st.Terminal()
    requires st.Writing? || st.Closing? ==> |st.handle| < TWO_32
    ensures var st' := Next(job, gen, st, DoExchange(Request(job, gen, st), w).0);
            st'.Writing? || st'.Closing? ==> |st'.handle| < TWO_32
  {
    hide Encode, ReadPacketSpec, ParseResp;
    if st.Opening? {
      var reply := ParseResp(TYPE_CODE_HANDLE, ReadPacketSpec(w.input).bytes);
      if reply.Got? {
        var q := reply.packet;
        ParsedIsPrefix(TYPE_CODE_HANDLE, ReadPacketSpec(w.input).bytes, q);
        if q.Handle? {
          assert Fields(q)[1].str == q.handle;
        }
      }
    } else if st.Writing? {
      NextIsNext(job, gen, st, DoExchange(Request(job, gen, st), w).0);
    }
  }

  /** Framing and field headers of a write request take 25 bytes plus the handle, whatever the
    * chunk and the offset, exactly when the frame's 32-bit length does not wrap to zero. */
  lemma HeaderOverhead(handle: seq<byte>, offset: u64, data: seq<byte>)
    ensures |Encode(Write(REQ_ID, handle, offset, data))| - |data| == 25 + |handle| <==>
              Wrap32(21 + |handle| + |data|) != 0
  {
  }

  /** The count of a cut-short write brackets the truth exactly when at least its header
    * reached the wire: the uint64 subtraction is not clamped at zero. */
  lemma CutWriteExact(acked: nat, p: Packet, n: nat, bytesSent: u64)
    requires p.Write? && |p.handle| < TWO_32 && 1 <= |p.data| <= BUFF_SIZE && n <= |Encode(p)|
    requires acked + |p.data| < TWO_64
    requires bytesSent == Wrap64(acked + |p.data| - (|Encode(p)| - n))
    ensures acked <= bytesSent <= acked + |p.data| <==> n >= |Encode(p)| - |p.data|
  {
  }

  /** Failure accounting for WriteRandom. The count lies between the acknowledged bytes and one
    * chunk more, and never exceeds toSend, exactly when a write that failed part-way got its
    * header out; every other failure satisfies it unconditionally. */
  lemma FailureAccounting(job: Job, gen: Source, w: Wire)
    ensures var log := Log(job, gen, Opening, w);
            var end := Run(job, gen, Opening, w).0;
            && |log| >= 1
            && var last := log[|log| - 1];
               var chunk := if last.packet.Write? then |last.packet.data| else 0;
               end.Finished? && end.resp.err.Some? ==>
                 (Acked(log) <= end.resp.bytesSent <= Acked(log) + chunk && end.resp.bytesSent <= job.toSend
                  <==> (last.packet.Write? && last.x.Unsent? ==> last.x.n >= |Encode(last.packet)| - chunk))
  {
    hide Encode, Run, Log, Wrap64, Good, Planned, HandleOf, Follows, Requests;
    var log := Log(job, gen, Opening, w);
    var end := Run(job, gen, Opening, w).0;
    ReportedCount(job, gen, Opening, w);
    LastWrite(job, gen, Opening, w);
    TraceGrammar(job, gen, Opening, w);
    var last := log[|log| - 1];
    RejectedIsNotGood(last.packet);
    if end.Finished? && end.resp.err.Some? && last.packet.Write? && last.x.Unsent? {
      CutWriteExact(Acked(log), last.packet, last.x.n, end.resp.bytesSent);
    }
  }

  /** An exchange with a server that answers with packet q. */
  lemma AnsweredExchange(p: Packet, q: Packet, w: Wire)
    requires (p.Init? || p.Open? || p.Write? || p.Close?) && Fits(q) && q.GetCode() == Expected(p)
    requires w.outcomes == [] || w.outcomes[0].Accept?
    requires Encode(q) <= w.input.bytes
    ensures DoExchange(p, w).0 == Answered(Got(q))
    ensures w.outcomes != [] ==> DoExchange(p, w).1.outcomes == w.outcomes[1..]
  {
    hide Encode, Body, ReadPacketSpec, ParseResp, Fits, StringsFit;
    var rest := w.input.bytes[|Encode(q)|..];
    assert w.input == Stream(Encode(q) + rest, w.input.ending);
    FramingRoundTrip(q, rest, w.input.ending);
    FitsStrings(q);
    ParsedIsPrefix(Expected(p), Body(q), q);
  }

  lemma CutExchange(p: Packet, w: Wire)
    requires w.outcomes != [] && w.outcomes[0] == Short(0)
    ensures DoExchange(p, w).0 == Unsent(0)
  {
  }

  /** The other case does occur: the server grants a handle of one byte, the pipe then fails
    * before taking a byte of the only write, and WriteRandom reports 2^64 - 26 bytes sent
    * although none were acknowledged. */
  lemma WrapWitness(name: seq<byte>, gen: Source)
    ensures var job := Job(name, [102], 1);
            var granted := Handle(REQ_ID, [104]);
            var w := Wire([], [Accept, Short(0)], Stream(Encode(granted), EOF));
            Run(job, gen, Opening, w).0 == Finished(WriteResponse(name, TWO_64 - 26, [104], Some(TransferFailed)))
  {
    hide Encode, Run, Next, DoExchange;
    var job := Job(name, [102], 1);
    var granted := Handle(REQ_ID, [104]);
    var w := Wire([], [Accept, Short(0)], Stream(Encode(granted), EOF));
    var open := Request(job, gen, Opening);
    assert |granted.Marshal()| == 9;
    AnsweredExchange(open, granted, w);
    var (x, w1) := DoExchange(open, w);
    RunUnfolds(job, gen, Opening, w, x, w1);
    NextOpening(job, gen, x);
    var st := Writing([104], 0, 0);
    var write := Request(job, gen, st);
    HeaderOverhead([104], write.offset, write.data);
    CutExchange(write, w1);
    var (y, w2) := DoExchange(write, w1);
    RunUnfolds(job, gen, st, w1, y, w2);
    NextWriting(job, gen, st, y, Rejected(WriteFailed), 27, 0);
    RunEnds(job, gen, Next(job, gen, st, y), w2);
    CountSentIsModular(0, 1, 27, 0);
  }
}
