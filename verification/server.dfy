/** A reference SFTP server working on bytes: it decodes each request with the repository's own
  * Unmarshal methods and applies it to a file store. Open flags and permissions are ignored. */
module Server {
  import opened Wrappers
  import opened Marshal
  import opened Fxp
  import opened Framing
  import opened Protocol
  import Session

  type Store = map<seq<byte>, seq<byte>>
  /** The handles one connection has open, and the file each stands for. */
  type Handles = map<seq<byte>, seq<byte>>

  const SSH_FX_FAILURE: u32 := 4
  const SSH_FX_BAD_MESSAGE: u32 := 5
  const SSH_FX_OP_UNSUPPORTED: u32 := 8

  /** Limit on a handle's length in draft-ietf-secsh-filexfer-02, section 7. */
  const MAX_HANDLE: nat := 256

  /** What the server is free to decide: whether to refuse the request, which version to
    * announce, and which handle to give out. */
  datatype Choice = Choice(refuse: bool, version: u32, handle: seq<byte>)

  datatype Effect = Effect(handles: Handles, store: Store, reply: Packet)

  function Lookup(store: Store, file: seq<byte>): Option<seq<byte>> {
    if file in store then Some(store[file]) else None
  }

  function OrEmpty(content: Option<seq<byte>>): seq<byte> {
    if content.Some? then content.value else []
  }

  /** A file's content after a write at an offset; a gap is filled with zero bytes. */
  function Overwrite(content: seq<byte>, offset: nat, data: seq<byte>): seq<byte> {
    var head := if offset <= |content| then content[..offset] else ZeroPad(content, offset);
    var tail := if offset + |data| <= |content| then content[offset + |data|..] else [];
    head + data + tail
  }

  /** A write from offset 0 leaves exactly its data unless the file was longer before, in which
    * case the old tail stays. */
  lemma OverwriteExact(content: seq<byte>, data: seq<byte>)
    ensures Overwrite(content, 0, data) == data <==> |content| <= |data|
    ensures |content| > |data| ==> Overwrite(content, 0, data) == data + content[|data|..]
  {
  }

  function Refusal(id: u32, code: u32): Packet {
    Status(id, code, [], [])
  }

  /** A request, decoded from a frame's body by the Unmarshal method its type code selects. */
  function Decode(body: seq<byte>): Option<Packet> {
    if body == [] then None
    else
      var code, data := body[0], body[1..];
      var u :=
        if code == TYPE_CODE_INIT then UnmarshalInit(data)
        else if code == TYPE_CODE_OPEN then UnmarshalOpen(data)
        else if code == TYPE_CODE_WRITE then UnmarshalWrite(data)
        else if code == TYPE_CODE_CLOSE then UnmarshalClose(data)
        else Unmarshalled(Init(0), Some(ErrSize));
      if u.err.Some? then None else Some(u.packet)
  }

  function Perform(handles: Handles, store: Store, p: Packet, choice: Choice): Effect {
    match p
    case Init(_) =>
      Effect(handles, store, if choice.refuse then Refusal(0, SSH_FX_FAILURE) else Version(choice.version))
    case Open(id, filename, _) =>
      if choice.refuse || choice.handle in handles || |choice.handle| > MAX_HANDLE then
        Effect(handles, store, Refusal(id, SSH_FX_FAILURE))
      else
        Effect(handles[choice.handle := filename], store[filename := OrEmpty(Lookup(store, filename))],
                Handle(id, choice.handle))
    case Write(id, handle, offset, data) =>
      if choice.refuse || handle !in handles then Effect(handles, store, Refusal(id, SSH_FX_FAILURE))
      else
        var file := handles[handle];
        Effect(handles, store[file := Overwrite(OrEmpty(Lookup(store, file)), offset, data)],
                Status(id, SSH_FX_OK, [], []))
    case Close(id, handle) =>
      if choice.refuse || handle !in handles then Effect(handles, store, Refusal(id, SSH_FX_FAILURE))
      else Effect(handles - {handle}, store, Status(id, SSH_FX_OK, [], []))
    case _ => Effect(handles, store, Refusal(0, SSH_FX_OP_UNSUPPORTED))
  }

  function Serve(handles: Handles, store: Store, body: seq<byte>, choice: Choice): Effect {
    var p := Decode(body);
    if p.None? then Effect(handles, store, Refusal(0, SSH_FX_BAD_MESSAGE))
    else Perform(handles, store, p.value, choice)
  }

  /** The server reads back exactly the request that was sent. */
  lemma DecodeBody(p: Packet)
    requires Fits(p) && (p.Init? || p.Open? || p.Write? || p.Close?)
    ensures Decode(Body(p)) == Some(p)
  {
    var data := p.Marshal();
    FitsStrings(p);
    assert Body(p)[1..] == data && Body(p)[0] == p.GetCode();
    match p
    case Init(_) => InitExact(data, p);
    case Open(_, _, _) => OpenExact(data, p);
    case Write(_, _, _, _) => WriteExact(data, p);
    case Close(_, _) => CloseExact(data, p);
  }

  // ---------------------------------------------------------------------------
  // What the server holds for one client, seen from that client's state.

  /** What the file holds once the first n generated bytes have been written over what was
    * there before. */
  function Written(gen: Source, orig: Option<seq<byte>>, n: nat): Option<seq<byte>> {
    Some(Overwrite(OrEmpty(orig), 0, Data(gen, n)))
  }

  predicate ShortHandle(handle: seq<byte>) {
    |handle| <= MAX_HANDLE
  }

  /** Before the server has handled the request of this state. `orig` is what the client's file
    * held at the start of the simulation, `cur` what it holds now. */
  predicate AtServer(job: Job, gen: Source, st: State, handles: Handles,
                     orig: Option<seq<byte>>, cur: Option<seq<byte>>)
  {
    match st
    case Initing => handles == map[] && cur == orig
    case Opening => handles == map[] && cur == orig
    case Writing(h, _, total) => ShortHandle(h) && handles == map[h := job.file] && cur == Written(gen, orig, total)
    case Closing(h, total) => ShortHandle(h) && handles == map[h := job.file] && cur == Written(gen, orig, total)
    case _ => false
  }

  /** After the server has handled it and answered with packet q. */
  predicate AfterServer(job: Job, gen: Source, st: State, handles: Handles,
                        orig: Option<seq<byte>>, cur: Option<seq<byte>>, q: Packet)
    requires Valid(job, st)
  {
    match st
    case Initing => q.Version? && handles == map[] && cur == orig
    case Opening =>
      && q.Handle? && ShortHandle(q.handle) && handles == map[q.handle := job.file]
      && cur == Written(gen, orig, 0)
    case Writing(h, _, total) =>
      && q == Status(REQ_ID, SSH_FX_OK, [], []) && ShortHandle(h) && handles == map[h := job.file]
      && cur == Written(gen, orig, total + PayloadSize(job.toSend, total))
    case Closing(_, total) =>
      q == Status(REQ_ID, SSH_FX_OK, [], []) && handles == map[] && cur == Written(gen, orig, total)
    case _ => false
  }

  predicate IsRefusal(q: Packet) {
    q.Status? && q.errCode != SSH_FX_OK && q.errMsg == [] && q.lang == []
  }

  /** The answer on its way: a refusal that changed nothing, or a good answer. */
  predicate Answering(job: Job, gen: Source, st: State, handles: Handles,
                      orig: Option<seq<byte>>, cur: Option<seq<byte>>, q: Packet)
    requires Valid(job, st)
  {
    || (IsRefusal(q) && AtServer(job, gen, st, handles, orig, cur))
    || AfterServer(job, gen, st, handles, orig, cur, q)
  }

  /** Names short enough for every request to fit in a frame. */
  predicate ShortNames(job: Job) {
    |job.file| <= MAX_HANDLE
  }

  lemma RequestFits(job: Job, gen: Source, st: State)
    requires Valid(job, st) && !st.Terminal() && ShortNames(job)
    requires st.Writing? || st.Closing? ==> ShortHandle(st.handle)
    ensures Fits(Request(job, gen, st))
  {
  }

  lemma AnswerFits(job: Job, gen: Source, st: State, handles: Handles,
                   orig: Option<seq<byte>>, cur: Option<seq<byte>>, q: Packet)
    requires Valid(job, st) && Answering(job, gen, st, handles, orig, cur, q)
    ensures Fits(q)
  {
  }

  /** The server either refuses the request, changing nothing, or does what was asked. */
  lemma PerformRequest(job: Job, gen: Source, st: State, handles: Handles, store: Store,
                       orig: Option<seq<byte>>, choice: Choice)
    requires Valid(job, st) && !st.Terminal()
    requires AtServer(job, gen, st, handles, orig, Lookup(store, job.file))
    ensures var o := Perform(handles, store, Request(job, gen, st), choice);
            Answering(job, gen, st, o.handles, orig, Lookup(o.store, job.file), o.reply)
  {
    hide Overwrite;
    match st
    case Initing =>
    case Opening => WrittenNothing(gen, orig);
    case Writing(_, _, _) => PerformWrite(job, gen, st, handles, store, orig, choice);
    case Closing(h, total) =>
      assert handles - {h} == map[];
  }

  lemma PerformWrite(job: Job, gen: Source, st: State, handles: Handles, store: Store,
                     orig: Option<seq<byte>>, choice: Choice)
    requires Valid(job, st) && st.Writing?
    requires AtServer(job, gen, st, handles, orig, Lookup(store, job.file))
    ensures var o := Perform(handles, store, Request(job, gen, st), choice);
            Answering(job, gen, st, o.handles, orig, Lookup(o.store, job.file), o.reply)
  {
    hide Overwrite;
    Session.RequestIsPlanned(job, gen, st, st.handle);
    Session.WritesTile(job, gen, st.handle, st.i);
    WrittenMore(gen, orig, st.total, PayloadSize(job.toSend, st.total));
  }

  lemma WrittenNothing(gen: Source, orig: Option<seq<byte>>)
    ensures Written(gen, orig, 0) == Some(OrEmpty(orig))
  {
    var content := OrEmpty(orig);
    assert Data(gen, 0) == [];
    assert Overwrite(content, 0, []) == content;
  }

  lemma WrittenMore(gen: Source, orig: Option<seq<byte>>, n: nat, m: nat)
    ensures Overwrite(Written(gen, orig, n).value, n, Payload(gen, n, m)) == Written(gen, orig, n + m).value
  {
  }

  /** A request, whatever it is, touches no file but the one named by it or by its handle. */
  lemma PerformIsLocal(handles: Handles, store: Store, p: Packet, choice: Choice, file: seq<byte>, f: seq<byte>)
    requires handles == map[] || exists h: seq<byte> :: handles == map[h := file]
    requires p.Open? ==> p.filename == file
    requires f != file
    ensures Lookup(Perform(handles, store, p, choice).store, f) == Lookup(store, f)
  {
  }

  /** Through the bytes: the server decodes the client's request, answers it as above, and no
    * other file changes. */
  lemma ServeRequest(job: Job, gen: Source, st: State, handles: Handles, store: Store,
                     orig: Option<seq<byte>>, choice: Choice)
    requires Valid(job, st) && !st.Terminal() && ShortNames(job)
    requires AtServer(job, gen, st, handles, orig, Lookup(store, job.file))
    ensures var o := Serve(handles, store, Body(Request(job, gen, st)), choice);
            && Answering(job, gen, st, o.handles, orig, Lookup(o.store, job.file), o.reply)
            && (forall f: seq<byte> :: f != job.file ==> Lookup(o.store, f) == Lookup(store, f))
  {
    hide Decode, Perform, Body, Answering;
    var p := Request(job, gen, st);
    RequestFits(job, gen, st);
    DecodeBody(p);
    PerformRequest(job, gen, st, handles, store, orig, choice);
    forall f: seq<byte> | f != job.file
      ensures Lookup(Perform(handles, store, p, choice).store, f) == Lookup(store, f)
    {
      PerformIsLocal(handles, store, p, choice, job.file, f);
    }
  }
}
