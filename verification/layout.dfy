/** The bytes on the wire, written out with the numbers of draft-ietf-secsh-filexfer-02 and of the
  * source: what each packet looks like, what a client's requests look like, and which answers it
  * takes for good ones. */
module Layout {
  import opened Marshal
  import opened Fxp
  import opened Framing
  import opened Protocol
  import Accounting

  // ---------------------------------------------------------------------------
  // Every kind of packet: length, type code, fields.

  lemma InitLayout(version: u32)
    ensures Encode(Init(version)) == [0, 0, 0, 5, 1] + MarshalUint32(version)
  {
    FiveBytes(Init(version), 1);
  }

  lemma VersionLayout(version: u32)
    ensures Encode(Version(version)) == [0, 0, 0, 5, 2] + MarshalUint32(version)
  {
    FiveBytes(Version(version), 2);
  }

  lemma FiveBytes(p: Packet, code: byte)
    requires |p.Marshal()| == 4 && p.GetCode() == code
    ensures Encode(p) == [0, 0, 0, 5, code] + p.Marshal()
  {
    hide Encode, MarshalUint32, Packet.Marshal;
    EncodeIsFrame(p);
    Uint32Layout(0, 0, 0, 5);
    assert [0, 0, 0, 5] + ([code] + p.Marshal()) == [0, 0, 0, 5, code] + p.Marshal();
  }

  lemma OpenLayout(id: u32, filename: seq<byte>, flags: u32)
    requires 17 + |filename| < TWO_32
    ensures Encode(Open(id, filename, flags))
            == MarshalUint32(17 + |filename|) + [3] + MarshalUint32(id)
               + MarshalUint32(|filename|) + filename + MarshalUint32(flags) + [0, 0, 0, 0]
  {
    hide Encode, MarshalUint32, MarshalString;
    EncodeIsFrame(Open(id, filename, flags));
    StringIsPrefixed(filename);
    Flat(MarshalUint32(17 + |filename|), [3], MarshalUint32(id), MarshalUint32(|filename|), filename,
         MarshalUint32(flags), [0, 0, 0, 0]);
  }

  lemma CloseLayout(id: u32, handle: seq<byte>)
    requires 9 + |handle| < TWO_32
    ensures Encode(Close(id, handle))
            == MarshalUint32(9 + |handle|) + [4] + MarshalUint32(id) + MarshalUint32(|handle|) + handle
  {
    hide Encode, MarshalUint32, MarshalString;
    EncodeIsFrame(Close(id, handle));
    StringIsPrefixed(handle);
    Flat(MarshalUint32(9 + |handle|), [4], MarshalUint32(id), MarshalUint32(|handle|), handle, [], []);
  }

  lemma HandleLayout(id: u32, handle: seq<byte>)
    requires 9 + |handle| < TWO_32
    ensures Encode(Handle(id, handle))
            == MarshalUint32(9 + |handle|) + [102] + MarshalUint32(id) + MarshalUint32(|handle|) + handle
  {
    hide Encode, MarshalUint32, MarshalString;
    EncodeIsFrame(Handle(id, handle));
    StringIsPrefixed(handle);
    Flat(MarshalUint32(9 + |handle|), [102], MarshalUint32(id), MarshalUint32(|handle|), handle, [], []);
  }

  lemma WriteLayout(id: u32, handle: seq<byte>, offset: u64, data: seq<byte>)
    requires 21 + |handle| + |data| < TWO_32
    ensures Encode(Write(id, handle, offset, data))
            == MarshalUint32(21 + |handle| + |data|) + [6] + MarshalUint32(id)
               + MarshalUint32(|handle|) + handle + MarshalUint64(offset) + (MarshalUint32(|data|) + data)
  {
    hide Encode, MarshalUint32, MarshalUint64, MarshalString;
    EncodeIsFrame(Write(id, handle, offset, data));
    StringIsPrefixed(handle);
    StringIsPrefixed(data);
    Flat(MarshalUint32(21 + |handle| + |data|), [6], MarshalUint32(id), MarshalUint32(|handle|), handle,
         MarshalUint64(offset), MarshalUint32(|data|) + data);
  }

  lemma StatusLayout(id: u32, code: u32, msg: seq<byte>, lang: seq<byte>)
    requires 17 + |msg| + |lang| < TWO_32
    ensures Encode(Status(id, code, msg, lang))
            == MarshalUint32(17 + |msg| + |lang|) + [101] + (MarshalUint32(id) + MarshalUint32(code))
               + MarshalUint32(|msg|) + msg + (MarshalUint32(|lang|) + lang)
  {
    hide Encode, MarshalUint32, MarshalString;
    EncodeIsFrame(Status(id, code, msg, lang));
    StringIsPrefixed(msg);
    StringIsPrefixed(lang);
    Flat(MarshalUint32(17 + |msg| + |lang|), [101], MarshalUint32(id) + MarshalUint32(code),
         MarshalUint32(|msg|), msg, MarshalUint32(|lang|) + lang, []);
  }

  lemma Flat(l: seq<byte>, c: seq<byte>, a: seq<byte>, n: seq<byte>, s: seq<byte>, x: seq<byte>, y: seq<byte>)
    ensures l + (c + (a + (n + s) + x + y)) == l + c + a + n + s + x + y
    ensures x == y == [] ==> l + (c + (a + (n + s))) == l + c + a + n + s
    ensures y == [] ==> l + (c + (a + (n + s) + x)) == l + c + a + n + s + x
  {
  }

  /** A packet of any size: the length field holds the low 32 bits of its length, and if these are
    * zero nothing but the field is sent. */
  lemma LengthWraps(p: Packet)
    ensures var length := |p.Marshal()| + 1;
            if length % 0x1_0000_0000 == 0 then Encode(p) == [0, 0, 0, 0]
            else Encode(p) == MarshalUint32(length % 0x1_0000_0000) + [p.GetCode()] + p.Marshal()
  {
    hide MarshalUint32, Packet.Marshal, Packet.GetCode;
  }

  // ---------------------------------------------------------------------------
  // What one client sends.

  /** Version 3, request ID 1, open flags 0x40, no attributes, and writes of 2^20 bytes each at
    * multiples of 2^20, the last one of what is left. */
  lemma ClientRequests(job: Job, gen: Source, st: State)
    requires Valid(job, st) && !st.Terminal() && |job.file| < 0x1_0000
    requires st.Writing? || st.Closing? ==> |st.handle| < 0x1_0000
    ensures var b := Encode(Request(job, gen, st));
            match st
            case Initing => b == [0, 0, 0, 5, 1, 0, 0, 0, 3]
            case Opening =>
              b == MarshalUint32(17 + |job.file|) + [3] + [0, 0, 0, 1]
                   + MarshalUint32(|job.file|) + job.file + [0, 0, 0, 0x40] + [0, 0, 0, 0]
            case Writing(h, i, _) =>
              var offset := i * 0x10_0000;
              var n := if job.toSend - offset >= 0x10_0000 then 0x10_0000 else job.toSend - offset;
              && 0 <= offset < job.toSend
              && b == MarshalUint32(21 + |h| + n) + [6] + [0, 0, 0, 1]
                      + MarshalUint32(|h|) + h + MarshalUint64(offset) + (MarshalUint32(n) + Payload(gen, offset, n))
            case Closing(h, _) => b == MarshalUint32(9 + |h|) + [4] + [0, 0, 0, 1] + MarshalUint32(|h|) + h
            case _ => true
  {
    hide Encode, MarshalUint32;
    Uint32Layout(0, 0, 0, 1);
    match st
    case Initing =>
      Uint32Layout(0, 0, 0, 3);
      InitLayout(3);
    case Opening =>
      Uint32Layout(0, 0, 0, 0x40);
      OpenLayout(1, job.file, 0x40);
    case Writing(_, _, _) => ClientWrites(job, gen, st);
    case Closing(h, _) => CloseLayout(1, h);
  }

  lemma ClientWrites(job: Job, gen: Source, st: State)
    requires Valid(job, st) && st.Writing? && |st.handle| < 0x1_0000
    ensures var h, offset := st.handle, st.i * 0x10_0000;
            var n := if job.toSend - offset >= 0x10_0000 then 0x10_0000 else job.toSend - offset;
            && 0 <= offset < job.toSend
            && Encode(Request(job, gen, st))
               == MarshalUint32(21 + |h| + n) + [6] + [0, 0, 0, 1]
                  + MarshalUint32(|h|) + h + MarshalUint64(offset) + (MarshalUint32(n) + Payload(gen, offset, n))
  {
    hide Encode, MarshalUint32, MarshalUint64, Payload;
    Uint32Layout(0, 0, 0, 1);
    var n := PayloadSize(job.toSend, st.total);
    WriteLayout(1, st.handle, st.total, Payload(gen, st.total, n));
  }

  // ---------------------------------------------------------------------------
  // What a client takes for a good answer.

  /** The server announces version 3. */
  lemma GoodVersion(p: Packet, body: seq<byte>)
    requires p.Init?
    ensures Accounting.AnswersWell(p, body) <==> [2, 0, 0, 0, 3] <= body
  {
    hide MarshalUint32;
    Uint32Layout(0, 0, 0, 3);
    assert Body(Version(3)) == [2, 0, 0, 0, 3];
    if [2, 0, 0, 0, 3] <= body {
      assert RightKind(p, Version(3)) && StringsFit(Fields(Version(3)));
    }
  }

  /** The bytes of a handle packet behind its length. */
  function HandleBytes(id: u32, handle: seq<byte>): seq<byte>
    requires |handle| < TWO_32
  {
    [102] + MarshalUint32(id) + MarshalUint32(|handle|) + handle
  }

  lemma GoodHandle(p: Packet, body: seq<byte>)
    requires p.Open?
    ensures Accounting.AnswersWell(p, body) <==>
              exists id: u32, h: seq<byte> :: |h| < TWO_32 && HandleBytes(id, h) <= body
  {
    hide MarshalUint32, Body, HandleBytes, StringsFit;
    if Accounting.AnswersWell(p, body) {
      var q: Packet :| RightKind(p, q) && StringsFit(Fields(q)) && Body(q) <= body;
      assert |q.handle| < TWO_32 by {
        HandleString(q);
      }
      HandleBody(q.id, q.handle);
    }
    if id: u32, h: seq<byte> :| |h| < TWO_32 && HandleBytes(id, h) <= body {
      HandleBody(id, h);
      HandleString(Handle(id, h));
      assert RightKind(p, Handle(id, h));
    }
  }

  lemma HandleString(q: Packet)
    requires q.Handle?
    ensures StringsFit(Fields(q)) <==> |q.handle| < TWO_32
  {
    assert Fields(q)[1].str == q.handle;
  }

  lemma HandleBody(id: u32, handle: seq<byte>)
    requires |handle| < TWO_32
    ensures Body(Handle(id, handle)) == HandleBytes(id, handle)
  {
    hide MarshalUint32, MarshalString;
    StringIsPrefixed(handle);
    Flat([], [102], MarshalUint32(id), MarshalUint32(|handle|), handle, [], []);
  }

  /** The bytes of a status packet with error code 0 behind its length. */
  function OkBytes(id: u32, msg: seq<byte>, lang: seq<byte>): seq<byte>
    requires |msg| < TWO_32 && |lang| < TWO_32
  {
    [101] + MarshalUint32(id) + [0, 0, 0, 0] + MarshalUint32(|msg|) + msg + MarshalUint32(|lang|) + lang
  }

  lemma GoodStatus(p: Packet, body: seq<byte>)
    requires p.Write? || p.Close?
    ensures Accounting.AnswersWell(p, body) <==>
              exists id: u32, msg: seq<byte>, lang: seq<byte> ::
                |msg| < TWO_32 && |lang| < TWO_32 && OkBytes(id, msg, lang) <= body
  {
    hide MarshalUint32, MarshalString;
    Uint32Layout(0, 0, 0, 0);
    if Accounting.AnswersWell(p, body) {
      var q: Packet :| RightKind(p, q) && StringsFit(Fields(q)) && Body(q) <= body && q.errCode == 0;
      assert Fields(q)[2].str == q.errMsg && Fields(q)[3].str == q.lang;
      OkStatus(q.id, q.errMsg, q.lang);
    }
    if id: u32, msg: seq<byte>, lang: seq<byte> :|
         |msg| < TWO_32 && |lang| < TWO_32 && OkBytes(id, msg, lang) <= body {
      OkStatus(id, msg, lang);
      var q := Status(id, 0, msg, lang);
      assert RightKind(p, q) && StringsFit(Fields(q));
    }
  }

  lemma OkStatus(id: u32, msg: seq<byte>, lang: seq<byte>)
    requires |msg| < TWO_32 && |lang| < TWO_32
    ensures Body(Status(id, 0, msg, lang)) == OkBytes(id, msg, lang)
  {
    hide MarshalUint32, MarshalString;
    Uint32Layout(0, 0, 0, 0);
    StringIsPrefixed(msg);
    StringIsPrefixed(lang);
  }
}
