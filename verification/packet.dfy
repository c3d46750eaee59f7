/** Model of `v2/simulator/ssh/packet.go`: framing of packets on a byte stream, and the three
  * response parsers. */
module Framing {
  import opened Wrappers
  import opened Marshal
  import opened Fxp

  // ---------------------------------------------------------------------------
  // Writing frames.

  datatype RawPacket = RawPacket(length: u32, typecode: byte, data: seq<byte>) {
    function Marshal(): seq<byte> {
      if length == 0 then [0, 0, 0, 0] else MarshalUint32(length) + [typecode] + data
    }
  }

  /** The length field is a conversion to uint32, which drops the high bits. */
  function MakeRawPacket(p: Packet): RawPacket {
    var data := p.Marshal();
    RawPacket(Wrap32(|data| + 1), p.GetCode(), data)
  }

  /** The bytes a client puts on the wire for a packet. */
  function Encode(p: Packet): seq<byte> {
    MakeRawPacket(p).Marshal()
  }

  /** What a frame carries behind its length field. */
  function Body(p: Packet): seq<byte> {
    [p.GetCode()] + p.Marshal()
  }

  function Frame(body: seq<byte>): (b: seq<byte>)
    requires |body| < TWO_32
    ensures |b| == 4 + |body|
  {
    MarshalUint32(|body|) + body
  }

  /** The packet fits in one frame. */
  predicate Fits(p: Packet) {
    |p.Marshal()| + 1 < TWO_32
  }

  lemma RawIsFrame(code: byte, data: seq<byte>)
    requires |data| + 1 < TWO_32
    ensures RawPacket(Wrap32(|data| + 1), code, data).Marshal() == Frame([code] + data)
  {
  }

  lemma EncodeIsFrame(p: Packet)
    requires Fits(p)
    ensures Encode(p) == Frame(Body(p))
  {
    RawIsFrame(p.GetCode(), p.Marshal());
  }

  /** A packet that fits in a frame has strings that fit in their length prefixes. */
  lemma FitsStrings(p: Packet)
    requires Fits(p)
    ensures StringsFit(Fields(p))
  {
  }

  // ---------------------------------------------------------------------------
  // Reading frames: what ReadPacket does to a stream of bytes.

  datatype IoError = EOF | UnexpectedEOF | Broken

  /** All bytes that are still to arrive, and how the stream ends after them. */
  datatype Stream = Stream(bytes: seq<byte>, ending: IoError)

  datatype StreamRead = StreamRead(bytes: seq<byte>, err: Option<IoError>, rest: Stream)

  /** io.ReadFull: n bytes, or whatever there was together with an error. */
  function ReadFullSpec(s: Stream, n: nat): StreamRead {
    if |s.bytes| >= n then StreamRead(s.bytes[..n], None, s.(bytes := s.bytes[n..]))
    else
      var err := if s.bytes != [] && s.ending == EOF then UnexpectedEOF else s.ending;
      StreamRead(s.bytes, Some(err), s.(bytes := []))
  }

  /** make([]byte, n) with its first bytes filled in. */
  function ZeroPad(b: seq<byte>, n: nat): seq<byte>
    requires |b| <= n
  {
    b + seq(n - |b|, _ => 0 as byte)
  }

  /** The slice returned alongside an error: the part-filled buffer at the end of the stream,
    * nil when the stream broke. */
  function Partial(got: seq<byte>, n: nat, err: IoError): seq<byte>
    requires |got| <= n
  {
    if err == Broken then [] else ZeroPad(got, n)
  }

  function ReadPacketSpec(s: Stream): StreamRead {
    var head := ReadFullSpec(s, 4);
    if head.err.Some? then StreamRead(Partial(head.bytes, 4, head.err.value), head.err, head.rest)
    else
      var length := UnmarshalUint32(head.bytes);
      var tail := ReadFullSpec(head.rest, length);
      if tail.err.Some? then StreamRead(Partial(tail.bytes, length, tail.err.value), tail.err, tail.rest)
      else tail
  }

  function Concat(chunks: seq<seq<byte>>): seq<byte> {
    if chunks == [] then [] else chunks[0] + Concat(chunks[1..])
  }

  /** An io.Reader whose bytes arrive in chunks of any sizes, empty ones included. When `eager`
    * is set, the read that hands over the last byte already reports the end of the stream. */
  class Reader {
    var chunks: seq<seq<byte>>
    const ending: IoError
    const eager: bool

    constructor (chunks: seq<seq<byte>>, ending: IoError, eager: bool)
      ensures Remaining() == Stream(Concat(chunks), ending)
    {
      this.chunks := chunks;
      this.ending := ending;
      this.eager := eager;
    }

    ghost function Remaining(): Stream
      reads this
    {
      Stream(Concat(chunks), ending)
    }

    /** Fills some of p[lo..] from the chunk at the front. */
    method Read(p: array<byte>, lo: nat) returns (n: nat, err: Option<IoError>)
      requires lo < p.Length
      modifies this`chunks, p
      ensures lo + n <= p.Length
      ensures p[..lo] == old(p[..lo]) && p[lo + n..] == old(p[lo + n..])
      ensures old(Concat(chunks)) == p[lo..lo + n] + Concat(chunks)
      ensures err.Some? ==> err.value == ending && Concat(chunks) == []
      ensures err.None? && n == 0 ==> |chunks| < |old(chunks)|
    {
      if chunks == [] {
        return 0, Some(ending);
      }
      ghost var all := Concat(chunks);
      var chunk := chunks[0];
      var later := chunks[1..];
      n := if |chunk| <= p.Length - lo then |chunk| else p.Length - lo;
      forall i | 0 <= i < n {
        p[lo + i] := chunk[i];
      }
      assert p[lo..lo + n] == chunk[..n];
      assert all == chunk + Concat(later);
      SplitChunk(chunk, later, n);
      chunks := if n == |chunk| then later else [chunk[n..]] + later;
      err := if eager && chunks == [] then Some(ending) else None;
    }
  }

  /** Taking n bytes off the first chunk takes n bytes off the whole. */
  lemma SplitChunk(chunk: seq<byte>, later: seq<seq<byte>>, n: nat)
    requires n <= |chunk|
    ensures chunk + Concat(later)
            == chunk[..n] + Concat(if n == |chunk| then later else [chunk[n..]] + later)
  {
    assert chunk == chunk[..n] + chunk[n..];
    assert ([chunk[n..]] + later)[1..] == later;
  }

  lemma Regroup(a: seq<byte>, b: seq<byte>, c: seq<byte>)
    ensures a + (b + c) == (a + b) + c
  {
  }

  /** io.ReadFull. */
  method ReadFull(r: Reader, buf: array<byte>) returns (n: nat, err: Option<IoError>)
    modifies r`chunks, buf
    ensures n <= buf.Length && buf[n..] == old(buf[n..])
    ensures StreamRead(buf[..n], err, r.Remaining()) == ReadFullSpec(old(r.Remaining()), buf.Length)
  {
    ghost var all := Concat(r.chunks);
    ghost var before := buf[..];
    n, err := 0, None;
    assert all == buf[..n] + Concat(r.chunks);
    hide Concat;
    while n < buf.Length && err.None?
      invariant n <= buf.Length
      invariant buf[n..] == before[n..]
      invariant all == buf[..n] + Concat(r.chunks)
      invariant err.Some? ==> err.value == r.ending && Concat(r.chunks) == []
      decreases buf.Length - n, err.None?, |r.chunks|
    {
      ghost var got := buf[..n];
      ghost var left := Concat(r.chunks);
      var k;
      k, err := r.Read(buf, n);
      assert buf[..n + k] == got + buf[n..n + k];
      assert buf[n + k..] == before[n..][k..] == before[n + k..];
      Regroup(got, buf[n..n + k], Concat(r.chunks));
      n := n + k;
    }
    if n >= buf.Length {
      err := None;
    } else if n > 0 && err == Some(EOF) {
      err := Some(UnexpectedEOF);
    }
  }

  method ReadPacket(r: Reader) returns (resp: seq<byte>, err: Option<IoError>)
    modifies r`chunks
    ensures StreamRead(resp, err, r.Remaining()) == ReadPacketSpec(old(r.Remaining()))
  {
    hide Concat, UnmarshalUint32;
    var head := new byte[4](_ => 0);
    var n;
    n, err := ReadFull(r, head);
    if err.Some? {
      assert head[..] == ZeroPad(head[..n], 4);
      resp := if err.value == Broken then [] else head[..];
      return;
    }
    assert head[..4] == head[..];
    var length := UnmarshalUint32(head[..]);
    var body := new byte[length](_ => 0);
    n, err := ReadFull(r, body);
    if err.Some? {
      assert body[..] == ZeroPad(body[..n], length);
      resp := if err.value == Broken then [] else body[..];
      return;
    }
    assert body[..n] == body[..];
    resp := body[..];
  }

  // ---------------------------------------------------------------------------
  // Response parsers. None stands for a nil packet with an error.

  function VersionRespSpec(data: seq<byte>): Option<Packet> {
    var (f, s) := TakeFields([KUint32], NewParser(data));
    if s.err.Some? then None else Some(Version(f[0].n))
  }

  function OpenRespSpec(data: seq<byte>): Option<Packet> {
    var (f, s) := TakeFields([KUint32, KString], NewParser(data));
    if s.err.Some? then None else Some(Handle(f[0].n, f[1].str))
  }

  function StatusRespSpec(data: seq<byte>): Option<Packet> {
    var u := UnmarshalStatus(data);
    if u.err.Some? then None else Some(u.packet)
  }

  method VersionResp(data: seq<byte>) returns (resp: Option<Packet>)
    ensures resp == VersionRespSpec(data)
  {
    var parser := new FieldParser(data);
    var version := parser.ReadUint32();
    Unroll1(KUint32, NewParser(data));
    if parser.GetError().Some? {
      return None;
    }
    return Some(Version(version));
  }

  method OpenResp(data: seq<byte>) returns (resp: Option<Packet>)
    ensures resp == OpenRespSpec(data)
  {
    var parser := new FieldParser(data);
    var id := parser.ReadUint32();
    var handle := parser.ReadString();
    Unroll2(KUint32, KString, NewParser(data));
    if parser.GetError().Some? {
      return None;
    }
    return Some(Handle(id, handle));
  }

  method StatusResp(data: seq<byte>) returns (resp: Option<Packet>)
    ensures resp == StatusRespSpec(data)
  {
    var status := new StatusPacket();
    var err := status.Unmarshal(data);
    if err.Some? {
      return None;
    }
    return Some(status.Value());
  }

  lemma VersionRespExact(data: seq<byte>, p: Packet)
    ensures VersionRespSpec(data) == Some(p) <==> p.Version? && p.Marshal() <= data
  {
    if p.Version? {
      DecodableIsFields(p);
      FieldsExact(data, [KUint32], Fields(p));
    }
  }

  lemma OpenRespExact(data: seq<byte>, p: Packet)
    ensures OpenRespSpec(data) == Some(p) <==> p.Handle? && StringsFit(Fields(p)) && p.Marshal() <= data
  {
    if p.Handle? {
      DecodableIsFields(p);
      FieldsExact(data, [KUint32, KString], Fields(p));
    }
  }

  lemma StatusRespExact(data: seq<byte>, p: Packet)
    ensures StatusRespSpec(data) == Some(p) <==> p.Status? && StringsFit(Fields(p)) && p.Marshal() <= data
  {
    StatusExact(data, p);
  }

  // ---------------------------------------------------------------------------
  // Framing inverts.

  /** ReadPacket returns a body and leaves a rest exactly when the stream is that body's frame
    * followed by that rest. */
  lemma ReadPacketExact(s: Stream, body: seq<byte>, rest: seq<byte>)
    ensures ReadPacketSpec(s) == StreamRead(body, None, Stream(rest, s.ending)) <==>
              |body| < TWO_32 && s.bytes == Frame(body) + rest
  {
    hide ReadPacketSpec, Frame;
    if |body| < TWO_32 && s.bytes == Frame(body) + rest {
      FrameIsRead(s, body, rest);
    }
    if ReadPacketSpec(s) == StreamRead(body, None, Stream(rest, s.ending)) {
      ReadIsFrame(s, body, rest);
    }
  }

  lemma FrameIsRead(s: Stream, body: seq<byte>, rest: seq<byte>)
    requires |body| < TWO_32 && s.bytes == Frame(body) + rest
    ensures ReadPacketSpec(s) == StreamRead(body, None, Stream(rest, s.ending))
  {
    hide MarshalUint32, UnmarshalUint32;
    var head := MarshalUint32(|body|);
    assert s.bytes == head + (body + rest);
    assert s.bytes[..4] == head && s.bytes[4..] == body + rest;
    Uint32RoundTrip(|body|, []);
    assert head + [] == head;
    assert (body + rest)[..|body|] == body && (body + rest)[|body|..] == rest;
  }

  lemma ReadIsFrame(s: Stream, body: seq<byte>, rest: seq<byte>)
    requires ReadPacketSpec(s) == StreamRead(body, None, Stream(rest, s.ending))
    ensures |body| < TWO_32 && s.bytes == Frame(body) + rest
  {
    hide MarshalUint32, UnmarshalUint32;
    var head := s.bytes[..4];
    Uint32Inverse(head);
    assert head[..4] == head;
    assert s.bytes == head + s.bytes[4..];
    assert s.bytes[4..] == body + rest;
    Regroup(head, body, rest);
  }

  /** No strict prefix of a frame is ever mistaken for a packet. */
  lemma StrictPrefixFails(body: seq<byte>, k: nat, ending: IoError)
    requires |body| < TWO_32 && k < 4 + |body|
    ensures ReadPacketSpec(Stream(Frame(body)[..k], ending)).err.Some?
  {
    var s := Stream(Frame(body)[..k], ending);
    if k >= 4 {
      assert s.bytes[..4] == MarshalUint32(|body|);
      Uint32RoundTrip(|body|, []);
      assert MarshalUint32(|body|) + [] == MarshalUint32(|body|);
    }
  }

  /** What a stream that breaks off inside a frame yields. An end of stream is reported as
    * unexpected except right at the start and right behind the length field, with the part read
    * padded with zero bytes; a broken stream is reported as such, with nothing. */
  lemma CutFrame(body: seq<byte>, k: nat, ending: IoError)
    requires |body| < TWO_32 && k < 4 + |body|
    ensures var cut := Frame(body)[..k];
            var r := ReadPacketSpec(Stream(cut, ending));
            && r.rest == Stream([], ending)
            && (ending == Broken ==> r.bytes == [] && r.err == Some(Broken))
            && (ending != Broken ==>
                  && r.err == Some(if ending == EOF && (k == 0 || k == 4) then EOF else UnexpectedEOF)
                  && |r.bytes| == (if k < 4 then 4 else |body|)
                  && var got := if k < 4 then cut else body[..k - 4];
                     got <= r.bytes && forall i :: |got| <= i < |r.bytes| ==> r.bytes[i] == 0)
  {
    var cut := Frame(body)[..k];
    if k >= 4 {
      assert cut[..4] == MarshalUint32(|body|) && cut[4..] == body[..k - 4];
      Uint32RoundTrip(|body|, []);
      assert MarshalUint32(|body|) + [] == MarshalUint32(|body|);
    }
    hide MarshalUint32, UnmarshalUint32;
  }

  /** A packet survives framing exactly when its length fits the 32-bit length field. */
  lemma FramingRoundTrip(p: Packet, rest: seq<byte>, ending: IoError)
    ensures ReadPacketSpec(Stream(Encode(p) + rest, ending)) == StreamRead(Body(p), None, Stream(rest, ending))
            <==> Fits(p)
  {
    var s := Stream(Encode(p) + rest, ending);
    ReadPacketExact(s, Body(p), rest);
    if Fits(p) {
      EncodeIsFrame(p);
    } else if |Body(p)| < TWO_32 {
      assert false;
    }
  }

  /** The packets of a session, one after the other. */
  function EncodeAll(ps: seq<Packet>): seq<byte> {
    if ps == [] then [] else Encode(ps[0]) + EncodeAll(ps[1..])
  }

  function ReadMany(s: Stream, n: nat): (seq<StreamRead>, Stream)
    decreases n
  {
    if n == 0 then ([], s)
    else
      var r := ReadPacketSpec(s);
      var (rs, rest) := ReadMany(r.rest, n - 1);
      ([r] + rs, rest)
  }

  /** Reading as many packets as were written returns exactly their bodies, without error, and
    * consumes exactly their bytes. (A Reader's stream is the concatenation of its chunks.) */
  lemma {:induction false} SessionReads(ps: seq<Packet>, rest: seq<byte>, ending: IoError)
    requires forall i :: 0 <= i < |ps| ==> Fits(ps[i])
    ensures var (rs, end) := ReadMany(Stream(EncodeAll(ps) + rest, ending), |ps|);
            && end == Stream(rest, ending) && |rs| == |ps|
            && forall i :: 0 <= i < |ps| ==> rs[i].bytes == Body(ps[i]) && rs[i].err.None?
  {
    hide Encode, Body, Fits, ReadPacketSpec;
    if ps == [] {
      assert [] + rest == rest;
    } else {
      var tail := EncodeAll(ps[1..]) + rest;
      assert EncodeAll(ps) + rest == Encode(ps[0]) + tail;
      FramingRoundTrip(ps[0], tail, ending);
      SessionReads(ps[1..], rest, ending);
    }
  }

  lemma {:induction false} EncodeAllAppend(ps: seq<Packet>, qs: seq<Packet>)
    ensures EncodeAll(ps + qs) == EncodeAll(ps) + EncodeAll(qs)
  {
    hide Encode;
    if ps == [] {
      assert ps + qs == qs;
    } else {
      EncodeAllAppend(ps[1..], qs);
      assert (ps + qs)[0] == ps[0] && (ps + qs)[1..] == ps[1..] + qs;
      Regroup(Encode(ps[0]), EncodeAll(ps[1..]), EncodeAll(qs));
    }
  }

  // ---------------------------------------------------------------------------
  // Unique decodability.

  /** A body determines the packet it encodes. */
  lemma BodyInjective(p: Packet, q: Packet)
    requires Fits(p) && Fits(q) && Body(p) == Body(q)
    ensures p == q
  {
    assert p.Marshal() == Body(p)[1..] == Body(q)[1..] == q.Marshal();
    assert p.GetCode() == Body(p)[0] == Body(q)[0] == q.GetCode();
    FitsStrings(p);
    FitsStrings(q);
    var data := p.Marshal();
    match p
    case Init(_) => InitExact(data, p); InitExact(data, q);
    case Version(_) => VersionRespExact(data, p); VersionRespExact(data, q);
    case Open(_, _, _) => OpenExact(data, p); OpenExact(data, q);
    case Write(_, _, _, _) => WriteExact(data, p); WriteExact(data, q);
    case Close(_, _) => CloseExact(data, p); CloseExact(data, q);
    case Handle(_, _) => OpenRespExact(data, p); OpenRespExact(data, q);
    case Status(_, _, _, _) => StatusExact(data, p); StatusExact(data, q);
  }

  /** The first packet on a wire, and where it ends, are determined by the bytes. */
  lemma FirstPacketUnique(p: Packet, x: seq<byte>, q: Packet, y: seq<byte>)
    requires Fits(p) && Fits(q) && Encode(p) + x == Encode(q) + y
    ensures p == q && x == y
  {
    FramingRoundTrip(p, x, EOF);
    FramingRoundTrip(q, y, EOF);
    BodyInjective(p, q);
  }

  /** One session's bytes are a prefix of another's exactly when its packets are: no two
    * different sessions ever look the same on the wire. */
  lemma {:induction false} UniqueDecodability(ps: seq<Packet>, qs: seq<Packet>)
    requires forall i :: 0 <= i < |ps| ==> Fits(ps[i])
    requires forall i :: 0 <= i < |qs| ==> Fits(qs[i])
    ensures EncodeAll(ps) <= EncodeAll(qs) <==> ps <= qs
    decreases |ps|
  {
    hide Encode, Fits;
    if ps <= qs {
      EncodeAllAppend(ps, qs[|ps|..]);
      assert qs == ps + qs[|ps|..];
    } else if EncodeAll(ps) <= EncodeAll(qs) {
      EncodeNonEmpty(ps[0]);
      var rest := EncodeAll(qs)[|EncodeAll(ps)|..];
      assert Encode(ps[0]) + (EncodeAll(ps[1..]) + rest) == Encode(qs[0]) + EncodeAll(qs[1..]);
      FirstPacketUnique(ps[0], EncodeAll(ps[1..]) + rest, qs[0], EncodeAll(qs[1..]));
      UniqueDecodability(ps[1..], qs[1..]);
    }
  }

  lemma EncodeNonEmpty(p: Packet)
    ensures |Encode(p)| >= 4
  {
  }
}
