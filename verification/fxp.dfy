/** Model of `v2/simulator/ssh/fxp/fxp.go`: packet layouts of SFTP version 3
  * (draft-ietf-secsh-filexfer-02) and the stateful field parser that reads them back. */
module Fxp {
  import opened Wrappers
  import opened Marshal

  const SSH_FX_OK: u32 := 0

  const TYPE_CODE_INIT: byte := 1
  const TYPE_CODE_VERSION: byte := 2
  const TYPE_CODE_OPEN: byte := 3
  const TYPE_CODE_CLOSE: byte := 4
  const TYPE_CODE_WRITE: byte := 6
  const TYPE_CODE_STATUS: byte := 101
  const TYPE_CODE_HANDLE: byte := 102

  datatype FxpError = ErrSize

  datatype Packet =
    | Init(version: u32)
    | Version(version: u32)
    | Open(id: u32, filename: seq<byte>, flags: u32)
    | Write(id: u32, handle: seq<byte>, offset: u64, data: seq<byte>)
    | Close(id: u32, handle: seq<byte>)
    | Handle(id: u32, handle: seq<byte>)
    | Status(id: u32, errCode: u32, errMsg: seq<byte>, lang: seq<byte>)
  {
    function GetCode(): byte {
      match this
      case Init(_) => TYPE_CODE_INIT
      case Version(_) => TYPE_CODE_VERSION
      case Open(_, _, _) => TYPE_CODE_OPEN
      case Write(_, _, _, _) => TYPE_CODE_WRITE
      case Close(_, _) => TYPE_CODE_CLOSE
      case Handle(_, _) => TYPE_CODE_HANDLE
      case Status(_, _, _, _) => TYPE_CODE_STATUS
    }

    function Marshal(): seq<byte> {
      match this
      case Init(version) => MarshalUint32(version)
      case Version(version) => MarshalUint32(version)
      case Open(id, filename, flags) =>
        MarshalUint32(id) + MarshalString(filename) + MarshalUint32(flags) + [0, 0, 0, 0]
      case Write(id, handle, offset, data) =>
        MarshalUint32(id) + MarshalString(handle) + MarshalUint64(offset) + MarshalString(data)
      case Close(id, handle) => MarshalUint32(id) + MarshalString(handle)
      case Handle(id, handle) => MarshalUint32(id) + MarshalString(handle)
      case Status(id, errCode, errMsg, lang) =>
        MarshalUint32(id) + MarshalUint32(errCode) + MarshalString(errMsg) + MarshalString(lang)
    }
  }

  // ---------------------------------------------------------------------------
  // The field parser: a value-level specification and the class proved against it.

  datatype Parser = Parser(buffer: seq<byte>, err: Option<FxpError>)

  function NewParser(data: seq<byte>): Parser {
    Parser(data, None)
  }

  function TakeUint32(s: Parser): (u32, Parser) {
    if |s.buffer| < 4 then (0, s.(err := Some(ErrSize)))
    else (UnmarshalUint32(s.buffer), s.(buffer := s.buffer[4..]))
  }

  function TakeUint64(s: Parser): (u64, Parser) {
    if |s.buffer| < 8 then (0, s.(err := Some(ErrSize)))
    else (UnmarshalUint64(s.buffer), s.(buffer := s.buffer[8..]))
  }

  /** A length prefix that promises more than is left is consumed all the same. */
  function TakeString(s: Parser): (seq<byte>, Parser) {
    if |s.buffer| < 4 then ([], s.(err := Some(ErrSize)))
    else
      var length := UnmarshalUint32(s.buffer);
      var tail := s.buffer[4..];
      if |tail| < length then ([], Parser(tail, Some(ErrSize)))
      else (tail[..length], s.(buffer := tail[length..]))
  }

  class FieldParser {
    var buffer: seq<byte>
    var err: Option<FxpError>

    constructor (data: seq<byte>)
      ensures State() == NewParser(data)
    {
      buffer, err := data, None;
    }

    function State(): Parser
      reads this
    {
      Parser(buffer, err)
    }

    /** bytes.Buffer.Next: hand over the first n bytes and drop them. */
    method Next(n: nat) returns (b: seq<byte>)
      requires n <= |buffer|
      modifies this
      ensures b == old(buffer)[..n] && buffer == old(buffer)[n..] && err == old(err)
    {
      b := buffer[..n];
      buffer := buffer[n..];
    }

    method ReadUint32() returns (v: u32)
      modifies this
      ensures (v, State()) == TakeUint32(old(State()))
    {
      if |buffer| < 4 {
        err := Some(ErrSize);
        return 0;
      }
      ghost var before := buffer;
      var b := Next(4);
      assert b[..4] == before[..4];
      v := UnmarshalUint32(b);
    }

    method ReadUint64() returns (v: u64)
      modifies this
      ensures (v, State()) == TakeUint64(old(State()))
    {
      if |buffer| < 8 {
        err := Some(ErrSize);
        return 0;
      }
      ghost var before := buffer;
      var b := Next(8);
      assert b[..8] == before[..8];
      v := UnmarshalUint64(b);
    }

    method ReadString() returns (v: seq<byte>)
      modifies this
      ensures (v, State()) == TakeString(old(State()))
    {
      if |buffer| < 4 {
        err := Some(ErrSize);
        return [];
      }
      ghost var before := buffer;
      var b := Next(4);
      assert b[..4] == before[..4];
      var length := UnmarshalUint32(b);
      if |buffer| < length {
        err := Some(ErrSize);
        return [];
      }
      v := Next(length);
    }

    function GetError(): Option<FxpError>
      reads this
    {
      err
    }
  }

  // ---------------------------------------------------------------------------
  // What any sequence of reads does to a parser.

  datatype Kind = KUint32 | KUint64 | KString

  datatype Field = Uint32(n: u32) | Uint64(m: u64) | String(str: seq<byte>) {
    function Kind(): Kind {
      match this
      case Uint32(_) => KUint32
      case Uint64(_) => KUint64
      case String(_) => KString
    }

    function Marshal(): seq<byte> {
      match this
      case Uint32(n) => MarshalUint32(n)
      case Uint64(m) => MarshalUint64(m)
      case String(str) => MarshalString(str)
    }
  }

  function TakeField(k: Kind, s: Parser): (r: (Field, Parser))
    ensures r.0.Kind() == k
  {
    match k
    case KUint32 => var (v, e) := TakeUint32(s); (Uint32(v), e)
    case KUint64 => var (v, e) := TakeUint64(s); (Uint64(v), e)
    case KString => var (v, e) := TakeString(s); (String(v), e)
  }

  function TakeFields(ks: seq<Kind>, s: Parser): (r: (seq<Field>, Parser))
    ensures |r.0| == |ks|
    ensures forall i :: 0 <= i < |ks| ==> r.0[i].Kind() == ks[i]
  {
    if ks == [] then ([], s)
    else
      var (f, m) := TakeField(ks[0], s);
      var (fs, e) := TakeFields(ks[1..], m);
      ([f] + fs, e)
  }

  function MarshalFields(fs: seq<Field>): seq<byte> {
    if fs == [] then [] else fs[0].Marshal() + MarshalFields(fs[1..])
  }

  /** The buffer holds the whole next field. */
  predicate Enough(k: Kind, buffer: seq<byte>) {
    match k
    case KUint32 => |buffer| >= 4
    case KUint64 => |buffer| >= 8
    case KString => |buffer| >= 4 && |buffer| >= 4 + UnmarshalUint32(buffer)
  }

  /** At every read of the sequence the buffer held the whole field. */
  predicate AllEnough(ks: seq<Kind>, s: Parser) {
    ks == [] || (Enough(ks[0], s.buffer) && AllEnough(ks[1..], TakeField(ks[0], s).1))
  }

  /** `after` is what is left of `before` once a prefix has been consumed. */
  predicate DropsPrefix(before: seq<byte>, after: seq<byte>) {
    |after| <= |before| && before == before[..|before| - |after|] + after
  }

  lemma DropsCompose(a: seq<byte>, b: seq<byte>, c: seq<byte>)
    requires DropsPrefix(a, b) && DropsPrefix(b, c)
    ensures DropsPrefix(a, c)
  {
  }

  lemma TakeFieldInvariant(k: Kind, s: Parser)
    ensures var m := TakeField(k, s).1;
            && DropsPrefix(s.buffer, m.buffer)
            && (s.err.Some? ==> m.err.Some?)
            && (m.err.None? <==> s.err.None? && Enough(k, s.buffer))
  {
  }

  /** Reads only ever drop a prefix, an error is never cleared, and the final error is nil
    * exactly when every single read found enough bytes. */
  lemma {:induction false} ParserInvariant(ks: seq<Kind>, s: Parser)
    ensures var e := TakeFields(ks, s).1;
            && DropsPrefix(s.buffer, e.buffer)
            && (s.err.Some? ==> e.err.Some?)
            && (e.err.None? <==> s.err.None? && AllEnough(ks, s))
  {
    if ks == [] {
    } else {
      var m := TakeField(ks[0], s).1;
      TakeFieldInvariant(ks[0], s);
      ParserInvariant(ks[1..], m);
      DropsCompose(s.buffer, m.buffer, TakeFields(ks[1..], m).1.buffer);
    }
  }

  /** Every string is short enough for its 32-bit length prefix. */
  predicate StringsFit(fs: seq<Field>) {
    forall i :: 0 <= i < |fs| && fs[i].String? ==> |fs[i].str| < TWO_32
  }

  /** A field is read without error exactly when the buffer starts with its encoding. */
  lemma TakeFieldExact(s: Parser, f: Field, rest: seq<byte>)
    ensures TakeField(f.Kind(), s) == (f, Parser(rest, None)) <==>
              s.err.None? && StringsFit([f]) && s.buffer == f.Marshal() + rest
  {
    if f.String? {
      assert StringsFit([f]) <==> |[f][0].str| < TWO_32;
      TakeStringExact(s, f.str, rest);
    } else if f.Uint64? {
      TakeUint64Exact(s, f.m, rest);
    } else {
      TakeUint32Exact(s, f.n, rest);
    }
  }

  /** Reads go on after an error: they return what is there and leave the error as it is. */
  lemma TakeFieldOn(s: Parser, f: Field, rest: seq<byte>)
    requires StringsFit([f]) && s.buffer == f.Marshal() + rest
    ensures TakeField(f.Kind(), s) == (f, Parser(rest, s.err))
  {
    hide TakeField;
    TakeFieldExact(s.(err := None), f, rest);
    TakeIgnoresError(f.Kind(), s);
  }

  lemma TakeIgnoresError(k: Kind, s: Parser)
    ensures var r, m := TakeField(k, s), TakeField(k, s.(err := None));
            r.0 == m.0 && r.1.buffer == m.1.buffer && (m.1.err.None? ==> r.1.err == s.err)
  {
  }

  /** Too short a buffer: the zero value and an error, and nothing is consumed. */
  lemma TakeFromShort(s: Parser)
    ensures |s.buffer| < 4 ==> TakeField(KUint32, s) == (Uint32(0), Parser(s.buffer, Some(ErrSize)))
    ensures |s.buffer| < 8 ==> TakeField(KUint64, s) == (Uint64(0), Parser(s.buffer, Some(ErrSize)))
    ensures |s.buffer| < 4 ==> TakeField(KString, s) == (String([]), Parser(s.buffer, Some(ErrSize)))
  {
  }

  /** A length prefix that promises more than there is: the empty string and an error, and the four
    * bytes of the prefix are consumed all the same. */
  lemma TakeBrokenString(s: Parser, length: u32, tail: seq<byte>)
    requires s.buffer == MarshalUint32(length) + tail && |tail| < length
    ensures TakeField(KString, s) == (String([]), Parser(tail, Some(ErrSize)))
  {
    Uint32RoundTrip(length, tail);
  }

  predicate KindsMatch(fs: seq<Field>, ks: seq<Kind>) {
    |fs| == |ks| && forall i :: 0 <= i < |ks| ==> fs[i].Kind() == ks[i]
  }

  /** Any sequence of reads succeeds with the fields `fs` exactly when the buffer starts with
    * their encodings. */
  lemma {:induction false} TakeFieldsExact(ks: seq<Kind>, s: Parser, fs: seq<Field>, rest: seq<byte>)
    ensures TakeFields(ks, s) == (fs, Parser(rest, None)) <==>
              s.err.None? && KindsMatch(fs, ks) && StringsFit(fs) && s.buffer == MarshalFields(fs) + rest
  {
    hide TakeField, AllEnough, Field.Marshal;
    if ks != [] && fs != [] && fs[0].Kind() == ks[0] {
      var (f, m) := TakeField(ks[0], s);
      var below := TakeFields(ks[1..], m);
      var tail := fs[1..];
      assert fs == [fs[0]] + tail;
      assert [f] + below.0 == fs <==> f == fs[0] && below.0 == tail;
      assert KindsMatch(fs, ks) <==> KindsMatch(tail, ks[1..]) by {
        assert forall i :: 1 <= i < |fs| ==> fs[i] == tail[i - 1];
      }
      assert StringsFit(fs) <==> StringsFit([fs[0]]) && StringsFit(tail) by {
        assert forall i :: 1 <= i < |fs| ==> fs[i] == tail[i - 1];
      }
      assert MarshalFields(fs) + rest == fs[0].Marshal() + (MarshalFields(tail) + rest);
      TakeFieldExact(s, fs[0], MarshalFields(tail) + rest);
      TakeFieldsExact(ks[1..], m, tail, rest);
      if f == fs[0] && m.err.None? {
        TakeFieldExact(s, fs[0], m.buffer);
      }
      ParserInvariant(ks[1..], m);
    } else if ks != [] && fs != [] {
      assert TakeFields(ks, s).0[0].Kind() == ks[0];
    } else {
      assert [] + rest == rest;
    }
  }

  // ---------------------------------------------------------------------------
  // Unmarshal: the receiver's fields afterwards, with the error returned.

  datatype Unmarshalled = Unmarshalled(packet: Packet, err: Option<FxpError>)

  function UnmarshalInit(data: seq<byte>): Unmarshalled {
    var (f, s) := TakeFields([KUint32], NewParser(data));
    Unmarshalled(Init(f[0].n), s.err)
  }

  function UnmarshalOpen(data: seq<byte>): Unmarshalled {
    var (f, s) := TakeFields([KUint32, KString, KUint32], NewParser(data));
    Unmarshalled(Open(f[0].n, f[1].str, f[2].n), s.err)
  }

  function UnmarshalWrite(data: seq<byte>): Unmarshalled {
    var (f, s) := TakeFields([KUint32, KString, KUint64, KString], NewParser(data));
    Unmarshalled(Write(f[0].n, f[1].str, f[2].m, f[3].str), s.err)
  }

  function UnmarshalClose(data: seq<byte>): Unmarshalled {
    var (f, s) := TakeFields([KUint32, KString], NewParser(data));
    Unmarshalled(Close(f[0].n, f[1].str), s.err)
  }

  function UnmarshalStatus(data: seq<byte>): Unmarshalled {
    var (f, s) := TakeFields([KUint32, KUint32, KString, KString], NewParser(data));
    Unmarshalled(Status(f[0].n, f[1].n, f[2].str, f[3].str), s.err)
  }

  /** Reading on after one field. */
  lemma TakeFieldsCons(k: Kind, ks: seq<Kind>, s: Parser)
    ensures var (f, m) := TakeField(k, s);
            var (fs, e) := TakeFields(ks, m);
            TakeFields([k] + ks, s) == ([f] + fs, e)
  {
  }

  lemma Unroll1(k: Kind, s: Parser)
    ensures TakeFields([k], s) == ([TakeField(k, s).0], TakeField(k, s).1)
  {
    var (f, m) := TakeField(k, s);
    TakeFieldsCons(k, [], s);
    assert [k] + [] == [k] && [f] + [] == [f];
  }

  lemma Unroll2(k: Kind, l: Kind, s: Parser)
    ensures var (f, m) := TakeField(k, s);
            var (g, n) := TakeField(l, m);
            TakeFields([k, l], s) == ([f, g], n)
  {
    var (f, m) := TakeField(k, s);
    var g := TakeField(l, m).0;
    TakeFieldsCons(k, [l], s);
    Unroll1(l, m);
    assert [k] + [l] == [k, l] && [f] + [g] == [f, g];
  }

  lemma Unroll3(k: Kind, l: Kind, o: Kind, s: Parser)
    ensures var (f, m) := TakeField(k, s);
            var (g, n) := TakeField(l, m);
            var (h, e) := TakeField(o, n);
            TakeFields([k, l, o], s) == ([f, g, h], e)
  {
    var (f, m) := TakeField(k, s);
    var gh := TakeFields([l, o], m).0;
    TakeFieldsCons(k, [l, o], s);
    Unroll2(l, o, m);
    assert [k] + [l, o] == [k, l, o] && [f] + gh == [f, gh[0], gh[1]];
  }

  lemma Unroll4(k: Kind, l: Kind, o: Kind, p: Kind, s: Parser)
    ensures var (f, m) := TakeField(k, s);
            var (g, n) := TakeField(l, m);
            var (h, e) := TakeField(o, n);
            var (i, d) := TakeField(p, e);
            TakeFields([k, l, o, p], s) == ([f, g, h, i], d)
  {
    var (f, m) := TakeField(k, s);
    var ghi := TakeFields([l, o, p], m).0;
    TakeFieldsCons(k, [l, o, p], s);
    Unroll3(l, o, p, m);
    assert [k] + [l, o, p] == [k, l, o, p] && [f] + ghi == [f, ghi[0], ghi[1], ghi[2]];
  }

  class InitPacket {
    var version: u32

    constructor () {
      version := 0;
    }

    method Unmarshal(data: seq<byte>) returns (err: Option<FxpError>)
      modifies this
      ensures Unmarshalled(Init(version), err) == UnmarshalInit(data)
    {
      var parser := new FieldParser(data);
      version := parser.ReadUint32();
      Unroll1(KUint32, NewParser(data));
      err := parser.GetError();
    }
  }

  class OpenPacket {
    var id: u32
    var filename: seq<byte>
    var flags: u32

    constructor () {
      id, filename, flags := 0, [], 0;
    }

    method Unmarshal(data: seq<byte>) returns (err: Option<FxpError>)
      modifies this
      ensures Unmarshalled(Open(id, filename, flags), err) == UnmarshalOpen(data)
    {
      var parser := new FieldParser(data);
      id := parser.ReadUint32();
      filename := parser.ReadString();
      flags := parser.ReadUint32();
      Unroll3(KUint32, KString, KUint32, NewParser(data));
      err := parser.GetError();
    }
  }

  class WritePacket {
    var id: u32
    var handle: seq<byte>
    var offset: u64
    var data: seq<byte>

    constructor () {
      id, handle, offset, data := 0, [], 0, [];
    }

    method Unmarshal(bytes: seq<byte>) returns (err: Option<FxpError>)
      modifies this
      ensures Unmarshalled(Write(id, handle, offset, data), err) == UnmarshalWrite(bytes)
    {
      var parser := new FieldParser(bytes);
      id := parser.ReadUint32();
      handle := parser.ReadString();
      offset := parser.ReadUint64();
      data := parser.ReadString();
      Unroll4(KUint32, KString, KUint64, KString, NewParser(bytes));
      err := parser.GetError();
    }
  }

  class ClosePacket {
    var id: u32
    var handle: seq<byte>

    constructor () {
      id, handle := 0, [];
    }

    method Unmarshal(data: seq<byte>) returns (err: Option<FxpError>)
      modifies this
      ensures Unmarshalled(Close(id, handle), err) == UnmarshalClose(data)
    {
      var parser := new FieldParser(data);
      id := parser.ReadUint32();
      handle := parser.ReadString();
      Unroll2(KUint32, KString, NewParser(data));
      err := parser.GetError();
    }
  }

  class StatusPacket {
    var id: u32
    var errCode: u32
    var errMsg: seq<byte>
    var lang: seq<byte>

    constructor () {
      id, errCode, errMsg, lang := 0, 0, [], [];
    }

    function Value(): Packet
      reads this
    {
      Status(id, errCode, errMsg, lang)
    }

    method Unmarshal(data: seq<byte>) returns (err: Option<FxpError>)
      modifies this
      ensures Unmarshalled(Value(), err) == UnmarshalStatus(data)
    {
      var parser := new FieldParser(data);
      id := parser.ReadUint32();
      errCode := parser.ReadUint32();
      errMsg := parser.ReadString();
      lang := parser.ReadString();
      Unroll4(KUint32, KUint32, KString, KString, NewParser(data));
      err := parser.GetError();
    }
  }

  // ---------------------------------------------------------------------------
  // Each single read inverts exactly one encoder.

  lemma TakeUint32Exact(s: Parser, v: u32, rest: seq<byte>)
    ensures TakeUint32(s) == (v, Parser(rest, None)) <==> s.err.None? && s.buffer == MarshalUint32(v) + rest
  {
    if s.buffer == MarshalUint32(v) + rest {
      Uint32RoundTrip(v, rest);
    }
    if |s.buffer| >= 4 {
      Uint32Inverse(s.buffer);
      assert s.buffer == s.buffer[..4] + s.buffer[4..];
    }
  }

  lemma TakeUint64Exact(s: Parser, v: u64, rest: seq<byte>)
    ensures TakeUint64(s) == (v, Parser(rest, None)) <==> s.err.None? && s.buffer == MarshalUint64(v) + rest
  {
    if s.buffer == MarshalUint64(v) + rest {
      Uint64RoundTrip(v, rest);
    }
    if |s.buffer| >= 8 {
      Uint64Inverse(s.buffer);
      assert s.buffer == s.buffer[..8] + s.buffer[8..];
    }
  }

  lemma TakeStringExact(s: Parser, v: seq<byte>, rest: seq<byte>)
    ensures TakeString(s) == (v, Parser(rest, None)) <==>
              s.err.None? && |v| < TWO_32 && s.buffer == MarshalString(v) + rest
  {
    hide MarshalUint32, UnmarshalUint32, MarshalString;
    if s.err.None? && |v| < TWO_32 && s.buffer == MarshalString(v) + rest {
      StringPrefixExact(v, rest);
      assert (v + rest)[..|v|] == v && (v + rest)[|v|..] == rest;
    }
    if TakeString(s) == (v, Parser(rest, None)) {
      var tail := s.buffer[4..];
      Uint32Inverse(s.buffer);
      assert tail == v + rest;
      StringIsPrefixed(v);
      assert s.buffer == s.buffer[..4] + tail;
    }
  }

  // ---------------------------------------------------------------------------
  // Decoders are sound and complete against the encoders.

  function Fields(p: Packet): seq<Field> {
    match p
    case Init(version) => [Uint32(version)]
    case Version(version) => [Uint32(version)]
    case Open(id, filename, flags) => [Uint32(id), String(filename), Uint32(flags)]
    case Write(id, handle, offset, data) => [Uint32(id), String(handle), Uint64(offset), String(data)]
    case Close(id, handle) => [Uint32(id), String(handle)]
    case Handle(id, handle) => [Uint32(id), String(handle)]
    case Status(id, errCode, errMsg, lang) => [Uint32(id), Uint32(errCode), String(errMsg), String(lang)]
  }

  /** With or without an error, the receiver's fields are the fields of the packet in the order
    * of its encoding, each as its own read has left it. */
  lemma UnmarshalReadsInOrder(data: seq<byte>)
    ensures var (f, s) := TakeFields([KUint32], NewParser(data));
            var u := UnmarshalInit(data);
            u.packet.Init? && Fields(u.packet) == f && u.err == s.err
    ensures var (f, s) := TakeFields([KUint32, KString, KUint32], NewParser(data));
            var u := UnmarshalOpen(data);
            u.packet.Open? && Fields(u.packet) == f && u.err == s.err
    ensures var (f, s) := TakeFields([KUint32, KString, KUint64, KString], NewParser(data));
            var u := UnmarshalWrite(data);
            u.packet.Write? && Fields(u.packet) == f && u.err == s.err
    ensures var (f, s) := TakeFields([KUint32, KString], NewParser(data));
            var u := UnmarshalClose(data);
            u.packet.Close? && Fields(u.packet) == f && u.err == s.err
    ensures var (f, s) := TakeFields([KUint32, KUint32, KString, KString], NewParser(data));
            var u := UnmarshalStatus(data);
            u.packet.Status? && Fields(u.packet) == f && u.err == s.err
  {
    hide TakeFields;
  }

  /** The part of the encoding that the packet's own decoder reads: all of it, except that
    * Open's decoder stops before the four attribute bytes its encoder appends. */
  function Decodable(p: Packet): seq<byte> {
    if p.Open? then p.Marshal()[..|p.Marshal()| - 4] else p.Marshal()
  }

  lemma MarshalFieldsCons(f: Field, fs: seq<Field>)
    ensures MarshalFields([f] + fs) == f.Marshal() + MarshalFields(fs)
  {
  }

  lemma MarshalFields1(a: Field)
    ensures MarshalFields([a]) == a.Marshal()
  {
  }

  lemma MarshalFields2(a: Field, b: Field)
    ensures MarshalFields([a, b]) == a.Marshal() + b.Marshal()
  {
    MarshalFieldsCons(a, [b]);
    MarshalFields1(b);
    assert [a] + [b] == [a, b];
  }

  lemma MarshalFields3(a: Field, b: Field, c: Field)
    ensures MarshalFields([a, b, c]) == a.Marshal() + b.Marshal() + c.Marshal()
  {
    MarshalFieldsCons(a, [b, c]);
    MarshalFields2(b, c);
    assert [a] + [b, c] == [a, b, c];
  }

  lemma MarshalFields4(a: Field, b: Field, c: Field, d: Field)
    ensures MarshalFields([a, b, c, d]) == a.Marshal() + b.Marshal() + c.Marshal() + d.Marshal()
  {
    MarshalFieldsCons(a, [b, c, d]);
    MarshalFields3(b, c, d);
    assert [a] + [b, c, d] == [a, b, c, d];
  }

  lemma DecodableIsFields(p: Packet)
    ensures Decodable(p) == MarshalFields(Fields(p))
  {
    var f := Fields(p);
    if |f| == 1 {
      MarshalFields1(f[0]);
    } else if |f| == 2 {
      MarshalFields2(f[0], f[1]);
    } else if |f| == 3 {
      MarshalFields3(f[0], f[1], f[2]);
    } else {
      MarshalFields4(f[0], f[1], f[2], f[3]);
    }
  }

  lemma SameFields(f: seq<Field>, g: seq<Field>)
    requires |f| == |g| <= 4
    ensures f == g <==>
              && (|f| > 0 ==> f[0] == g[0]) && (|f| > 1 ==> f[1] == g[1])
              && (|f| > 2 ==> f[2] == g[2]) && (|f| > 3 ==> f[3] == g[3])
  {
  }

  // Unmarshal yields p and a nil error exactly when the data starts with p's encoding.

  lemma InitExact(data: seq<byte>, p: Packet)
    ensures UnmarshalInit(data) == Unmarshalled(p, None) <==>
              p.Init? && StringsFit(Fields(p)) && p.Marshal() <= data
  {
    if p.Init? {
      hide TakeFields, MarshalFields, StringsFit, Packet.Marshal;
      DecodableIsFields(p);
      FieldsExact(data, [KUint32], Fields(p));
      SameFields(TakeFields([KUint32], NewParser(data)).0, Fields(p));
    }
  }

  lemma CloseExact(data: seq<byte>, p: Packet)
    ensures UnmarshalClose(data) == Unmarshalled(p, None) <==>
              p.Close? && StringsFit(Fields(p)) && p.Marshal() <= data
  {
    if p.Close? {
      hide TakeFields, MarshalFields, StringsFit, Packet.Marshal;
      DecodableIsFields(p);
      FieldsExact(data, [KUint32, KString], Fields(p));
      SameFields(TakeFields([KUint32, KString], NewParser(data)).0, Fields(p));
    }
  }

  lemma WriteExact(data: seq<byte>, p: Packet)
    ensures UnmarshalWrite(data) == Unmarshalled(p, None) <==>
              p.Write? && StringsFit(Fields(p)) && p.Marshal() <= data
  {
    if p.Write? {
      hide TakeFields, MarshalFields, StringsFit, Packet.Marshal;
      DecodableIsFields(p);
      FieldsExact(data, [KUint32, KString, KUint64, KString], Fields(p));
      SameFields(TakeFields([KUint32, KString, KUint64, KString], NewParser(data)).0, Fields(p));
    }
  }

  lemma StatusExact(data: seq<byte>, p: Packet)
    ensures UnmarshalStatus(data) == Unmarshalled(p, None) <==>
              p.Status? && StringsFit(Fields(p)) && p.Marshal() <= data
  {
    if p.Status? {
      hide TakeFields, MarshalFields, StringsFit, Packet.Marshal;
      DecodableIsFields(p);
      FieldsExact(data, [KUint32, KUint32, KString, KString], Fields(p));
      SameFields(TakeFields([KUint32, KUint32, KString, KString], NewParser(data)).0, Fields(p));
    }
  }

  /** Open's decoder stops before the four attribute bytes its encoder appends. */
  lemma OpenExact(data: seq<byte>, p: Packet)
    ensures UnmarshalOpen(data) == Unmarshalled(p, None) <==>
              p.Open? && StringsFit(Fields(p)) && p.Marshal()[..|p.Marshal()| - 4] <= data
  {
    if p.Open? {
      hide TakeFields, MarshalFields, StringsFit, Packet.Marshal;
      DecodableIsFields(p);
      FieldsExact(data, [KUint32, KString, KUint32], Fields(p));
      SameFields(TakeFields([KUint32, KString, KUint32], NewParser(data)).0, Fields(p));
    }
  }

  lemma FieldsExact(data: seq<byte>, ks: seq<Kind>, fs: seq<Field>)
    requires KindsMatch(fs, ks)
    ensures var (f, s) := TakeFields(ks, NewParser(data));
            f == fs && s.err.None? <==> StringsFit(fs) && MarshalFields(fs) <= data
  {
    var (f, s) := TakeFields(ks, NewParser(data));
    TakeFieldsExact(ks, NewParser(data), fs, s.buffer);
    if MarshalFields(fs) <= data {
      var rest := data[|MarshalFields(fs)|..];
      TakeFieldsExact(ks, NewParser(data), fs, rest);
    }
  }
}
