# A verified model of flightsim's SSH/SFTP transfer and port-scan host selection

The SSH transfer simulation of flightsim splits a transfer among a few clients, lets each of them
write one file to an SFTP server in chunks of 1 MB, and reports an error unless all of them
succeeded. This project models that stack from the bytes up and proves what it promises:

* `marshal.dfy`, `fxp.dfy`, `packet.dfy`: the codec, the stateful field parser, and framing over a
  stream whose bytes arrive in chunks of any size;
* `protocol.dfy`: one client as a state machine of request/response exchanges, with the uint64
  arithmetic of the source; `client.dfy`: the source's methods as a class, proved against it;
* `session.dfy`, `accounting.dfy`: what every run of one client does on the wire, exactly when it
  succeeds, and what the byte count it reports is worth;
* `layout.dfy`: every packet, request and good answer byte by byte, in the numbers of the standard;
* `conn.dfy`: the partition search;
* `server.dfy`: a reference SFTP server that decodes requests with the repository's own `Unmarshal`
  methods and applies them to a file store;
* `transfer.dfy`, `simulate.dfy`, `outcome.dfy`, `replay.dfy`, `healthy.dfy`, `ssh_transfer.dfy`: all
  interleavings of clients, connections, channel and collector, and the methods of `SSHTransfer`;
* `reporting.dfy`, `confluence.dfy`: the reported byte counts against the server's files, and why the
  order in which clients get to act does not matter;
* `scan.dfy`: `randIP` and `PortScan.Hosts`.

The main results:

1. If a simulation reports no error then, under every interleaving and every choice the server may
   make, the store holds one file for each client with the bytes that client generated written from
   offset 0 over what was there before, no other file has changed, and the clients' shares and the
   collected total equal the size asked for (`SshTransfer.SimulateDelivers`). At every moment of
   every run, failed clients included, a file holds a prefix of its client's bytes over its old
   content and nothing else (`Outcome.SafeThroughout`).
2. Every schedule is finite, and unless things fail it can only end with all responses collected; no
   client blocks on the channel or crashes (`Outcome.EveryScheduleCompletes`). Without failures and
   refusals no schedule reports an error, and every run extends to a successful one
   (`Healthy.HealthyRunsSucceed`, `Healthy.SuccessIsReachable`).
3. The interleaved processes are runs of the sequential protocol (`Replay.ClientsRunTheProtocol`),
   which is what the imperative `WriteRandom` computes (`SshClient.Client.WriteRandom`).
4. A client succeeds exactly when its writes go through and the server's bytes are, frame by frame,
   good answers to its session (`Accounting.SuccessExact`, `Accounting.SuccessByBytes`), and it
   crashes exactly when, after good answers to all earlier requests, an empty frame answers one
   (`Accounting.CrashExact`).
5. The count of every client that has returned, whatever failed, is right about what its file holds
   of its bytes up to one chunk, exactly when no write broke off before its header was on the wire
   (`Reporting.ReportedIsWritten`); if that holds of all clients, the total that `Simulate` prints
   as transferred is right up to one chunk for each (`SshTransfer.TotalIsWritten`).
6. Two runs in which each client, with the server on its connection, does the same in the same order
   end with the same clients and the same files, however the clients were interleaved
   (`Confluence.RunsAreConfluent`), and print the same report (`SshTransfer.ScheduleIrrelevant`).
7. Different sessions never look alike on the wire (`Framing.UniqueDecodability`), every decoder is
   sound and complete against its encoder, and the bytes are those of SFTP version 3
   (`Layout.ClientRequests`, `Layout.GoodStatus` and the layouts of all packets).
8. The port scan's selection can be told round by round: which round drew which host, and that every
   other round was idle because its address had been drawn or all hosts were found
   (`Scan.DrawChronicle`); the result is ascending, distinct and balanced (`Scan.HostsWellChosen`).

Four promises turn out to hold only under a condition, which is stated and proved exact:

* After a nil error a client's file holds that client's bytes and nothing else exactly when it was
  no longer than the client's share before (`SshTransfer.SimulateDelivers`). The remote names are
  fixed (v2/simulator/ssh-transfer.go:138) and nothing truncates the file, the open request carrying
  `os.O_CREATE` alone (v2/simulator/ssh/client.go:247), so that a smaller second simulation leaves
  the tail of the first. `SshTransfer.OldTailWitness` is such a run. The same condition decides
  whether the files' sizes add up to the size asked for (`SshTransfer.FilesAddUp`).
* The byte count of a failed client lies between what was acknowledged and one chunk more exactly
  when a write that broke off had put its header on the wire: `bytesSent - pktOverhead`
  (v2/simulator/ssh/client.go:270-274) is an unsigned subtraction, so its `> 0` guard does not clamp
  it. `Accounting.FailureAccounting` gives the equivalence, `Accounting.WrapWitness` a run that
  reports 2^64 - 26 bytes for a file of one byte of which nothing was acknowledged.
* The partition search ends without wrapping its uint64 chunk size, and then equals the direct
  formula, exactly under `Conn.NoWrap` (`Conn.NoWrapExact`, `Conn.SearchOutcome`); it always holds
  for two senders or more. With one sender the search, wrapped or not, divides by zero in the end
  exactly when there is more to send than 2^64 less the largest power of two that divides the
  minimal size (`Conn.SearchPanics`), as for 2^64 - 1 bytes in chunks of 1 MB
  (`Conn.SearchDividesByZero`). The program would have to allocate a slice of 2^44 sizes on the way,
  which the model lets it do.
* `randIP` can draw every member of a network exactly when the network address has no host bits set
  (`Scan.RandIPOnto`); and `Hosts` selects any host at all, for a positive size, exactly when
  `2*size` does not overflow (`Scan.OverflowSelectsNothing`).

## Assumptions

* `bytesize.ByteSize` is an unsigned 64-bit integer, `bytesize.MB` is 2^20, `int` is 64 bits wide,
  and `os.O_CREATE` is 0x40, its value on Linux.
* `io.Writer` keeps its contract: a write that accepts fewer bytes returns an error. A writer that
  accepts everything and still returns an error is covered.
* Random bytes, permutations and generators are arbitrary inputs.
* Go strings and byte slices are sequences of bytes. Length prefixes and frame lengths are truncated
  to 32 bits as in the source; the statements say where a value must fit.
* The server hands out handles of at most 256 bytes (section 7 of draft-ietf-secsh-filexfer-02). For
  a single client talking to an arbitrary peer there is no such limit.

## Model

| member | source | states |
|---|---|---|
| Marshal.BigEndianRoundTrip | v2/utils/marshal.go:5-23 | reading back a fixed-width integer returns it exactly when it fits the width |
| Marshal.BigEndianInverse | v2/utils/marshal.go:5-23 | every byte string of the width is the encoding of the integer read from it |
| Marshal.Uint32Layout | v2/utils/marshal.go:5-9 | the four bytes of a uint32, most significant first |
| Marshal.Uint64Layout | v2/utils/marshal.go:15-19 | a uint64 is its high word followed by its low word |
| Marshal.StringPrefixExact | v2/utils/marshal.go:25-30 | an encoded string starts with its length exactly when that fits 32 bits; the bytes follow, the empty string being no exception |
| Fxp.FieldParser.ReadUint32 | v2/simulator/ssh/fxp/fxp.go:67-73 | consumes four bytes, or sets the error and leaves the buffer |
| Fxp.FieldParser.ReadUint64 | v2/simulator/ssh/fxp/fxp.go:77-83 | consumes eight bytes, or sets the error and leaves the buffer |
| Fxp.FieldParser.ReadString | v2/simulator/ssh/fxp/fxp.go:87-98 | consumes prefix and string; a prefix that promises too much is consumed and sets the error |
| Fxp.ParserInvariant | v2/simulator/ssh/fxp/fxp.go:67-103 | over any sequence of reads: consumed plus remaining is the input, an error is never cleared, the final error is nil exactly when every read had enough bytes |
| Fxp.TakeFieldsExact | v2/simulator/ssh/fxp/fxp.go:67-98 | any sequence of reads returns given fields without error exactly when the input starts with their encodings |
| Fxp.TakeFieldOn | v2/simulator/ssh/fxp/fxp.go:67-98 | a read after an error still returns and consumes its field, and leaves the error |
| Fxp.TakeFromShort | v2/simulator/ssh/fxp/fxp.go:67-91 | too short a buffer: zero value, error, nothing consumed |
| Fxp.TakeBrokenString | v2/simulator/ssh/fxp/fxp.go:92-97 | a prefix that promises too much: empty string, error, exactly the four bytes of the prefix consumed |
| Fxp.InitPacket.Unmarshal | v2/simulator/ssh/fxp/fxp.go:182-186 | receiver fields and error after decoding an Init |
| Fxp.OpenPacket.Unmarshal | v2/simulator/ssh/fxp/fxp.go:208-214 | receiver fields and error after decoding an Open |
| Fxp.WritePacket.Unmarshal | v2/simulator/ssh/fxp/fxp.go:237-244 | receiver fields and error after decoding a Write |
| Fxp.ClosePacket.Unmarshal | v2/simulator/ssh/fxp/fxp.go:263-268 | receiver fields and error after decoding a Close |
| Fxp.StatusPacket.Unmarshal | v2/simulator/ssh/fxp/fxp.go:160-167 | receiver fields and error after decoding a Status |
| Fxp.UnmarshalReadsInOrder | v2/simulator/ssh/fxp/fxp.go:160-268 | the receiver's fields are what the reads return in the order of the encoding, also when there is an error |
| Fxp.InitExact | v2/simulator/ssh/fxp/fxp.go:178-186 | Unmarshal gives p and a nil error exactly when the data starts with p's encoding |
| Fxp.OpenExact | v2/simulator/ssh/fxp/fxp.go:199-214 | the same for Open, whose decoder ignores the four attribute bytes its encoder appends |
| Fxp.WriteExact | v2/simulator/ssh/fxp/fxp.go:228-244 | the same for Write |
| Fxp.CloseExact | v2/simulator/ssh/fxp/fxp.go:256-268 | the same for Close |
| Fxp.StatusExact | v2/simulator/ssh/fxp/fxp.go:151-167 | the same for Status |
| Framing.VersionRespExact | v2/simulator/ssh/packet.go:78-85 | a version response is accepted as p exactly when it starts with p's encoding |
| Framing.OpenRespExact | v2/simulator/ssh/packet.go:89-100 | the same for a handle |
| Framing.StatusRespExact | v2/simulator/ssh/packet.go:108-115 | the same for a status |
| Framing.VersionResp | v2/simulator/ssh/packet.go:78-85 | the method computes that result |
| Framing.OpenResp | v2/simulator/ssh/packet.go:89-100 | the method computes that result |
| Framing.StatusResp | v2/simulator/ssh/packet.go:108-115 | the method computes that result |
| Framing.ReadFull | v2/simulator/ssh/packet.go:58-67 | io.ReadFull over chunks of any sizes depends only on their concatenation and on how the stream ends |
| Framing.ReadPacket | v2/simulator/ssh/packet.go:50-74 | body, error, partial buffer and rest of the stream, whatever the chunks |
| Framing.ReadPacketExact | v2/simulator/ssh/packet.go:50-74 | a body and a rest are returned exactly when the stream is that body's frame followed by that rest |
| Framing.StrictPrefixFails | v2/simulator/ssh/packet.go:58-72 | every strict prefix of a frame yields an error |
| Framing.CutFrame | v2/simulator/ssh/packet.go:58-73 | which error, which padded part and which rest a stream cut anywhere inside a frame yields |
| Framing.FramingRoundTrip | v2/simulator/ssh/packet.go:27-74 | a packet survives framing exactly when its length fits the 32-bit field |
| Framing.SessionReads | v2/simulator/ssh/packet.go:27-74 | reading a session back returns its typecodes and data in order and consumes exactly its bytes |
| Framing.UniqueDecodability | v2/simulator/ssh/packet.go:36-46 | the bytes of one session are a prefix of another's exactly when its packets are |
| Layout.InitLayout | v2/simulator/ssh/fxp/fxp.go:178-190 | length 5, code 1, version |
| Layout.VersionLayout | v2/simulator/ssh/fxp/fxp.go:106-120 | length 5, code 2, version |
| Layout.OpenLayout | v2/simulator/ssh/fxp/fxp.go:199-218 | length, code 3, ID, file name, flags, four zero bytes of attributes |
| Layout.WriteLayout | v2/simulator/ssh/fxp/fxp.go:228-248 | length, code 6, ID, handle, 64-bit offset, data |
| Layout.CloseLayout | v2/simulator/ssh/fxp/fxp.go:256-272 | length, code 4, ID, handle |
| Layout.HandleLayout | v2/simulator/ssh/fxp/fxp.go:123-140 | length, code 102, ID, handle |
| Layout.StatusLayout | v2/simulator/ssh/fxp/fxp.go:143-171 | length, code 101, ID, error code, message, language |
| Layout.LengthWraps | v2/simulator/ssh/packet.go:27-46 | the length field of a packet of any size, and the bare field when it wraps to zero |
| Layout.ClientRequests | v2/simulator/ssh/client.go:160-278 | all bytes of each request of a client: version 3, ID 1, flags 0x40, offsets and sizes of the writes in numbers |
| Layout.GoodVersion | v2/simulator/ssh-transfer.go:74-86 | a good answer to Init is one that starts with 2, 0, 0, 0, 3 |
| Layout.GoodHandle | v2/simulator/ssh/client.go:177-192 | a good answer to Open is one that starts with code 102 and a whole ID and handle |
| Layout.GoodStatus | v2/simulator/ssh/client.go:197-241 | a good answer to Write and Close is one that starts with code 101, an ID, error code 0 and two whole strings |
| Protocol.CountSentIsModular | v2/simulator/ssh/client.go:269-274 | the running total after a write, modulo 2^64: payload less what did not reach the wire |
| Protocol.NextWriting | v2/simulator/ssh/client.go:258-278 | one pass of the loop: a good answer adds exactly the payload and moves to the next chunk or to Close, anything else ends the run |
| SshClient.Client.ReadResp | v2/simulator/ssh/client.go:112-157 | status first, then the expected type, else an error; a frame without a type byte panics |
| SshClient.Client.SendInit | v2/simulator/ssh/client.go:160-174 | one exchange: the request's bytes, the outcome, and what is left of the streams |
| SshClient.Client.SendOpen | v2/simulator/ssh/client.go:177-192 | the same for Open |
| SshClient.Client.SendWrite | v2/simulator/ssh/client.go:197-219 | the same for Write, with bytes to send and bytes sent |
| SshClient.Client.SendClose | v2/simulator/ssh/client.go:223-241 | the same for Close |
| SshClient.Client.Handshake | v2/simulator/ssh-transfer.go:74-86 | version handshake: only the client's own version is accepted |
| SshClient.RandomGen.Read | v2/simulator/ssh/client.go:267 | fills the front of the buffer in place with the next bytes of the source |
| SshClient.Client.WriteRandom | v2/simulator/ssh/client.go:245-282 | the response (or panic) and the connection afterwards are those of a run of the protocol from Open |
| Session.WritesTile | v2/simulator/ssh/client.go:254-278 | the writes cover [0, toSend) in order without gap or overlap, carry the generated bytes, and i*buffSize never wraps |
| Session.WritesInNumbers | v2/simulator/ssh/client.go:251-269 | write k exists exactly if k*2^20 < toSend, starts there, and carries 2^20 bytes or what is left |
| Session.NextIsNext | v2/simulator/ssh/client.go:245-282 | a good exchange moves to the next request of the session or finishes it; any other ends the run with an error |
| Session.TraceGrammar | v2/simulator/ssh/client.go:160-282 | requests are a prefix of Init, Open, the ceil(toSend/2^20) writes, Close; each is sent only after all earlier ones were answered well; a run succeeds exactly when the last exchange is good too |
| Accounting.WireGrammar | v2/simulator/ssh/client.go:160-282 | the bytes sent are those requests in full except possibly the last: a prefix of the session's bytes |
| Accounting.ParsedIsPrefix | v2/simulator/ssh/client.go:112-157 | a body is accepted as packet q exactly when q is of the expected type and the body starts with q's |
| Accounting.RejectionReasons | v2/simulator/ssh/client.go:121-156 | for each way in which ReadResp rejects a body, exactly which bodies are rejected so |
| Accounting.SettleReasons | v2/simulator/ssh/client.go:160-241 | what the Send methods return for a failed write, a rejected, a mistyped and an error response |
| Accounting.SuccessExact | v2/simulator/ssh/client.go:245-282 | nil error exactly when no write fails and the incoming bytes are, frame by frame, a well-formed handle and OK statuses; then BytesSent is toSend |
| Accounting.SuccessByBytes | v2/simulator/ssh/client.go:245-282 | that condition does not depend on the handle the run was given: the requests for any handle will do |
| Accounting.PanicExact | v2/simulator/ssh/client.go:113-121 | reading a response panics exactly on a frame of length zero |
| Accounting.CrashExact | v2/simulator/ssh/client.go:112-282 | a run crashes exactly when some of its requests are answered well, the next one is written in full, and an empty frame follows |
| Accounting.CrashByBytes | v2/simulator/ssh/client.go:112-282 | nor does that condition depend on the handle |
| Accounting.ResponseFields | v2/simulator/ssh/client.go:245-281 | the response bears the client's name, the handle given out, and the stage of the last exchange as error exactly if that was not good |
| Accounting.GrantedHandle | v2/simulator/ssh/client.go:246-251 | that handle is the one in the answer to Open, or empty without a good answer |
| Accounting.ReportedCount | v2/simulator/ssh/client.go:267-281 | BytesSent on every path: acknowledged bytes, plus the payload of a fully written but unacknowledged write, or the exact modular formula for a cut one |
| Accounting.LastWrite | v2/simulator/ssh/client.go:258-277 | everything before the offset of the failing write was acknowledged, and the write ends within toSend |
| Accounting.HeaderOverhead | v2/simulator/ssh/client.go:198-201 | a write request takes 25 bytes plus the handle on top of its data, exactly when its frame length does not wrap to zero |
| Accounting.FailureAccounting | v2/simulator/ssh/client.go:245-282 | acknowledged <= BytesSent <= acknowledged + one chunk and BytesSent <= toSend, exactly when a cut write got its header out |
| Accounting.WrapWitness | v2/simulator/ssh/client.go:270-274 | a run that reports 2^64 - 26 bytes |
| Conn.ComputeSenders | v2/utils/conn.go:7-19 | as many full chunks as fit and then the remainder; a panic exactly for a chunk size of zero |
| Conn.ComputeSenderSizes | v2/utils/conn.go:24-32 | for all arguments: the chunks for the first size tried that gives few enough, or a panic if a size of zero comes first |
| Conn.SearchOutcome | v2/utils/conn.go:24-32 | the search ends before its uint64 sum wraps exactly under NoWrap, and then with the closed-form chunk size; zero or fewer senders or a minimal size of zero end in a panic, except for zero senders with zero bytes to send |
| Conn.SearchPanics | v2/utils/conn.go:7-32 | with a sender and a minimal size, the search panics exactly for one sender and more to send than 2^64 less the lowest bit of the minimal size; otherwise it returns, even after wrapping |
| Conn.MultipleIsLeast | v2/utils/conn.go:24-32 | a multiple of the minimal size gives few enough chunks exactly from max(1, ceil(toSend/(maxSenders*minSendSize))) on |
| Conn.ChunksPartition | v2/utils/conn.go:7-19 | sizes sum to toSend, are positive, all but the last equal the chunk size, which bounds the last |
| Conn.PartitionWithinLimit | v2/utils/conn.go:21-32 | at most maxSenders sizes, at least one if there is anything to send, summing to toSend |
| Conn.NoWrapExact | v2/utils/conn.go:24-32 | the search can end before wrapping exactly under NoWrap |
| Conn.NeverWraps | v2/utils/conn.go:24-32 | NoWrap holds for two senders or more, and for one if toSend + minSendSize fits |
| Conn.SearchDividesByZero | v2/utils/conn.go:8-30 | with one sender and 2^64 - 1 bytes the first size that ends the search is the 2^44th, which is zero |
| Server.DecodeBody | v2/simulator/ssh/fxp/fxp.go:174-272 | a request that fits in a frame is decoded back exactly, by the Unmarshal method its code selects |
| Server.ServeRequest | v2/simulator/ssh/fxp/fxp.go:174-272 | the server's answer to a client's request bytes: a refusal that changes nothing, or exactly what was asked; no other file changes |
| Transfer.AnswerAdvances | v2/simulator/ssh/client.go:245-282 | a good answer moves a client to a state that agrees with the server's, or finishes it with everything written |
| Transfer.ReceiveKeeps | v2/simulator/ssh/client.go:112-157 | reading a response keeps client and server in agreement |
| Simulate.StepKeepsInv | v2/simulator/ssh-transfer.go:115-165 | every action of every interleaving keeps the global invariant |
| Simulate.RunKeepsInv | v2/simulator/ssh-transfer.go:115-165 | the invariant holds in every world of every run |
| Outcome.EndToEnd | v2/simulator/ssh-transfer.go:115-165 | with all responses collected and no error, every client's file holds its data over what was there before, just its data exactly when no longer file was there, and no other file has changed |
| Outcome.NeverCorrupt | v2/simulator/ssh/client.go:254-278 | at every moment a client's file is its old content with a prefix of the client's bytes written over it |
| Outcome.OneOutstanding | v2/simulator/ssh/client.go:22-26 | a connection carries at most one request or one answer, so a constant request ID is unambiguous |
| Outcome.NeverBlocks | v2/simulator/ssh-transfer.go:132-141 | with capacity for all clients no send on the channel ever blocks |
| Outcome.EveryoneDelivered | v2/simulator/ssh-transfer.go:146-153 | a finished collector has received exactly one response from every client |
| Outcome.NeverStuck | v2/simulator/ssh-transfer.go:133-153 | until then some action other than a failure or a refusal is possible |
| Outcome.EveryScheduleCompletes | v2/simulator/ssh-transfer.go:133-153 | every run is finite, and one that can go on only by failures or refusals has collected all responses |
| Outcome.SafeThroughout | v2/simulator/ssh-transfer.go:99-165 | no panic, no blocked send, lockstep and uncorrupted files in every world of every run |
| Replay.ClientsRunTheProtocol | v2/simulator/ssh-transfer.go:99-112 | whatever the schedule, a client returns what the sequential protocol returns on a connection with its past |
| Reporting.FailedCount | v2/simulator/ssh/client.go:245-281 | the count a failed exchange ends a client with, in terms of what is missing of its last request |
| Reporting.ReportedIsWritten | v2/simulator/ssh/client.go:258-281 | for a client that has returned, in every world of every run: its file holds its old content with a first part of its bytes over it, and its count is right about that part up to one chunk exactly when no write broke off within its header |
| Confluence.PerformPointwise | v2/simulator/ssh/fxp/fxp.go:174-272 | a request's effect on a file depends only on that file |
| Confluence.ClientsAgree | v2/simulator/ssh-transfer.go:99-141 | what one client sees, at any point of two runs, is determined by its own actions so far |
| Confluence.RunsAreConfluent | v2/simulator/ssh-transfer.go:99-153 | runs in which every client does the same in the same order end with the same clients, files and responses |
| Healthy.HealthyRunsSucceed | v2/simulator/ssh-transfer.go:144-165 | without failures or refusals no response carries an error |
| Healthy.SuccessIsReachable | v2/simulator/ssh-transfer.go:115-165 | every run without failures or refusals extends to one in which Simulate returns nil |
| SshTransfer.FileNameInjective | v2/simulator/ssh-transfer.go:138 | the remote names of different clients differ |
| SshTransfer.ClientNames | v2/simulator/ssh-transfer.go:137 | the client names in bytes |
| SshTransfer.FileNames | v2/simulator/ssh-transfer.go:138 | the remote names in bytes |
| SshTransfer.SizesInNumbers | v2/simulator/ssh-transfer.go:119-128 | the split in numbers: one client up to 1 MB, otherwise two with the least multiple of 1 MB that will do, the second taking the rest |
| SshTransfer.JobInBytes | v2/simulator/ssh-transfer.go:133-142 | client i has the name and the file that end in i, and the i-th share |
| SshTransfer.SimulateDelivers | v2/simulator/ssh-transfer.go:115-165 | nil error means one file per client with its bytes over what was there before, just its bytes exactly when no longer file was there; all else unchanged; shares and total equal to sendSize |
| SshTransfer.FilesAddUp | v2/simulator/ssh-transfer.go:115-165 | after a nil error the file sizes add up to sendSize exactly when no old file was longer than its share |
| SshTransfer.SimulateCanDeliver | v2/simulator/ssh-transfer.go:115-165 | for every size and every store some run ends with a nil error |
| SshTransfer.OldTailWitness | v2/simulator/ssh/client.go:245-250 | a run that returns nil and leaves the tail of a longer old file |
| SshTransfer.ArrivalOrderIrrelevant | v2/simulator/ssh-transfer.go:144-153 | total, failed clients and verdict do not depend on the order of arrival |
| SshTransfer.FailedNamesInOrder | v2/simulator/ssh-transfer.go:144-151 | the clients noted are exactly those whose responses bear an error, in order of arrival |
| SshTransfer.ScheduleIrrelevant | v2/simulator/ssh-transfer.go:115-162 | completed runs in which every client does the same in the same order leave the same files and give the same total, failed clients and verdict |
| SshTransfer.SameResponsesSameReport | v2/simulator/ssh-transfer.go:144-162 | completed worlds in which the clients returned the same responses give the same report |
| SshTransfer.TotalIsWritten | v2/simulator/ssh-transfer.go:144-161 | the printed total, after errors too, is at least what the files hold of the clients' bytes and at most one chunk per client more, unless a write broke off within its header |
| SshTransfer.SSHTransfer.RunClient | v2/simulator/ssh-transfer.go:60-112 | a client's goroutine sends exactly one response on every path: connect error, handshake error, or WriteRandom's |
| SshTransfer.ClientsSendTheirResult | v2/simulator/ssh-transfer.go:99-112 | in every run, what a client has returned is what RunClient sends on a connection with its past, a refused dial included |
| SshTransfer.RefusedDial | v2/simulator/ssh-transfer.go:100-107 | a client that cannot reach the server sends an error with its name and a count of zero, as in the model of all clients |
| SshTransfer.SSHTransfer.Launch | v2/simulator/ssh-transfer.go:121-143 | a size of zero is rejected; otherwise one job for each part, named by its index |
| SshTransfer.SSHTransfer.Collect | v2/simulator/ssh-transfer.go:144-153 | receives one response per client, waiting for those not yet sent, adds up in uint64, and notes the clients with errors in order; waits forever exactly when too few are ever sent |
| Scan.RandIP | v2/simulator/scan.go:34-52 | the byte loops compute host bits from the random bytes and the rest from the network |
| Scan.RandIPBits | v2/simulator/scan.go:38-49 | bit by bit, for any network: its own bits under the mask, random bits or-ed with its own elsewhere |
| Scan.FormIrrelevant | v2/simulator/scan.go:46 | the 4-byte and 16-byte form of an address make the same network |
| Scan.RandIPInNetwork | v2/simulator/scan.go:34-52 | every address drawn lies in the network |
| Scan.RandIPOnto | v2/simulator/scan.go:34-52 | every member can be drawn exactly when the network is canonical |
| Scan.RandIPByHostBits | v2/simulator/scan.go:38-49 | the host bits of the random input determine the address, and conversely |
| Scan.Hosts | v2/simulator/scan.go:72-101 | panics exactly for sizes of -40 and below; otherwise the sorted draws of the loop |
| Scan.DrawChronicle | v2/simulator/scan.go:84-95 | for every start and random input there are rounds in ascending order that drew exactly the hosts selected; every other round up to 2*size repeated one or came when all were found |
| Scan.HostsGoOn | v2/simulator/scan.go:84 | the selection ends with all hosts asked for, or every one of 2*size rounds drew an address that is selected |
| Scan.NothingAskedFor | v2/simulator/scan.go:84 | a size of zero or less selects nothing |
| Scan.NumOfNetsExact | v2/simulator/scan.go:78-81 | one network below 20 hosts, two from 20, three from 40, none from -20 down, a negative number from -40 down |
| Scan.DocumentationRanges | v2/simulator/scan.go:18-31 | the three ranges hold exactly 192.0.2.x, 198.51.100.x and 203.0.113.x |
| Scan.LessIsByValue | v2/simulator/scan.go:97-99 | addresses of one length compare as their numbers |
| Scan.HostsInNumericOrder | v2/simulator/scan.go:97-99 | the hosts come in strictly ascending numeric order |
| Scan.HostsWellChosen | v2/simulator/scan.go:72-101 | for every random input: strictly ascending, in the chosen ranges, at most min(size, 256 per range), per-range counts within one of each other |
| Scan.DrawnShares | v2/simulator/scan.go:84-95 | each chosen range gets exactly its share of the turns |
| Scan.OverflowSelectsNothing | v2/simulator/scan.go:84 | a positive size selects nothing exactly when 2*size overflows |

## Left out

- Dialling, SSH handshake, keys, sessions and pipes (`NewClient`, `auth.go`, the signer in `Simulate`): replaced by byte streams in both directions that may fail, and by a dial that succeeds or not.
- Contexts, deadlines and `Teardown`: a deadline is a read or write that fails; tearing down a finished connection has no effect on what is modelled.
- The `go` statement: `Simulate` is modelled as its first part (`Launch`), each goroutine (`RunClient`), its receive loop (`Collect`), and the interleaving of them all in module Simulate.
- Error texts, the printed file name and the joined message: only which client failed, and at which stage, is kept.
- SFTP open flags and permissions: the reference server creates a file that does not exist and keeps the content of one that does.
- `Unmarshal` of Version and Handle, which only return that they are not implemented; type codes of packets the client never uses.
- Memory limits: a frame length or a number of senders too large to allocate.
- Framing.UniqueDecodability: for packets that fit in a frame; FramingRoundTrip says what happens to others.
- Server.ServeRequest: for file names and handles of at most 256 bytes.
- Scan.Hosts: addresses stay in byte form, their dotted text and its parsing being inverse to each other for IPv4; `sort.Slice` is an insertion sort on values; sizes are those of a 64-bit int.
- `PortScan.Simulate`, `ParseScope`, `HostMsg`, and all other simulators and commands: network calls, presentation and plumbing around what is modelled.
