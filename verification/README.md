# Verified models of libre

libre is a C library for real-time communication. This project models its wire codecs, its transaction
and worker protocols, and some of its streaming and layout code in Dafny, and proves what the library
promises about them.

Code that works on memory buffers, lists and fields in place is modelled by classes and methods with the
same loops, branches and error codes. Each such method is proved against a specification function, and
the properties below are lemmas about those functions, for all inputs or all runs.

| files | what they model |
|---|---|
| `Bytes`, `Mbuf`, `Lists`, `RtpPackets` | octets and error codes, memory buffers, linked lists, packet handlers |
| `DnsName`, `DnsCompression`, `DnsSharing`, `DnsNameCodec` | domain names with compression (section 4.1.4 of RFC 1035) |
| `DnsRecord`, `DnsRoundTrip`, `DnsWire`, `DnsRecordCodec` | resource records: round trips, and what any bytes are read as |
| `Async`, `AsyncSafety`, `AsyncOrder`, `AsyncProgress`, `AsyncPool` | the asynchronous worker pool |
| `Bfcp`, `BfcpWire`, `BfcpCodec`, `BfcpClient` | BFCP attributes and messages (sections 5.1 and 5.2 of RFC 4582), client transactions (section 8.3.1 of RFC 8855) |
| `IcePairs`, `Ice` | ICE check lists (sections 5.7, 5.8, 7.1.3.3 and 8 of RFC 5245) |
| `AnnexB`, `H264`, `H264Fragments`, `H265` | start codes, STAP-A, FU-A (sections 5.7.1 and 5.8 of RFC 6184) and H.265 fragments (section 4.4.3 of RFC 7798) |
| `Av1`, `Av1Wire`, `Av1Codec` | AV1 aggregation and fragmentation |
| `HttpChunk`, `HttpReceiver` | the chunked body receiver (section 3.6.1 of RFC 2616) |
| `AudioBuffer`, `Fir`, `VideoLayout` | audio buffer, ring-buffer filter, video mixer layout |

How the models are built:

- The worker pool is a state machine. One step is one critical section of the pool mutex or of an item
  mutex; `AsyncPool` holds the code of each section and ties it to its step. Handlers and callbacks run
  between two steps, and any thread may step at any time.
- Records and names are specified by functions that hand the compression table along. The invariant
  `DnsCompression.TableOk` ties the table to the bytes already written.
- The ICE procedures call each other recursively as in the source. Their termination measure is the number
  of pairs of the check list that are neither failed nor succeeded, with the position in the call chain.
- Whether a message can be sent, the priority of a pair, the timestamp of a frame after a partial read, and
  the clock are the environment's choice.

Findings: places where the code does not do what one would expect. Each has its exact condition.

- The TXT loop of the record encoder ends only for data of at most 255 bytes (`DnsRecordCodec.TxtEnds`).
- Names with labels of 192 to 255 bytes are written without error but read as pointers, and a name is
  recovered exactly if it has 1 to 191 bytes per label (`DnsCompression.NameRoundTripIff`).
- A callback without a work handler reports the error its item had before (`AsyncSafety.CallbackOnce`,
  `AsyncSafety.StaleOrigin`, `AsyncSafety.StaleError`).
- A work handler or callback that cancels its own id waits for ever, and so does one whose item a cancellation
  waits for while it waits for the pool (`AsyncProgress.CancelFinishesIff`, `AsyncProgress.CancelOwnId`).
- The length byte of BFCP attributes and groups wraps (`Bfcp.LeafIff`, `Bfcp.GroupIff`).
- A BFCP attribute with a value of two bytes and more content than that is followed by the rest of its content,
  read as the next attribute (`BfcpWire.AttributeIs`).
- If the last queued BFCP request cannot be sent and its handler makes another, that one stays in the
  queue, unsent and without a timer (`BfcpClient.Client.Dispatch`, `BfcpClient.StallsIff`).
- FU-A fragments lose the forbidden bit (`H264Fragments.NalRoundTrip`), an empty unit is given a wrapped
  length (`H264Fragments.FrameNoneEmptyIff`, `H264Fragments.PayloadInsideIff`), and packets without room for
  payload are never finished (`H264Fragments.SentIff`, `H265.FinishesIff`). A payload of just the packet size is
  sent whole, with its header one byte more (`H264Fragments.PacketsFitIff`).
- A refused last unit of an H.265 frame leaves it without a marker (`H265.FrameMarked`).
- An AV1 unit that ends with a skipped OBU is aggregated in a form the W field does not describe, and a last
  OBU of a single byte is lost (`Av1.UnitRoundTripIff`). In later packets only a W of two is corrected
  (`Av1.UnitWIff`).
- Blanks between the digits of a chunk size are skipped, so that `1 0` is sixteen (`HttpChunk.SizeLine`).
- With a body size limit, what an HTTP client keeps before the failure depends on the TCP segments exactly if
  the chunk that crosses the limit begins before it (`HttpReceiver.CutsMatterIff`).
- Stopping the ICE checks with an error reports the outcome of the valid list instead, and every stop reports
  again (`Ice.Icem.Stop`, `Ice.EpisodeReports`).
- If the drop at the first read of the audio buffer leaves less than was asked for, although there was enough,
  the rest of the output is not written (`AudioBuffer.UnwrittenIff`). An overrun drops only one frame
  (`AudioBuffer.Buffer.Append`).
- A source that is not shown but in focus can cost another source its place (`VideoLayout.ShownIff`).

## Model

| member | source | states |
|---|---|---|
| `MemoryBuffer.Mbuf.WriteMem` | src/mbuf/mbuf.c:235-260 | stores the bytes at the position and changes nothing else; position and end move as promised; storage grows only if it has to, to twice its size or the bytes needed, whichever is more |
| `MemoryBuffer.Mbuf.Resize` | src/mbuf/mbuf.c:146-161 | storage grown or shrunk keeps its old bytes as far as they fit |
| `MemoryBuffer.Mbuf.ReadMem` | src/mbuf/mbuf.c:376-392 | reads exactly n bytes, or fails with EOVERFLOW and moves nothing |
| `MemoryBuffer.Mbuf.ReadU8` | src/mbuf/mbuf.c:417-422 | next byte, or zero without moving when nothing is left |
| `MemoryBuffer.Mbuf.ReadU16` | src/mbuf/mbuf.c:432-437 | next 16-bit field, or zero without moving when too little is left |
| `MemoryBuffer.Mbuf.ReadU32` | src/mbuf/mbuf.c:447-452 | next 32-bit field, or zero without moving when too little is left |
| `MemoryBuffer.Mbuf.Left` | include/re/re_mbuf.h:117-120 | bytes between position and end, never negative |
| `MemoryBuffer.PatchedInside` | src/dns/rr.c:193-195 | overwriting part of what was stored: the algebra of back-patched length fields |
| `DnsName.NameTable.Lookup` | src/dns/dname.c:58-71 | the loop over the chain finds the first entry equal to the name up to case |
| `DnsName.Append` | src/dns/dname.c:37-55 | offsets above 0x3fff and empty names are not recorded |
| `DnsName.Pointer` | src/dns/dname.c:74-77 | two bytes with both marker bits set from which the offset can be read back |
| `DnsName.TargetMask` | src/dns/dname.c:200 | the offset of a pointer is its 16-bit field modulo 0x4000 |
| `DnsName.JoinLabels` | src/dns/dname.c:101-147 | joining the labels of a well-formed name gives its text back up to case and final dot |
| `DnsName.LabelCount` | src/dns/dname.c:192-193 | a name of 255 characters has at most 128 labels, fewer than the loop guard allows hops |
| `DnsName.Walk` | src/dns/dname.c:162-222 | on arbitrary bytes the decoder stops inside the buffer, with fewer than 256 characters |
| `DnsCompression.TableFrame` | src/dns/dname.c:91-150 | everything written behind the bytes known so far keeps the table right |
| `DnsCompression.WalkSpells` | src/dns/dname.c:172-219 | decoding spelled labels never trips the loop guard: at most one hop per label |
| `DnsCompression.PointerContinues` | src/dns/dname.c:66-77 | a pointer to a recorded name goes strictly backwards to where the name is spelled |
| `DnsCompression.LabelBytesSpell` | src/dns/dname.c:113-147 | the bytes written for a name spell its labels, through at most one pointer, and nothing more |
| `DnsCompression.LabelTableOk` | src/dns/dname.c:113-147 | every suffix recorded on the way is spelled at the offset it was recorded with |
| `DnsCompression.EncNameOk` | src/dns/dname.c:91-150 | after every successful encode each table entry can be read back at its offset, starting at a literal label or root byte |
| `DnsCompression.NameRoundTrip` | src/dns/dname.c:91-222 | a name encoded against any table that is right so far decodes to itself up to case and final dot, consuming exactly its bytes |
| `DnsCompression.NameRoundTripIff` | src/dns/dname.c:91-222 | exactly the names with labels of 1 to 191 bytes and at most 255 characters survive the round trip |
| `DnsNameCodec.EncodeName` | src/dns/dname.c:91-150 | the in-place encoder writes the specified bytes, records the specified suffixes and fails exactly on an empty label |
| `DnsNameCodec.EncodeLabels` | src/dns/dname.c:113-147 | the character loop with back-patched length bytes writes the labels of the name |
| `DnsNameCodec.CloseLabel` | src/dns/dname.c:129 | the length byte is patched in front of the finished label |
| `DnsNameCodec.NextLabel` | src/dns/dname.c:125-141 | at a dot: a pointer to a recorded rest ends the name, otherwise the rest is recorded and the next label begins |
| `DnsNameCodec.FinishName` | src/dns/dname.c:117-124 | the last label is closed and the root byte written |
| `DnsNameCodec.DecodeName` | src/dns/dname.c:162-222 | the decoder loop with its 256-byte buffer gives the text and the position that the specification gives, or EINVAL |
| `DnsNameCodec.CopyLabel` | src/dns/dname.c:214-218 | the inner copy loop appends the label with a dot in front if need be |
| `DnsRecord.Ttl` | src/dns/rr.c:97 | time to live minus offset, zero if negative, modulo 2^32 |
| `DnsRecordCodec.EncodeCstr` | src/dns/cstr.c:23-37 | length modulo 256, then that many bytes |
| `DnsRecordCodec.DecodeCstr` | src/dns/cstr.c:48-61 | EINVAL without a length byte, EBADMSG for a length beyond the end, else the string |
| `DnsRecordCodec.EncodeRr` | src/dns/rr.c:86-198 | a record is written field by field with its data length patched in; EOVERFLOW above 65535 bytes, EINVAL for a bad name or unknown type |
| `DnsRecordCodec.EncodeHead` | src/dns/rr.c:97-103 | owner name, type, class and reduced time to live |
| `DnsRecordCodec.EncodeTail` | src/dns/rr.c:103-198 | the data length field is overwritten with the number of bytes that followed it |
| `DnsRecordCodec.EncodeRdata` | src/dns/rr.c:107-186 | the switch over the record type writes the fields of that type in order |
| `DnsRecordCodec.PutTxt` | src/dns/rr.c:146-159 | the TXT loop writes one string for data of at most 255 bytes |
| `DnsRecordCodec.TxtEnds` | src/dns/rr.c:146-159 | that loop ends if and only if the data has at most 255 bytes |
| `DnsRecordCodec.DecodeRr` | src/dns/rr.c:210-390 | the record, the position behind it, or the error, as specified for any bytes |
| `DnsRecordCodec.DecodeRdata` | src/dns/rr.c:239-378 | each type's fields with its own length checks; unknown types are skipped by their data length |
| `DnsRecordCodec.DecodeSoa` | src/dns/rr.c:262-279 | two names and five numbers, EINVAL if the numbers are cut short |
| `DnsRecordCodec.DecodeNaptr` | src/dns/rr.c:350-373 | two numbers, three strings and a name, with the error of the part that fails |
| `DnsRecordCodec.DecodeTxt` | src/dns/rr.c:300-325 | the strings that fill the data length, joined; EINVAL if one exceeds it |
| `DnsRoundTrip.FieldRoundTrip` | src/dns/rr.c:86-390 | each kind of field decodes to itself and keeps the compression table right |
| `DnsRoundTrip.KindsAgree` | src/dns/rr.c:107-375 | the decoder reads the fields that the encoder wrote for the same type |
| `DnsRoundTrip.BuildSame` | src/dns/rr.c:402-546 | data built from the fields read compares equal to the data written |
| `DnsRoundTrip.RrRoundTrip` | src/dns/rr.c:86-390 | one record decodes to an equal record, with reduced time to live, ending where it ends |
| `DnsRoundTrip.RecordsRoundTrip` | src/dns/rr.c:86-390 | any sequence of records sharing one compression table decodes in order, consuming exactly the written bytes |
| `DnsRoundTrip.StoredSection` | src/dns/rr.c:86-390 | the same for a buffer into which the section was stored behind other bytes |
| `DnsRoundTrip.MessageRoundTrip` | src/dns/rr.c:86-390 | from scratch: behind any header, records written with an empty table are read back in order up to the end of the message |
| `DnsRoundTrip.UndottedSame` | src/dns/rr.c:402-546 | names without a final dot compare equal to the originals |
| `AsyncSafety.StepKeeps` | src/async/async.c:43-368 | every critical section of every thread keeps the pool invariant |
| `AsyncSafety.ListsInEveryRun` | src/async/async.c:43-164 | in every interleaving the three lists are disjoint and the current list is exactly what a thread holds or the queue carries, each once |
| `AsyncSafety.CallbackOnce` | src/async/async.c:43-164 | handler and callback run at most once; the callback behind the handler with its result, without a handler with the error its item held at submission, or as cancelled at destruction; once over, every uncancelled one with a callback was called |
| `AsyncSafety.CancelIsFinal` | src/async/async.c:321-368 | once the cancellation returns, no handler or callback of an earlier submission with that id starts in any continuation |
| `AsyncSafety.StaleError` | src/async/async.c:71-75 | for every error there is a run from the start in which a submission without a work handler is called back with it |
| `AsyncSafety.StaleOrigin` | src/async/async.c:71-75 | in every run such an error is zero or what the handler of an earlier submission returned on the same item |
| `AsyncSafety.QuietStays` | src/async/async.c:321-368 | a submission that can start nothing any more stays so through any step |
| `AsyncSafety.FlushKeeps` | src/async/async.c:86-122 | the destructor leaves every submission settled |
| `AsyncSafety.InitOk` | src/async/async.c:207-265 | the pool starts with one free item per worker and the invariant |
| `AsyncProgress.CancelFinishesIff` | src/async/async.c:328-367 | in every run a cancellation under way can be finished without the waiting threads exactly if none of them holds the mutex of an item with its id still to be visited |
| `AsyncProgress.CancelFromOutside` | src/async/async.c:328-367 | a cancellation by a thread outside the pool can always be finished |
| `AsyncProgress.CancelOwnId` | src/async/async.c:348-365 | a run in which a work handler that cancels its own id waits for ever |
| `AsyncProgress.BlockedStep` | src/async/async.c:348-365 | no step of another thread lets the cancellation pass an item whose mutex a waiting thread holds |
| `AsyncPool.Pool.Submit` | src/async/async.c:279-312 | the first free item, or a new one, goes to the end of the work list |
| `AsyncPool.Pool.Take` | src/async/async.c:49-67 | a worker leaves, waits, or moves the head of the work list to the current list |
| `AsyncPool.Pool.Begin` | src/async/async.c:70-72 | under the item mutex the handler starts if there still is one |
| `AsyncPool.Pool.Finish` | src/async/async.c:72-75 | the result is stored and the handler dropped |
| `AsyncPool.Pool.Push` | src/async/async.c:77-79 | the item's message goes to the queue |
| `AsyncPool.Pool.CallBegin` | src/async/async.c:154-156 | the callback, if there still is one, is called with the stored error |
| `AsyncPool.Pool.CallEnd` | src/async/async.c:156-159 | the callback is dropped |
| `AsyncPool.Pool.Release` | src/async/async.c:161-163 | the item moves from the current list to the free list |
| `AsyncPool.Pool.CancelBegin` | src/async/async.c:328-346 | the loop over the work list clears and frees exactly the matching items, in order |
| `AsyncPool.Pool.CancelVisit` | src/async/async.c:348-365 | a matching current item is cleared but stays on its list |
| `AsyncPool.Pool.CancelEnd` | src/async/async.c:367 | cancelling is over once every current item was visited |
| `AsyncPool.Pool.Stop` | src/async/async.c:92-95 | the destructor tells the workers to leave |
| `AsyncPool.Pool.Destroy` | src/async/async.c:101-122 | both loops call back exactly the submissions that still have a callback, each once, and empty the lists |
| `Bfcp.AttrRoundTrip` | src/bfcp/attr.c:58-417 | an attribute tree of at most 255 bytes per attribute comes back with its whole group, to any depth, ending where it ends |
| `Bfcp.AttrsRoundTrip` | src/bfcp/attr.c:152-417 | a list of attributes fills its window exactly and comes back in order |
| `Bfcp.LeafIff` | src/bfcp/attr.c:58-388 | a plain attribute survives if and only if it has at most 255 bytes |
| `Bfcp.GroupIff` | src/bfcp/attr.c:196-204 | a group survives if and only if its total is at most 255 bytes |
| `Bfcp.AttrsAligned` | src/bfcp/attr.c:135-137 | every encoded attribute fills whole words |
| `Bfcp.MsgRoundTripIff` | src/bfcp/msg.c:31-193 | a message comes back as it was, consuming header plus 4 times its length, if and only if its version is 1 or 2 and its attributes fit the 16-bit word count |
| `BfcpCodec.StoredMessage` | src/bfcp/msg.c:95-193 | a message encoded into a buffer decodes there exactly under the conditions of its round trip |
| `Bfcp.DecAttr` | src/bfcp/attr.c:232-388 | on arbitrary bytes the decoder moves forward and stays inside the window |
| `BfcpCodec.EncodeLeaf` | src/bfcp/attr.c:58-140 | content, then the header in front of it, then padding; the length cut to eight bits also moves the position back |
| `BfcpCodec.EncodeContent` | src/bfcp/attr.c:74-125 | the switch over the attribute type; EINVAL for an unknown one |
| `BfcpCodec.EncodePad` | src/bfcp/attr.c:135-137 | zeros up to the next word |
| `BfcpCodec.EncodeAttrs` | src/bfcp/attr.c:152-208 | a list with nested groups is written as specified, or EINVAL for an unknown type |
| `BfcpCodec.EncodeTotal` | src/bfcp/attr.c:196-204 | the total length of a group is patched in |
| `BfcpCodec.DecodeAttr` | src/bfcp/attr.c:232-388 | result, position, recorded unknown types and errors as specified; the window is restored |
| `BfcpCodec.DecodeAttrs` | src/bfcp/attr.c:391-417 | the narrowed window is closed again on success and on error |
| `BfcpCodec.DecodeBody` | src/bfcp/attr.c:265-369 | the switch over the attribute type with its length checks |
| `BfcpCodec.SkipPad` | src/bfcp/attr.c:374-376 | padding up to the next word but not past the window |
| `BfcpCodec.EncodeMsg` | src/bfcp/msg.c:95-120 | attributes first, then the header in front of them |
| `BfcpCodec.EncodeHdr` | src/bfcp/msg.c:31-45 | the twelve header bytes |
| `BfcpCodec.DecodeHdr` | src/bfcp/msg.c:48-77 | ENODATA, EBADMSG, ENOSYS in that order, else the fields |
| `BfcpCodec.DecodeMsg` | src/bfcp/msg.c:161-193 | a refused header leaves the position where it was |
| `BfcpClient.WaitTimes` | src/bfcp/request.c:18-21 | the timer behind the fourth sending runs out 7500 ms after the first |
| `BfcpClient.ReportedOnce` | src/bfcp/request.c:56-197 | handler calls are for the accepted requests in order, no request twice, none sent more than four times, only the head in flight |
| `BfcpClient.Client.Request` | src/bfcp/request.c:143-197 | sent once and timed at once if nothing is queued, queued unsent otherwise, with the timer as it was; neither starts nor ends a stall; refused requests are never reported; transaction ids run from 1 to 65535 |
| `BfcpClient.Client.SendFirstRequest` | src/bfcp/request.c:180-188 | the first request is sent once and its timer started, or it is refused and nothing is queued |
| `BfcpClient.Client.Enqueue` | src/bfcp/request.c:190 | a request behind another only joins the queue |
| `BfcpClient.Client.TimerFires` | src/bfcp/request.c:80-109 | retransmits once with the doubled timer, or reports the head with a timeout after the fourth sending or the error of the transport, queues exactly the requests of its handler, and goes on with the next one as Dispatch does; stalls exactly if Stalls holds |
| `BfcpClient.Client.Response` | src/bfcp/request.c:112-140 | only an answer to the request at the head is accepted; that one is reported once, without error and now, the requests of its handler are queued, and the next one goes out as Dispatch does; stalls exactly if Stalls holds |
| `BfcpClient.Client.Dispatch` | src/bfcp/request.c:54-77 | as many calls are added as sendings fail, the i-th for the i-th request of the queue with the error of its sending and now; the requests of the handlers join the queue in order; the request behind them is sent once and its timer runs; the client stalls exactly if Stalls holds |
| `BfcpClient.StallsIff` | src/bfcp/request.c:60-76 | a stall in closed form: every sending failed until one request was left, and the handler of that one made others that can be encoded |
| `BfcpClient.QuietNeverStalls` | src/bfcp/request.c:60-76 | handlers that make no requests never stall the client |
| `BfcpClient.StallingRun` | src/bfcp/request.c:60-76 | a concrete run after which a request is queued, unsent, and no timer runs |
| `BfcpClient.Client.Handler` | src/bfcp/request.c:143-197 | requests made inside a response handler join the queue behind the head, exactly those that can be encoded, in order, with the next transaction ids |
| `BfcpClient.Client.HandlerRequest` | src/bfcp/request.c:143-197 | one of them: queued with its ids, or refused with a transaction id used up; nothing is sent or reported |
| `BfcpClient.Client.Conclude` | src/bfcp/request.c:105-107 | the head is reported with the given error and now, the requests of its handler are queued, and the head leaves |
| `BfcpClient.Client.SendAgain` | src/bfcp/request.c:91-102 | a retransmission keeps the books, and the timer behind it is the doubled one |
| `BfcpClient.Client.NextTrans` | src/bfcp/request.c:157-163 | a transaction id is never zero, also after the 16-bit counter wraps |
| `BfcpClient.Client.Attempt` | src/bfcp/request.c:61-75 | one turn of dispatch: the head goes out once with its timer if the sending succeeds, otherwise it is reported with the error of the sending and leaves, and its handler's requests join the queue |
| `AnnexB.FindStartcode` | src/h264/nal.c:158-191 | for every buffer and alignment the three loops return the least position with 00 00 01 and a byte behind it, else the end |
| `AnnexB.ZeroTestExact` | src/h264/nal.c:168-169 | the word test holds exactly for words with a zero byte |
| `AnnexB.ScanWord` | src/h264/nal.c:167-183 | one step over an aligned word finds a start code that begins in the word, or there is none |
| `AnnexB.SkipZeros` | src/h264/nal.c:271-273 | the skipping loop ends right behind the start code |
| `AnnexB.StreamOfCut` | src/h264/nal.c:266-281 | the units with their start codes are the frame from its first code to its end |
| `H264.MaxNriIsMax` | src/h264/nal.c:342-349 | the header NRI is the maximum over all units |
| `H264.StapRoundTripIff` | src/h264/nal.c:307-398 | decoding the aggregated frame gives the frame from its first start code on, if and only if every unit has 1 to 65535 bytes |
| `H264.StapDecodes` | src/h264/nal.c:365-398 | the payload decodes to the stream of units, or EBADMSG if one is empty |
| `H264.StapEncode` | src/h264/nal.c:307-352 | the aggregation packet of the frame's units, ERANGE for a unit above 65535 bytes, EINVAL for no frame |
| `H264.StapDecode` | src/h264/nal.c:365-398 | the units are appended with three-byte start codes as specified |
| `H264Fragments.NalSend` | src/h264/nal.c:203-242 | one packet, or fragments with the start bit first and the end bit last, as specified for any flags |
| `H264Fragments.SentIff` | src/h264/nal.c:214-239 | the units that are ever finished: those that travel whole or whose fragment loop ends |
| `RtpPackets.FragmentsEndIff` | src/h264/nal.c:222-232 | the fragment loop ends exactly if a fragment has room for payload or there is none |
| `H264Fragments.FrameNoneEmptyIff` | src/h264/nal.c:266-281 | a frame has no empty unit exactly if no start code directly follows another |
| `H264Fragments.PayloadInsideIff` | src/h264/nal.c:277-279 | the computed payload length stays inside the frame exactly if the unit is not empty |
| `H264Fragments.EmptyUnit` | src/h264/nal.c:266-281 | a frame of seven bytes with an empty unit |
| `H264Fragments.NalRoundTrip` | src/h264/nal.c:203-242 | a receiver gets the unit byte for byte if and only if it travels whole or its forbidden bit is zero |
| `H264Fragments.AtLeastTwoIff` | src/h264/nal.c:214-239 | a unit that does not fit takes at least two fragments of at most the packet size, start bit only on the first, end bit and marker only on the last, exactly if the packet size is three or more; below, one fragment has both bits |
| `H264Fragments.PacketsFitIff` | src/h264/nal.c:203-242 | every packet of a unit keeps to the packet size exactly if the payload is shorter, or longer with room for fragments; a payload of just that size takes one byte more |
| `H264Fragments.FrameRoundTrip` | src/h264/nal.c:258-284 | a receiver of the packets of a frame gets all its units back in order |
| `H264Fragments.FrameMarked` | src/h264/nal.c:277-279 | the marker is on the last packet of the frame only |
| `H264Fragments.Packetize` | src/h264/nal.c:258-284 | for every packet size, the loop over a frame without empty or never finished units sends their packets |
| `H265.DecNal` | src/h265/nal.c:34-57 | refuses exactly a set forbidden bit or layer id, else type and temporal id |
| `H265.NalSend` | src/h265/nal.c:172-217 | one packet, fragments, or EBADMSG and nothing sent |
| `H265.FinishesIff` | src/h265/nal.c:181-213 | the units that are sent or refused: not shorter than their header, and with a fragment loop that ends |
| `H265.NalRoundTrip` | src/h265/nal.c:172-217 | whatever is sent arrives byte for byte; a unit is refused exactly when fragments could not carry its header |
| `H265.AtLeastTwoIff` | src/h265/nal.c:181-213 | at least two fragments of at most the packet size with start, end and marker bits in their places, exactly if the packet size is four or more; below, one fragment has both bits |
| `H265.PacketsFitIff` | src/h265/nal.c:172-217 | every packet of a unit keeps to the packet size exactly if it travels whole or there is room for fragments |
| `H265.FrameRoundTrip` | src/h265/nal.c:220-248 | a receiver gets exactly the units that were not refused, in order |
| `H265.FrameMarked` | src/h265/nal.c:240-242 | the marker is on the last packet only, unless the last unit is refused: then it is on none |
| `H265.Packetize` | src/h265/nal.c:220-248 | for every packet size, the loop over the frame sends its units and reports refused ones |
| `Av1.LebRoundTripIff` | src/av1/obu.c:46-102 | numbers survive if and only if they are below 2^56 |
| `Av1.ObuDecodes` | src/av1/obu.c:116-209 | an OBU with a size field is found again with its payload |
| `Av1.CopyList` | src/av1/pkt.c:53-131 | counting and copying a unit see exactly its OBUs, but for an allowed last one of a single byte |
| `Av1.OpenDecodes` | src/av1/obu.c:204-206 | an OBU without a size field takes what is left |
| `Av1.WireParses` | src/av1/pkt.c:53-131 | under the W rule the copied elements are the allowed OBUs in order |
| `Av1.WireMisparses` | src/av1/pkt.c:75-98 | a skipped OBU at the end of up to three allowed ones breaks the W rule |
| `Av1.PacketsOk` | src/av1/pkt.c:134-173 | payloads joined are the input; packets fit; Z repeats the Y before; N only on the first, marker only on the last |
| `Av1.UnitRoundTripIff` | src/av1/pkt.c:53-229 | joined payloads parse to exactly the allowed OBUs if and only if the last OBU is allowed and not a single byte, or is not allowed and more than three or none are |
| `Av1.UnitWIff` | src/av1/pkt.c:149-170 | for one to three allowed OBUs, the W of every packet is the number of elements in it if and only if there is one packet, one element, or two of which the second begins in the first packet |
| `Av1.PartsWIff` | src/av1/pkt.c:162-164 | the same for any sizes of the elements |
| `Av1Codec.EncodeLeb` | src/av1/obu.c:46-65 | the loop writes the number seven bits at a time |
| `Av1Codec.DecodeLeb` | src/av1/obu.c:77-102 | the loop of at most eight bytes, EBADMSG if they run out |
| `Av1Codec.DecodeObu` | src/av1/obu.c:148-209 | header checks in order, size field or the rest of the buffer |
| `Av1Codec.CountObus` | src/av1/obu.c:269-297 | number of allowed OBUs, zero for undecodable input |
| `Av1Codec.CopyObus` | src/av1/pkt.c:53-131 | the elements of the allowed OBUs, or the decoder's error |
| `Av1Codec.Fragment` | src/av1/pkt.c:134-173 | the loop sends the specified packets |
| `Av1Codec.Packetize` | src/av1/pkt.c:190-229 | EINVAL for an empty input or too small packets; otherwise the packets of the unit, and the new-sequence flag is used up |
| `HttpReceiver.FeedIsRun` | src/http/client.c:258-321 | however a stream is cut into segments, the receiver that takes pieces ends as the byte automaton, or with EOVERFLOW exactly if the body exceeds the limit |
| `HttpReceiver.CutsDoNotMatter` | src/http/client.c:282-321 | two ways of cutting the same stream end the same, and within the limit in the same state with the same body |
| `HttpReceiver.BodyReceived` | src/http/client.c:282-321 | a well-formed body, however cut, is delivered whole and ends, or is refused as too long |
| `HttpChunk.ChunksDelivered` | src/http/chunk.c:13-111 | a list of non-empty chunks, with extensions and trailer lines, delivers their concatenation and ends exactly with the last byte of the trailer |
| `HttpChunk.RunChunk` | src/http/chunk.c:13-56 | a size line with hexadecimal digits and extension, the data and a line end deliver the data |
| `HttpChunk.RunLines` | src/http/chunk.c:59-74 | trailer lines leave the receiver waiting for the final line feed |
| `HttpReceiver.BulkIsRun` | src/http/client.c:258-321 | taking body bytes in pieces equals taking them one by one as long as the body limit holds, and fails with EOVERFLOW exactly beyond it |
| `HttpReceiver.LimitKeeps` | src/http/client.c:248-255 | beyond the limit every cut keeps a prefix of the body, at least up to the chunk that crosses the limit and at most up to the limit; both bounds are met |
| `HttpReceiver.CutsMatterIff` | src/http/client.c:248-255 | two cuts keep different bodies if and only if the body exceeds the limit and the crossing chunk begins before it |
| `HttpReceiver.LimitDependsOnCuts` | src/http/client.c:248-255 | a stream received from the start for which they do |
| `HttpReceiver.Receiver.Recv` | src/http/client.c:282-321 | state, error and last flag after a buffer are those of the automaton |
| `HttpReceiver.Receiver.WriteBody` | src/http/client.c:248-279 | as much as is there and expected is taken at once, or refused as a whole |
| `HttpReceiver.Receiver.ChunkDecode` | src/http/chunk.c:77-111 | size of the next chunk, zero once the trailer is complete, ENODATA or EPROTO |
| `HttpReceiver.Receiver.DecodeSize` | src/http/chunk.c:13-56 | the loop over a size line |
| `HttpReceiver.Receiver.DecodeTrailer` | src/http/chunk.c:59-74 | the loop over the trailer |
| `IcePairs.AddSorted` | src/ice/candpair.c:64-79 | insertion from the tail keeps the list sorted by descending priority |
| `IcePairs.Sort` | src/list/list.c:284-314 | the repeated passes end, sort the list and keep its elements |
| `IcePairs.FindState` | src/ice/candpair.c:324-344 | the match of highest priority, or none exists |
| `IcePairs.FindComp` | src/ice/candpair.c:347-363 | finds a pair of the component exactly when there is one |
| `IcePairs.FindCands` | src/ice/candpair.c:296-321 | a pair of both candidates, or none on the list has them |
| `IcePairs.IsCompleted` | src/ice/chklist.c:191-204 | whether every pair is failed or succeeded |
| `IcePairs.OpenShrinks` | src/ice/connchk.c:336-351 | failing an open pair leaves fewer open: the measure of the pacing recursion |
| `Ice.Icem.Alloc` | src/ice/candpair.c:82-114 | a frozen pair joins the check list, which stays sorted |
| `Ice.Icem.Clone` | src/ice/candpair.c:117-147 | another pair with the same state and priority joins the check list |
| `Ice.Icem.SetState` | src/ice/candpair.c:208-224 | the state of an open pair changes to the one given, that of a completed pair stays, and nothing else changes |
| `Ice.Icem.MarkFailed` | src/ice/candpair.c:195-205 | not valid any more, and failed unless already completed |
| `Ice.Icem.MakeValid` | src/ice/candpair.c:179-192 | moves to the valid list; both lists stay sorted and disjoint |
| `Ice.Icem.PrioOrder` | src/ice/candpair.c:155-166 | new priorities for the check list only, which is sorted again |
| `Ice.Icem.Form` | src/ice/chklist.c:27-68 | every pair of candidates of the same component and family is on one of the lists afterwards; every new pair is made of two such candidates, frozen, and no two have the same ones; ENOENT without candidates, or with such a pair that is on no list and has no component |
| `Ice.Icem.Prune` | src/ice/chklist.c:72-113 | no two pairs left have the same component, local base and remote address; every one removed has one as good left that is higher up the list; the order is kept |
| `Ice.Icem.PruneOne` | src/ice/util.c:109-145 | later duplicates of a pair go, or the pair itself if a later one is better; the order of the others is kept |
| `Ice.Icem.ChecklistForm` | src/ice/chklist.c:165-185 | pairs are formed, ordered and pruned: each new pair is frozen and made of two candidates of the same component and family, none twice; priorities are the given ones and the list is sorted by them; every fitting pair is represented, none twice; ENOENT without candidates or without a component |
| `Ice.Icem.Ensure` | src/ice/chklist.c:55-63 | a pair that is on a list already is not allocated again; a new one has exactly these candidates and their component and is frozen; ENOENT exactly if it is not listed and has no component |
| `Ice.Icem.ConnCheckSend` | src/ice/connchk.c:206-319 | in progress unless completed or without remote credentials; no other pair changes |
| `Ice.Icem.Abort` | src/ice/connchk.c:322-333 | failed, reported once, handler dropped |
| `Ice.Icem.PaceNext` | src/ice/connchk.c:24-35 | terminates; reports at most once and only when the list stops running, failed exactly when a component has no valid pair or checks were aborted; otherwise some pair is open |
| `Ice.Icem.PaceTimeout` | src/ice/connchk.c:395-400 | a timer call is a pacing step of an episode: the best waiting pair is tried, or else the best frozen one, and a list that goes on running has an open pair |
| `Ice.Icem.ScheduleCheck` | src/ice/connchk.c:359-392 | the highest-priority waiting pair is checked, else the highest-priority frozen one |
| `Ice.Icem.DoCheck` | src/ice/connchk.c:336-351 | a check that cannot be sent fails its pair and pacing goes on with fewer open pairs |
| `Ice.Icem.Conclude` | src/ice/chklist.c:208-238 | selects the highest-priority succeeded pair of the component, if there is one |
| `Ice.Icem.ChecklistUpdate` | src/ice/chklist.c:246-288 | nothing while a pair is open; then completed or failed, and one report |
| `Ice.Icem.ConstructValid` | src/ice/connchk.c:43-105 | the pair for the discovered candidates is on the valid list; it is the pair of the check, one that is valid already, or a clone of it with its component and priority; no other pair changes, and nothing happens if a candidate is not known |
| `Ice.Icem.HandleSuccess` | src/ice/connchk.c:108-141 | the valid pair is nominated and selected for its component; without one nothing happens |
| `Ice.Icem.Response` | src/ice/connchk.c:155-203 | an error, an error code other than 487 or a missing mapped address fails the pair unless it succeeded before, a success makes it valid unless it failed before, 487 and nothing else switches the role; then pacing goes on with at most one report |
| `Ice.Icem.Triggered` | src/ice/stunsrv.c:28-71 | an open pair is checked now, a failed one is tried again but stays failed, others are left alone, and no other pair changes |
| `Ice.Icem.Stop` | src/ice/connchk.c:468-486 | all open pairs fail; the outcome reported is that of the valid list, whatever the error given |
| `Ice.StopReportsOk` | src/ice/connchk.c:468-486 | a run in which stopping with an error reports success |
| `Ice.StopTwice` | src/ice/connchk.c:468-486 | a run in which stopping twice reports twice |
| `Ice.EpisodeReports` | src/ice/connchk.c:24-486 | in a whole episode of pacing, responses, stops and other events the handler is not called while the list runs, once by the event that ends it, and once more by every later stop |
| `Ice.EpisodeOnce` | src/ice/connchk.c:24-486 | without a stop behind the end it is called at most once |
| `AudioBuffer.InsertSorted` | src/list/list.c:223-244 | inserted from the tail behind every frame that is not later; order and elements are kept |
| `AudioBuffer.Buffer.Append` | rem/aubuf/aubuf.c:240-288 | the size counter equals the bytes queued, every byte is accounted for and the order is kept; an overrun drops the first frame of the list, and the size is within the maximum afterwards exactly if that frame makes up for the excess |
| `AudioBuffer.Buffer.ReadFrames` | rem/aubuf/aubuf.c:69-112 | gives out the front of the stream, leaves the rest, counts both |
| `AudioBuffer.Buffer.DropOld` | rem/aubuf/aubuf.c:394-401 | the startup loop keeps exactly the frames of Kept and counts the others as dropped |
| `AudioBuffer.KeptIs` | rem/aubuf/aubuf.c:394-401 | those are a suffix within the wished size, and one frame more would exceed it |
| `AudioBuffer.Buffer.Read` | rem/aubuf/aubuf.c:344-423 | the whole output, the bytes taken, dropped and left, all fixed by the state before: silence while filling, else the next bytes of the stream and what stands behind them |
| `AudioBuffer.UnwrittenIff` | rem/aubuf/aubuf.c:360-411 | the output depends on what it held before if and only if the latency is low, or the buffer is not filling and the startup drop leaves less than was asked for although there was enough |
| `AudioBuffer.UnwrittenRun` | rem/aubuf/aubuf.c:360-411 | a run from an empty buffer: four bytes are delivered and six are as they were |
| `AudioBuffer.Buffer.Flush` | rem/aubuf/aubuf.c:476-491 | empties the queue and the counters and starts filling again |
| `Fir.Filter.Process` | rem/fir/fir.c:39-67 | the output is the clamped convolution over all samples since the reset, in place or not, however the input is split into calls; other ring sizes change nothing |
| `Fir.Filter.Step` | rem/fir/fir.c:50-66 | one sample in and one out, across the wrap of the 32-bit index |
| `Fir.Filter.Accumulate` | rem/fir/fir.c:57-58 | the tap loop over the ring is the convolution sum |
| `Fir.MaskWraps` | rem/fir/fir.c:55-58 | masking a wrapped index is masking the unwrapped one |
| `Fir.ConvPast` | rem/fir/fir.c:39-67 | later samples do not change earlier outputs |
| `Fir.MaskTest` | rem/fir/fir.c:47-48 | a mask has no bit in common with its successor exactly if that is a power of two |
| `Fir.Accepts` | rem/fir/fir.c:42-48 | the guard accepts exactly the ring sizes |
| `VideoLayout.CalcRows` | rem/vidmix/vidmix.c:168-175 | the smallest square grid with a cell for every source |
| `VideoLayout.Mix` | rem/vidmix/vidmix.c:210-247 | the two loops count the visible sources and place each by its slot number |
| `VideoLayout.MixInside` | rem/vidmix/vidmix.c:90-139 | every rectangle lies inside the frame |
| `VideoLayout.MixDisjoint` | rem/vidmix/vidmix.c:90-139 | rectangles of distinct sources share no pixel, in the grid and in the focus layout |
| `VideoLayout.EverySourceShown` | rem/vidmix/vidmix.c:100-139 | without focus, or with the focused source visible, every visible source has a rectangle |
| `VideoLayout.ShownIff` | rem/vidmix/vidmix.c:90-139 | a source has a rectangle if and only if it is not hidden as own view or content, is not itself in full focus, and there is no focus, or the focused source is shown, or the source is not the last, or the number of visible sources is odd or below the minimum |
| `VideoLayout.HiddenFocus` | rem/vidmix/vidmix.c:102-126 | six visible sources and the focus on a hidden one: the sixth is not shown |
| `DnsRecordCodec.EncodeSoa` | src/dns/rr.c:123-133 | two compressed names and five numbers |
| `DnsRecordCodec.EncodeSrv` | src/dns/rr.c:165-171 | three numbers and an uncompressed target |
| `DnsRecordCodec.EncodeNaptr` | src/dns/rr.c:173-181 | two numbers, three strings and an uncompressed name |
| `DnsRecordCodec.DecodeMx` | src/dns/rr.c:288-298 | a number and a name, EINVAL if the number is cut short |
| `DnsRecordCodec.DecodeSrv` | src/dns/rr.c:336-348 | three numbers and a name, EINVAL if the numbers are cut short |
| `DnsRecordCodec.DecodeOneName` | src/dns/rr.c:248-286 | records whose data is one name |
| `DnsRecordCodec.DecodeFlat` | src/dns/rr.c:241-246 | addresses need the data length 4 or 16; text takes all of it |
| `AsyncPool.Pool.Pop` | src/async/async.c:148-152 | the main loop takes the oldest message |
| `AsyncPool.Pool.Notify` | src/async/async.c:103-118 | one of the two destructor loops: the submissions with a callback are called, each once |
| `AsyncPool.Pool.constructor` | src/async/async.c:207-265 | the initial pool satisfies the invariant |
| `BfcpCodec.EncodeOne` | src/bfcp/attr.c:156-205 | one attribute and the group below it |
| `BfcpCodec.EncodeBytes` | src/bfcp/attr.c:112-120 | the loops over supported attributes and primitives |
| `BfcpCodec.DecodeFixed` | src/bfcp/attr.c:267-290 | values of two bytes, EBADMSG if shorter |
| `BfcpCodec.DecodeVar` | src/bfcp/attr.c:292-344 | values that take all of their content |
| `BfcpCodec.DecodeHalved` | src/bfcp/attr.c:320-331 | the loop that halves the listed attribute types |
| `BfcpClient.Client.Send` | src/bfcp/request.c:65 | one more sending of the head, counted and timed |
| `BfcpClient.Client.Finish` | src/bfcp/request.c:105-109 | the head is reported exactly once with the given error, its handler's requests are queued, then the next request goes out |
| `BfcpClient.SendKeeps` | src/bfcp/request.c:56-109 | sending the head again keeps the books |
| `BfcpClient.PopKeeps` | src/bfcp/request.c:56-140 | reporting the head keeps the order of requests and calls |
| `Av1Codec.WriteElement` | src/av1/pkt.c:81-113 | an element with its length in front unless it may go without |
| `Av1.HdrFields` | src/av1/pkt.c:25-29 | the aggregation header gives its four fields back, and its reserved bits are zero |
| `IcePairs.Pass` | src/list/list.c:292-309 | one pass settles one more element or finds the list sorted |
| `IcePairs.InsertSorted` | src/ice/candpair.c:64-79 | behind everything of higher priority and before the rest, a list stays sorted |
| `Ice.Icem.FormOne` | src/ice/chklist.c:45-64 | one local candidate is paired with every fitting remote one; what is new is made of them, frozen and not there twice |
| `Ice.Icem.Evaluate` | src/ice/connchk.c:171-199 | the pair fails with the error of the transaction, or EBADMSG without a mapped address, becomes valid, is checked again in the other role, or stays as it is, as the response says |
| `Ice.Icem.Start` | src/ice/connchk.c:424-452 | waits, or fails without candidates or a component and does not run, or runs on a sorted list of frozen new pairs made of the candidates that represents every fitting pair exactly once |
| `AudioBuffer.Buffer.constructor` | rem/aubuf/aubuf.c:124-152 | an empty live buffer that has to fill first |
| `AudioBuffer.Buffer.DropHead` | rem/aubuf/aubuf.c:279-283 | the oldest frame goes and its bytes count as dropped |
| `AudioBuffer.Buffer.TakeHead` | rem/aubuf/aubuf.c:84-103 | bytes of the first frame move to the reader; an empty frame leaves the list |
| `AudioBuffer.Buffer.DropAtStart` | rem/aubuf/aubuf.c:393-403 | only the first read of a live buffer with a wished size drops, and exactly what Kept does not keep |
| `AudioBuffer.Buffer.Deliver` | rem/aubuf/aubuf.c:393-411 | the next piece of what the startup drop keeps lies over the output; high latency reads twice, and the second reading overwrites the first as far as it goes |
| `AudioBuffer.FillingEndsIff` | rem/aubuf/aubuf.c:415-420 | reads alone end the filling exactly if less than a packet is missing, after as many reads as cover it |
| `Fir.Filter.constructor` | rem/fir/fir.c:17-23 | after a reset the history is silent for every ring size |
| `VideoLayout.GridDisjoint` | rem/vidmix/vidmix.c:134-139 | cells of the grid share no pixel |
| `VideoLayout.SideSide` | rem/vidmix/vidmix.c:113-123 | slots along the right side and the bottom share no pixel |
| `VideoLayout.FocusSide` | rem/vidmix/vidmix.c:106-123 | the focused rectangle shares no pixel with a slot |
| `VideoLayout.BigPart` | rem/vidmix/vidmix.c:107-114 | the focused part and one slot together fit the frame |
| `HttpChunk.RunSize` | src/http/chunk.c:13-56 | a size line sets the number of bytes to come, whatever its extension |
| `HttpChunk.RunBody` | src/http/chunk.c:13-111 | all of a stream but its last byte delivers the data and is not over |
| `DnsCompression.FoundSpells` | src/dns/dname.c:66-71 | a name found in the table is spelled where the table says |
| `DnsCompression.Misread` | src/dns/dname.c:162-222 | labels that are not well-formed are read back with a wrong end or a wrong length |
| `DnsSharing.CaseEqIff` | src/dns/dname.c:58-63 | names are the same exactly if they agree letter by letter up to case |
| `DnsSharing.Remembered` | src/dns/dname.c:102-108 | a name that is written is found from then on, in any case, where it was first |
| `DnsSharing.SharedName` | src/dns/dname.c:102-136 | written again in any case, a name is a two-byte pointer to where it was first; written below another label it is that label and the pointer |
| `DnsSharing.Uncompressed` | src/dns/dname.c:102-147 | without compression a name is its labels, each behind its length, whatever was written before |
| `DnsWire.NameReadIff` | src/dns/dname.c:162-222 | for any bytes: a name is read, and read as this text with this end, if and only if the bytes spell it by labels and at most 256 pointers, within 255 characters |
| `DnsWire.WalkPath` | src/dns/dname.c:171-222 | the decoder loop follows every such path to its text and returns behind the first pointer |
| `DnsWire.PathOf` | src/dns/dname.c:171-222 | whatever the loop finds is on such a path |
| `DnsWire.StrReadIff` | src/dns/cstr.c:48-61 | a string is read if and only if a length byte and that many bytes are there |
| `DnsWire.StringsRead` | src/dns/rr.c:300-325 | text data of any number of strings is read as their concatenation, up to its end |
| `DnsWire.StringTooLong` | src/dns/rr.c:313-314 | strings behind which a length byte goes beyond the data are refused with EINVAL |
| `DnsWire.StringsOf` | src/dns/rr.c:307-322 | every text data is one of the two |
| `DnsWire.TxtReadIff` | src/dns/rr.c:300-325 | text is read, and read as this, if and only if the data are strings that make it up |
| `DnsRoundTrip.EncodeErrors` | src/dns/rr.c:86-198 | a record is refused with EOVERFLOW exactly for more than 65535 bytes of data, otherwise with EINVAL exactly for an unknown type or a bad name; the length field is the number of bytes behind it |
| `DnsRoundTrip.CompressedIff` | src/dns/rr.c:107-186 | the names in the data of NS, CNAME, SOA, PTR and MX records are compressed, those of SRV and NAPTR are not |
| `DnsWire.TextRead` | src/dns/rr.c:300-325 | a TXT record of any list of strings without zero bytes is decoded to their concatenation and ends behind the last; a length byte beyond the data gives EINVAL |
| `DnsWire.FieldReadIff` | src/dns/rr.c:210-390 | each kind of field is read, with this value and end, if and only if the bytes are that field |
| `DnsWire.DataReadIff` | src/dns/rr.c:239-378 | the data of each record type is read if and only if the bytes are the fields of that type, in order; data of unknown types is skipped |
| `DnsWire.RecordReadIff` | src/dns/rr.c:210-390 | for any bytes: a record is read, with these values and this end, if and only if name, type, class, time to live, length and data stand there |
| `DnsWire.RecordRefused` | src/dns/rr.c:210-390 | whatever is not a record is refused with EINVAL, or EBADMSG for a NAPTR string beyond the end |
| `BfcpWire.AttributeRead` | src/bfcp/attr.c:232-388 | an attribute of any type, with any content and group, is read as what it carries, up to its end; an unknown type is skipped with its content |
| `BfcpWire.AttributesRead` | src/bfcp/attr.c:391-417 | a list with known and unknown types mixed and grouped at will is read in order to the end of its window; recorded are the first sixteen mandatory unknown types, doubled and in order |
| `BfcpWire.RefusedIff` | src/bfcp/attr.c:239-263 | for any bytes: an attribute is refused, with EBADMSG, if and only if its length is too small for its header or type or too large for the window, or its group is refused |
| `BfcpWire.RefusedOnce` | src/bfcp/attr.c:403-412 | a list is refused if and only if one of its attributes is |
| `BfcpWire.AttributeIs` | src/bfcp/attr.c:232-388 | for any bytes: what an accepted attribute carries, and where reading goes on; values of two bytes are followed by the next attribute even if their content is longer |
| `BfcpWire.ListEnds` | src/bfcp/attr.c:403 | reading a list goes on until less than a header is left |
| `BfcpWire.AttributesSent` | src/bfcp/attr.c:58-208 | what the encoder sends: each attribute in its layout and in order, the bits without a meaning zero and nothing behind a string |
| `AsyncOrder.OldestTaken` | src/async/async.c:49-67 | in every run the submissions on the work list are in the order they were made, and a worker takes one that was made before all that stay |
| `AsyncOrder.TakenInOrder` | src/async/async.c:49-67 | of two takings in a run, by any workers, the later takes the later submission |
| `AsyncOrder.MessagesInOrder` | src/async/async.c:77-152 | in every run the messages that the main loop has taken are the first of those the workers have put in, in that order, and the others are queued |
| `Av1Wire.LebReadIff` | src/av1/obu.c:77-102 | for any bytes: a number is read if and only if they are one of at most eight bytes, seven bits each, the lowest first |
| `Av1Wire.ObuReadIff` | src/av1/obu.c:148-209 | for any bytes: an OBU is decoded if and only if they are its header byte and, with a size field, that many bytes, else the rest |
| `Av1Wire.ObuRefused` | src/av1/obu.c:157-206 | an extension is refused with ENOTSUP, everything else that is not an OBU with EBADMSG |
| `Av1Wire.NotAllowed` | src/av1/obu.c:19-34 | the types left behind are temporal delimiters and all from eight on |
| `Av1Wire.ElementIff` | src/av1/pkt.c:81-113 | an element is the one written for a type and payload if and only if it decodes to them |
| `Av1Wire.UnitArrivesIff` | src/av1/pkt.c:53-229 | a receiver of the packets decodes the allowed OBUs, types and payloads in order, if and only if the condition of UnitRoundTripIff holds |
| `BfcpClient.TidIs` | src/bfcp/request.c:157-163 | the ids run from the counter up to 65535 and go on at 1 |
| `BfcpClient.RequestedAt` | src/bfcp/request.c:143-197 | each request of a handler that can be encoded is queued at its place with its own number and ids, the others are not |
| `BfcpClient.UsedIs` | src/bfcp/request.c:60-76 | the number of sendings that fail: each of them on a queue that was not empty, and the next does not happen or succeeds |
| `HttpChunk.HexIff` | src/http/chunk.c:32-37 | a digit is read as its value, in both cases, and nothing else is read as one |
| `HttpChunk.SizeIs` | src/http/chunk.c:46-49 | the size is the number of the hexadecimal numeral modulo 2^64 |
| `HttpChunk.SizeLine` | src/http/chunk.c:13-54 | every size line: blanks are skipped even between digits, an extension is ignored, and the line is refused with EPROTO exactly if digits and blanks are followed by anything but a semicolon behind a digit |
| `AudioBuffer.OutputAt` | rem/aubuf/aubuf.c:344-411 | the output of a read byte by byte: the next bytes of the stream, with a high latency the ones behind them as far as they go, silence while filling or behind too short a stream, and otherwise what was there |
| `Fir.ImpulseResponse` | rem/fir/fir.c:57-58 | a single sample among silence comes out as the taps, one after the other, in its own channel only |
| `Fir.Superposition` | rem/fir/fir.c:57-58 | the response to a sum of inputs is the sum of the responses; with the impulse response this fixes the convolution |
| `Fir.Scaled` | rem/fir/fir.c:60-65 | saturated at 30 bits, and divided by 2^15 rounding down |
| `VideoLayout.GridCovers` | rem/vidmix/vidmix.c:134-139 | cells are as large as the rows of them fit, and every pixel of the grid belongs to exactly the cell of its row and column |
| `VideoLayout.FocusSize` | rem/vidmix/vidmix.c:106-111 | the focused part is all but one of k parts of the frame in each direction, less than a pixel short |
| `VideoLayout.SideCovers` | rem/vidmix/vidmix.c:113-119 | every pixel of the right edge belongs to exactly the slot at its height, from the top |
| `VideoLayout.BottomCovers` | rem/vidmix/vidmix.c:120-123 | every pixel of the bottom edge belongs to exactly the slot at its distance, from the right |

## Left out

- DnsRecordCodec.EncodeRr: TXT data above 255 bytes is excluded, because the source does not return for it.
- BfcpClient.Client.TimerFires: the transport's own errors are taken to differ from a timeout.
- BfcpClient.Client.Request: message encoding is the subject of `BfcpCodec`; here only its result counts.
- BfcpCodec.EncodeAttrs: encode handlers and absent values in the argument list are not modelled.
- Ice.Icem.Response: a pair that is not found on either list is not modelled.
- Ice.Icem.ChecklistForm: priorities, bases and addresses are given functions.
- H264Fragments.Packetize: frames with an empty unit are excluded, because the source leaves the frame there, and so are units that it never finishes.
- H265.Packetize: units that `H265.FinishesIff` tells to be cut short or never finished are excluded.
- Fir.Filter.Process: the product of channels and taps is taken without 32-bit wrap-around.
- VideoLayout.Mix: products of frame sizes are taken without 32-bit wrap-around; drawing and aspect ratio are not modelled.
- AudioBuffer.Buffer.Read: the adaptive jitter estimate is an input.
- Allocation failure and the internals of mutexes, condition variables, timers, sockets and the message queue are not modelled; the queue is a FIFO.
- AsyncPool.Pool.Stop: destroying the pool from inside a callback, and handlers that call back into it then, are not modelled.
- Printing, the names of types and states, key frame tests, the H.264 FU header helpers and OBU counting for statistics are not part of this model.
- DNS queries, hash chains and the other users of the codecs are not part of this model; the hash table is the list of its entries.
- Digest authentication, regular expressions, configuration, SIP, RTP and the other parts of the library are not part of this model.
