# httpbridge in Dafny

httpbridge puts a C++ program behind a Go HTTP server. One socket joins them; it carries length-prefixed FlatBuffers
frames, many streams at a time. This project models the hand-written code at both ends of that socket, and proves what
it is for. `dafny verify dfyconfig.toml` checks the whole project.

Each module models one part of the code, in the form the code has: where it updates an object, a buffer or a map, there
is a class whose methods do the same updates in the same order, proved against a specification on values; the
properties are then lemmas about that specification, over every input, every run, or every way of chopping a stream.

| core | modules |
|---|---|
| bytes, little-endian integers, C strings | `Bytes` |
| FlatBuffer writer and reader for `TxFrame` | `FlatBuffers`, `FlatBufferTables`, `TxFrames`, `FrameSizes`, `FrameAlignments`, `VectorsDownward`, `FlatBufferBuilders` |
| frames on the socket, and reassembly at either end | `Framing`, `GoReassembly`, `Buffers`, `CppReassembly`, `Transports` |
| backpressure on a response stream of the Go server | `PauseResume` |
| requests, buffered bodies and responses in the C++ client | `ResponseRuns`, `Lifecycle`, `LifecycleSafety`, `BufferedBodies`, `StreamResponses`, `Backends` |
| a response from Send to the HTTP client | `SentResponses`, `ResponseDeliveries` |
| URI decoding and the packed query list | `Uris`, `PackedUris`, `UriRequests` |
| header blocks and the header cache | `HeaderBlocks`, `HeaderCaches`, `HeaderBuilders`, `NthMatches`, `HeaderLookups`, `Requests` |
| decimal text, HTTP header text and the header states of the HTTP/1.1 machine | `Decimals`, `HttpChars`, `HttpTexts`, `HttpParsers`, `HttpSections`, `HttpRoundTrips` |

Conventions. A byte is an integer below 256. A pointer into a buffer is a position; reading a C string goes one byte
past its text and no further. A FlatBuffer offset is a distance from the end of the buffer. Transport is an arbitrary
chopping of a byte stream. Shared pointers to requests are places in a list of all requests received. Allocation
succeeds. `char` is signed. `hide` statements only keep definitions out of the solver's sight.

## Where the code does less than it says

The model follows the code. In each of these cases a lemma gives the exact condition under which the documented
behaviour holds:

- `U32toa` and `U64toa` are documented to return the length of the text (cpp/http-bridge.cpp:255, 282), but return half of
  it, rounded up: right only up to one digit (`Decimals.ReturnValueIsLength`). `Buffer::WriteUInt64` relies on it and is
  right only below ten (`Decimals.WriteUInt64IsExact`).
- `AddHeader_ContentLength(n)` after another Content-Length header changes nothing: the first one wins. Without one, the
  length is read back through signed 64 bits, which is defined if and only if n is below 2^63 or -1, and the response
  then owes exactly n bytes (`HttpTexts.AnnouncedLengthIsOwed`).
- `HeaderByName` on a request compares only as many characters as the name has. It is a lookup by name exactly when no
  header's key properly extends the name (`HeaderLookups.LookupIsByName`; "Host" finds "Hostile":
  `HeaderLookups.LookupFindsLongerName`). A lookup of the first header only is by name exactly when every header with a
  longer name has one with this name before it (`HeaderLookups.FirstLookupIsByName`).
- The body length of a request comes from such a lookup: from its first Content-Length header if and only if every
  header whose name is longer has one before it, and otherwise from a header with a longer name
  (`Requests.LengthIsByName`; "Content-Length-Hint" in front of "Content-Length": `Requests.LongerNameSetsLength`).
- `HeaderAt` reports a value two bytes longer than it is (`HeaderLookups.RequestHeaders.HeaderAt`).
- `TotalHeaderBlockSize` looks a stored line up before the frame's own lines are stored. It is exact, and large enough,
  after everything that may have been sent before, if and only if the frame retrieves no id that it stores before and
  no literal line has a value without a key (`HeaderCaches.SizeIsExactOverRuns`); otherwise the block can be too small
  (`HeaderCaches.RetrieveInSameFrame`).
- `ResendWhenBodyIsDone` on a request that has a buffer already leaves the old one counted for good. The total is exact
  in the end, and zero once all requests are gone, if and only if that never happened to a buffer with an allocation
  (`LifecycleSafety.AccountingConserved`; a run that ends with no request and a total of 16:
  `LifecycleSafety.BufferingTwice`).
- A header frame that is not final and has no Content-Length makes `Recv` panic, and `ResendWhenBodyIsDone` panics on
  all but the first frame of a request with a positive length; nothing else does (`BufferedBodies.PanicsExactly`).
- The Content-Length check on a body frame looks at earlier bytes only (`BufferedBodies.OverrunIsCaughtLate`).
- The 1 MiB limit on `RecvBuf` closes the connection for some chopping exactly when some frame, with its 8 header bytes,
  is larger than that, although frames of up to 100 MiB are accepted by the next check (`CppReassembly.LimitIsExact`).
- The Go reader never takes a frame of size zero: enough nonempty reads deliver all frames if and only if none is empty
  (`GoReassembly.AllArriveIff`), and an empty one and all behind it are never delivered (`GoReassembly.NeverPastEmpty`).
- A body frame that is refused registers its stream anew before it is answered: the server then has a second Header
  frame if and only if the stream's response had begun (`StreamResponses.RefusalAnswersAgain`; such a run:
  `StreamResponses.TwoHeaders`). Response safety is therefore stated from one registration to the next
  (`StreamResponses.StreamResponseSafety`).

## Model

| member | source | states |
|---|---|---|
| FlatBuffers.PaddingBits | cpp/flatbuffers/include/flatbuffers/flatbuffers.h:576-578 | the bit trick yields fewer bytes than the alignment, and adding them aligns, on 64-bit words |
| FlatBuffers.PaddingAligns | cpp/flatbuffers/include/flatbuffers/flatbuffers.h:576-578 | padding aligns any size, and pads nothing that is aligned |
| FlatBuffers.ReadLeStable | cpp/flatbuffers/include/flatbuffers/flatbuffers.h:539 | what can be read at a distance from the end stays readable, and the same, in any buffer grown at the front |
| FlatBuffers.GetFieldStable | cpp/flatbuffers/include/flatbuffers/flatbuffers.h:1466-1469 | a field reads the same after the buffer has grown |
| FlatBuffers.GetPointerStable | cpp/flatbuffers/include/flatbuffers/flatbuffers.h:1471-1477 | a pointer keeps its distance from the end, and null stays null |
| FlatBuffers.MissingFieldReads | cpp/flatbuffers/include/flatbuffers/flatbuffers.h:1455-1477 | a field behind the end of the vtable reads as the default, or the null pointer |
| FlatBuffers.PushBytesReads | cpp/flatbuffers/include/flatbuffers/flatbuffers.h:957-997 | a byte vector reads back with its length and bytes |
| FlatBufferTables.VTableDescribes | cpp/flatbuffers/include/flatbuffers/flatbuffers.h:792-809 | the vtable holds its size, the table's size, each stored field's place, and zero for every other slot |
| FlatBufferTables.LinkFindsVTable | cpp/flatbuffers/include/flatbuffers/flatbuffers.h:810-833 | the table's first word leads to its vtable, whether new or that of an earlier table |
| FlatBufferTables.TableReads | cpp/flatbuffers/include/flatbuffers/flatbuffers.h:728-837 | every field added, in any order, reads back: stored, elided as the default, or null, also through a shared vtable; a stored one lies at a distance that is a multiple of its width |
| FlatBufferTables.TableKeepsVTables | cpp/flatbuffers/include/flatbuffers/flatbuffers.h:810-825 | every remembered vtable distance keeps leading to a vtable |
| FlatBufferTables.TableAligns | cpp/flatbuffers/include/flatbuffers/flatbuffers.h:785-833 | the table begins at a multiple of 4 bytes from the end, and leads to a vtable at an even distance |
| TxFrames.BuildLineReads | cpp/http-bridge_generated.h:65-102 | a header line reads back with key, value and id, absent vectors as null |
| TxFrames.BuildLinesRead | cpp/http-bridge.cpp:2261-2282 | all lines built one after the other read back, also after later ones share their vtables |
| TxFrames.PushRefVectorReads | cpp/flatbuffers/include/flatbuffers/flatbuffers.h:326-328 | the vector of references has the given length, and its i-th element refers to the i-th object |
| TxFrames.FrameRoundTrip | cpp/http-bridge_generated.h:111-160 | a frame with any type, version, flags, channel, stream, lines and body, built in FinishFlatbuffer's order, reads back unchanged |
| FrameSizes.EveryFrameRoundTrips | cpp/http-bridge.cpp:2255-2300 | every frame under the size limit is built, and reads back unchanged |
| FrameSizes.SmallFrameBuilds | cpp/flatbuffers/include/flatbuffers/flatbuffers.h:523-525 | building is refused only for frames near two gigabytes; the bound on the size is explicit |
| FrameAlignments.FinishAligns | cpp/flatbuffers/include/flatbuffers/flatbuffers.h:1157-1159 | Finish leaves a multiple of the alignment it pads for |
| FrameAlignments.FrameIsAligned | cpp/flatbuffers/include/flatbuffers/flatbuffers.h:680-713 | if Finish pads for the width of the widest stored field, every word of the frame, its header lines, its vtables and its vectors starts at a multiple of its width |
| VectorsDownward.VectorDownward.MakeSpace | cpp/flatbuffers/include/flatbuffers/flatbuffers.h:504-527 | room for the request always, reallocation invisible, capacity a multiple of the largest alignment |
| VectorsDownward.VectorDownward.Push | cpp/flatbuffers/include/flatbuffers/flatbuffers.h:543-546 | prepends the bytes |
| VectorsDownward.VectorDownward.Fill | cpp/flatbuffers/include/flatbuffers/flatbuffers.h:548-551 | prepends zeros |
| VectorsDownward.VectorDownward.Pop | cpp/flatbuffers/include/flatbuffers/flatbuffers.h:553 | drops from the front |
| VectorsDownward.VectorDownward.Replay | cpp/flatbuffers/include/flatbuffers/flatbuffers.h:504-553 | any sequence of pushes, fills and pops is the same sequence of prepends and drops on a byte sequence |
| FlatBufferBuilders.FlatBufferBuilder.Align | cpp/flatbuffers/include/flatbuffers/flatbuffers.h:680-683 | prepends zeros, leaves the size a multiple of the element size, and remembers the largest element size |
| FlatBufferBuilders.FlatBufferBuilder.PushElement | cpp/flatbuffers/include/flatbuffers/flatbuffers.h:707-713 | aligns and stores a scalar, as the wire layout says, and remembers its width if it is the largest |
| FlatBufferBuilders.FlatBufferBuilder.AddElement | cpp/flatbuffers/include/flatbuffers/flatbuffers.h:728-733 | stores and tracks a scalar unless it is the default |
| FlatBufferBuilders.FlatBufferBuilder.AddOffset | cpp/flatbuffers/include/flatbuffers/flatbuffers.h:735-738 | stores and tracks a reference unless it is null |
| FlatBufferBuilders.FlatBufferBuilder.WriteVTable | cpp/flatbuffers/include/flatbuffers/flatbuffers.h:792-809 | writes the vtable of the tracked fields in place |
| FlatBufferBuilders.FlatBufferBuilder.FindEqualVTable | cpp/flatbuffers/include/flatbuffers/flatbuffers.h:814-821 | finds the first remembered vtable with the same bytes, or none |
| FlatBufferBuilders.FlatBufferBuilder.EndTable | cpp/flatbuffers/include/flatbuffers/flatbuffers.h:785-837 | ends with the wire layout's table, popping a duplicate vtable and patching the first word |
| FlatBufferBuilders.LargestSize | cpp/flatbuffers/include/flatbuffers/flatbuffers.h:523-525 | the limit on the buffer is about its size when the vtable has just been written |
| FlatBufferBuilders.FlatBufferBuilder.CreateVector | cpp/flatbuffers/include/flatbuffers/flatbuffers.h:991-997 | leaves the wire layout's byte vector, though elements are pushed last one first |
| FlatBufferBuilders.FlatBufferBuilder.CreateVectorOfOffsets | cpp/flatbuffers/include/flatbuffers/flatbuffers.h:991-1007 | leaves the wire layout's vector of references |
| FlatBufferBuilders.FlatBufferBuilder.Finish | cpp/flatbuffers/include/flatbuffers/flatbuffers.h:1154-1167 | pads the whole buffer and puts the root reference in front |
| FlatBufferBuilders.FlatBufferBuilder.CreateTxHeaderLine | cpp/http-bridge_generated.h:93-102 | leaves the wire layout's line |
| FlatBufferBuilders.FlatBufferBuilder.CreateTxFrame | cpp/http-bridge.cpp:2288-2296 | leaves the wire layout's frame table |
| FlatBufferBuilders.FlatBufferBuilder.BuildTxFrame | cpp/http-bridge.cpp:2255-2300 | the buffer a builder ends with reads back as the frame, whatever reallocations happened; it is padded for the widest field that was stored, and every word of it starts at a multiple of its width |
| Framing.FrameAtFront | go/src/httpbridge/server.go:442-462 | a frame at the front of a stream is recognised with its size and bytes, and the rest is what follows |
| Framing.SplitConserves | go/src/httpbridge/server.go:636-731 | splitting a stream into frames loses and reorders nothing |
| GoReassembly.TakenAppend | go/src/httpbridge/server.go:636-731 | taking the frames of a stream at once and piece by piece are the same |
| GoReassembly.TakenOfPrefix | go/src/httpbridge/server.go:636-731 | after n bytes, the frames taken are exactly those wholly inside the first n bytes, up to the first empty one |
| GoReassembly.ReadAsksForBytes | go/src/httpbridge/server.go:640-659 | a read asks for nothing if and only if an empty frame and eight more bytes are kept |
| GoReassembly.EmptyFrameStalls | go/src/httpbridge/server.go:640-678 | in that state no turn of the loop changes anything again |
| GoReassembly.ReadOutcome | go/src/httpbridge/server.go:671-728 | a read completes at most one frame, carries at most eight bytes over, and the loop's test finds it |
| GoReassembly.DeliveredExactly | go/src/httpbridge/server.go:636-731 | for every list of frames and every sizes of reads, delivered are exactly the frames wholly inside what was read, up to the first empty one, kept exactly the remainder |
| GoReassembly.NeverPastEmpty | go/src/httpbridge/server.go:678 | no sequence of reads delivers an empty frame or any behind it |
| GoReassembly.AllArriveIff | go/src/httpbridge/server.go:636-731 | enough nonempty reads deliver all frames if and only if no frame is empty |
| GoReassembly.FrameReader.ReadOnce | go/src/httpbridge/server.go:640-728 | one turn of the loop on the object is the turn on values, for any bytes whatever: it drops the connection on a bad marker, reads within the limit, and passes a complete frame on |
| GoReassembly.FrameReader.Deliver | go/src/httpbridge/server.go:679-728 | passes the frame on and begins a new buffer with exactly the extra bytes |
| GoReassembly.FrameReader.HandleBackendConnection | go/src/httpbridge/server.go:636-731 | any number of turns over any list of frames is the run on values, which the rows above are about |
| Buffers.GrownBound | cpp/http-bridge.cpp:872-892 | doubling stays below twice the need, or is the first allocation |
| Buffers.Buffer.Preallocate | cpp/http-bridge.cpp:826-831 | room for n more bytes, contents unchanged |
| Buffers.Buffer.Write | cpp/http-bridge.cpp:839-857 | appends, growing the capacity by doubling |
| Buffers.Buffer.EraseFromStart | cpp/http-bridge.cpp:833-837 | drops the first n bytes |
| CppReassembly.RunTracks | cpp/http-bridge.cpp:1241-1347 | over every chopping of any frames, they are processed in order and the buffer is always the unprocessed part of what was read; frames within 100 MiB are never taken as invalid |
| CppReassembly.RunSplits | cpp/http-bridge.cpp:1241-1347 | for any bytes, well formed or not, what is processed and what can still be found is what the stream holds |
| CppReassembly.CallOnlyAdds | cpp/http-bridge.cpp:1270-1342 | at most one frame a call |
| CppReassembly.ReadsUntilComplete | cpp/http-bridge.cpp:1258-1270 | a call reads if and only if no frame is complete yet, for frames of acceptable size |
| CppReassembly.RunStaysRoomy | cpp/http-bridge.cpp:1246-1256 | with frames of at most 1 MiB, the size check never closes the connection |
| CppReassembly.SmallFramesArrive | cpp/http-bridge.cpp:1241-1347 | and every such stream is processed completely once it has been read |
| CppReassembly.BigFrameCloses | cpp/http-bridge.cpp:1251-1256 | a frame above the limit, read byte by byte, closes the connection, and by the size check if no frame is above 100 MiB |
| CppReassembly.LimitIsExact | cpp/http-bridge.cpp:1246-1256 | for any frames, the connection survives all choppings if and only if all of them fit the limit |
| CppReassembly.Receiver.RecvInternal | cpp/http-bridge.cpp:1241-1342 | one call is one step of the above, with reads inside the buffer's capacity and sizes compared in 32 bits |
| Transports.PrependFrameHeader | cpp/http-bridge.cpp:2301-2317 | puts size and marker in front of a finished flatbuffer |
| Transports.FramesReachClient | cpp/http-bridge.cpp:1241-1342 | built, concatenated, chopped anywhere and reassembled, frames read back unchanged and in order |
| Transports.FramesReachServer | go/src/httpbridge/server.go:636-731 | the Go reader passes on exactly those frames that have arrived completely, all of them after enough reads, and they read back |
| PauseResume.NextKeepsInvariant | go/src/httpbridge/server.go:475-516 | every step of reader or writer keeps the invariant of backpressure |
| PauseResume.BackpressureSafety | go/src/httpbridge/server.go:690-713 | over every interleaving: a paused stream has more than 5 frames queued or its writer is at work, Pause and Resume alternate, the queue holds at most 200, delivered is a prefix of pushed |
| PauseResume.RunDoes | go/src/httpbridge/server.go:690-713 | over every run: the control frames sent are, in order, one Pause for each arrival that finds the stream Active and leaves 15 or more frames queued, and what the writer sends; the frames queued are those that arrive while the stream is not aborted |
| PauseResume.ActiveBelowHigh | go/src/httpbridge/server.go:707-712 | after an arrival, over every run, an Active stream has fewer than 15 frames queued |
| PauseResume.ResumeIsEarned | go/src/httpbridge/server.go:494-499 | over every run, a Resume follows a look at the queue that found at most 5 frames; nothing but arrivals lies in between |
| PauseResume.HowItEnds | go/src/httpbridge/server.go:475-516 | over every run: the stream is aborted if and only if a write failed or the backend took too long; the writer returns if and only if a frame is final, it gives up, or it has sent the Abort, and not from an aborted stream without |
| PauseResume.PausedResumes | go/src/httpbridge/server.go:494-499 | a paused stream whose backend stays silent becomes active within a bounded number of writer steps |
| PauseResume.AbortedForever | go/src/httpbridge/server.go:426-430 | an aborted stream stays aborted over every run |
| PauseResume.AbortedIsFinal | go/src/httpbridge/server.go:123-136 | the same for any number of concurrent setState calls, each atomic access its own step |
| PauseResume.AloneSets | go/src/httpbridge/server.go:123-136 | and a call without interference sets what it is asked for, unless the stream is aborted |
| PauseResume.StreamInfo.SetState | go/src/httpbridge/server.go:123-136 | the two compare-and-swaps set any state but leave Aborted alone |
| PauseResume.Connection.HandleFrame | go/src/httpbridge/server.go:690-713 | the reader's iteration is the machine's Arrive step |
| PauseResume.Connection.HandleFrames | go/src/httpbridge/server.go:690-713 | from 15 frames on that the writer does not take, the stream is Paused and exactly one Pause has been sent; below that, none |
| PauseResume.Connection.Receive | go/src/httpbridge/server.go:482 | the writer's receive is the machine's Pop step |
| PauseResume.Connection.AfterWrite | go/src/httpbridge/server.go:494-499 | the writer's iteration is a legal run of the machine's smaller steps |
| ResponseRuns.ResponseRunSafety | cpp/http-bridge.cpp:1011-1075 | one Header frame then only Body frames; Final where the bytes are complete or the response is flagged, at most once and last; then closed |
| ResponseRuns.NothingAfterFinished | cpp/http-bridge.cpp:1014-1020 | on a closed stream every response is allowed and emits nothing |
| ResponseRuns.FinalWhenComplete | cpp/http-bridge.cpp:1031-1052 | with a Content-Length, Final is exactly on the frame that completes it |
| ResponseRuns.FinalWhenFlagged | cpp/http-bridge.cpp:1031-1052 | with Content-Length -1, Final is exactly on the flagged frame |
| StreamResponses.StreamOnWire | cpp/http-bridge.cpp:1011-1075 | whatever happens on other streams, a stream's frames on the wire are those of its own responses |
| StreamResponses.StreamResponseSafety | cpp/http-bridge.cpp:1011-1075 | response safety on the shared wire, from a registration until the stream is registered anew, aborted or refused |
| StreamResponses.RefusalAnswersAgain | cpp/http-bridge.cpp:1107-1117 | from a registration to a refused body frame, the stream has two Header frames if its response had begun, and one otherwise |
| StreamResponses.HeaderRefused | cpp/http-bridge.cpp:1092-1149 | a header frame is refused exactly when its URI has a part too long, or when it is to be buffered automatically and has no length or finds no room; it is answered with 414 or 503, and the caller is left without a frame |
| StreamResponses.RefusalOnWire | cpp/http-bridge.cpp:1106-1117 | a body frame that is refused is answered with one final Header frame, 400 if earlier bytes overrun the length and else 503, and its stream is closed |
| StreamResponses.TwoHeaders | cpp/http-bridge.cpp:1107-1117 | a run with two Header frames: a chunked response begins, then the upload overruns its Content-Length |
| Backends.Backend.RecvHeader | cpp/http-bridge.cpp:1105-1149 | Recv on a header frame: register, buffer the final one, resend, refuse a URI too long, panic |
| Backends.Backend.Replay | cpp/http-bridge.cpp:1011-1215 | after any legal events the object is where the run of Lifecycle leads, and its invariant holds |
| Backends.Session | cpp/http-bridge.cpp:1011-1215 | after any run from the beginning, the object's total is what its requests hold and what was replaced, and within the quota if the run is modest |
| Backends.RunStream | cpp/http-bridge.cpp:1011-1075 | what the object puts on the wire for a stream from its registration on is safe |
| LifecycleSafety.DestroyKeeps | cpp/http-bridge.cpp:1731-1737 | destruction gives the buffer back and never underflows |
| LifecycleSafety.AppendKeeps | cpp/http-bridge.cpp:1436-1442 | appending a body frame accounts for exactly the growth |
| LifecycleSafety.ResendKeeps | cpp/http-bridge.cpp:1154-1193 | ResendWhenBodyIsDone adds to the total exactly the new buffer, so that an allocation it replaces stays counted, and nothing else does |
| LifecycleSafety.StepKeeps | cpp/http-bridge.cpp:1092-1215 | every step keeps registrations and buffers right, and the accounting but for replaced allocations |
| LifecycleSafety.AccountingConserved | cpp/http-bridge.cpp:1092-1215 | in every reachable state the total is the sum of the live buffers and of the allocations replaced so far; so it is exact, and zero once all requests are destroyed, if and only if none was; capacities stay within twice the bytes stored, the initial size, or 64 |
| LifecycleSafety.NoLeakIff | cpp/http-bridge.cpp:1154-1193 | nothing stays counted if and only if no call replaced an allocation |
| LifecycleSafety.BufferingTwice | cpp/http-bridge.cpp:1154-1193 | a run from the beginning that ends with all requests destroyed and a total of 16 |
| BufferedBodies.QuotaKept | cpp/http-bridge.cpp:1163-1189 | over every run with modest frames the total stays within MaxWaitingBufferTotal |
| BufferedBodies.AppendWithinQuota | cpp/http-bridge.cpp:1427-1434 | a frame no larger than its buffer grows it at most once, which the quota check has foreseen |
| BufferedBodies.OverQuotaExactly | cpp/http-bridge.cpp:1427-1434 | for such a frame the check refuses exactly what would take the total over the quota |
| BufferedBodies.PanicsExactly | cpp/http-bridge.cpp:1154-1159 | the one kind of frame and the one kind of call that make the client panic |
| BufferedBodies.OverrunIsCaughtLate | cpp/http-bridge.cpp:1421-1428 | a body frame is accepted if and only if the earlier bytes are within Content-Length, and may overrun it |
| BufferedBodies.BufferedBodyAgrees | cpp/http-bridge.cpp:1416-1444 | under any interleaving, the buffer of a request that still serves its stream, and is not buffered anew, is what it began with and every payload of the stream since, in order |
| BufferedBodies.BufferedUpload | cpp/http-bridge.cpp:1139-1147 | when Recv returns the final frame of a request buffered at its header frame, the buffer is the header frame's body and all payloads of the stream in order, and BodyBytes is null |
| BufferedBodies.AutoBufferedBegins | cpp/http-bridge.cpp:1139-1147 | an automatically buffered request begins with its header frame's body, and BodyBytes is null |
| BufferedBodies.UnbufferedBegins | cpp/http-bridge.cpp:1284-1292 | a request that is not to be buffered begins with its header frame's body in the caller's frame |
| BufferedBodies.UnbufferedFrame | cpp/http-bridge.cpp:1446-1456 | Recv accepts every body frame of an unbuffered request, hands over its payload, and changes nothing else |
| BufferedBodies.UnbufferedUpload | cpp/http-bridge.cpp:1446-1456 | under any interleaving, what the caller is handed for a stream served by an unbuffered request is all payloads of the stream, in order |
| BufferedBodies.AbortCloses | cpp/http-bridge.cpp:1476-1479 | Abort closes the stream for responses and marks the request |
| BufferedBodies.AbortedRequestStays | cpp/http-bridge.cpp:1798-1809 | over every run, an aborted request stays aborted |
| BufferedBodies.BodyStep | cpp/http-bridge.cpp:1416-1444 | a body frame for a buffered request leaves BodyBytes null |
| Backends.Backend.Send | cpp/http-bridge.cpp:1011-1075 | one call takes the Send step of Lifecycle and says whether the stream was open |
| Backends.Backend.ResendWhenBodyIsDone | cpp/http-bridge.cpp:1154-1193 | one call takes the Resend step, panics or not, and says whether a buffer was given |
| Backends.Backend.Recv | cpp/http-bridge.cpp:1092-1152 | in every state the client can be in, one call with any decoded frame takes the Recv step and returns what it returns; a body frame of an unbuffered request leaves its payload in the caller's frame |
| Backends.Backend.RecvBody | cpp/http-bridge.cpp:1397-1445 | the checks on a body frame, in the code's order, and the payload handed over for an unbuffered request |
| Backends.Backend.RecvControl | cpp/http-bridge.cpp:1459-1491 | Abort, Pause and Resume on a known stream; nothing on an unknown one |
| Backends.Backend.DestroyRequest | cpp/http-bridge.cpp:1731-1741 | the destructor takes the Destroy step and does not panic |
| Backends.Backend.UnregisterBufferedBytes | cpp/http-bridge.cpp:1210-1215 | subtracts, or panics on underflow |
| Uris.PercentRoundTrip | cpp/http-bridge.cpp:1575-1720 | percent-encoding (sections 2.1 and 2.3 of RFC 3986) any path and pairs, empty ones and zero bytes included, and decoding gives them back |
| Uris.SpelledDecodes | cpp/http-bridge.cpp:1689-1711 | a part decodes to its bytes however they are spelled: escaped with digits in either case, '+' for a space, or as themselves |
| Uris.DigitMeans | cpp/http-bridge.cpp:426-435 | hexadecimal digits of either case stand for their values, and nothing else does |
| Uris.LonePercent | cpp/http-bridge.cpp:1589-1609 | a percent sign with fewer than two characters behind it stands for itself |
| Uris.EncodeDecodes | cpp/http-bridge.cpp:1689-1711 | encoded bytes decode to themselves in any of the three kinds of part |
| Uris.EndOf | cpp/http-bridge.cpp:1630-1676 | a part ends inside the text, at its delimiter or at the end |
| Uris.NextPair | cpp/http-bridge.cpp:1630-1676 | the scanner strictly advances and never passes the terminator |
| PackedUris.PackedSizeBound | cpp/http-bridge.cpp:1978-1992 | the packed buffer is at most 8 times the URI plus 6 bytes |
| PackedUris.PackedEvenOffsets | cpp/http-bridge.cpp:1989-1992 | in a packed list, the i-th length and the end marker are read at an even offset, that of the sizes before |
| PackedUris.PackedItem | cpp/http-bridge.cpp:1835-1848 | at the front of a list that has an item, the length is its length and never the end marker |
| PackedUris.EncodedUriItems | cpp/http-bridge.cpp:1954-2026 | an encoded URI with short enough parts is accepted and lists exactly its path and pairs |
| PackedUris.FitsMeans | cpp/http-bridge.cpp:1962-1985 | a URI is accepted exactly when the length of every decoded part can be told from the end marker |
| PackedUris.LookupFindsFirst | cpp/http-bridge.cpp:1825-1850 | a lookup gives the value of the first pair whose key equals the name as a C string, or nothing if there is none |
| UriRequests.MeasurePath | cpp/http-bridge.cpp:1575-1587 | raw and decoded length of the path |
| UriRequests.DecodePath | cpp/http-bridge.cpp:1589-1609 | writes exactly the decoded path and a zero, inside its slot |
| UriRequests.UrlDecodePiece | cpp/http-bridge.cpp:1688-1711 | writes exactly the decoded key or value and a zero, inside its slot |
| UriRequests.UrlQueryParser.Next | cpp/http-bridge.cpp:1630-1676 | steps over one pair and reports where its parts begin and how long they decode to |
| UriRequests.ParsedUri.MeasureQuery | cpp/http-bridge.cpp:1978-1988 | the first pass counts the exact size, or finds a part that is too long |
| UriRequests.ParsedUri.WriteQuery | cpp/http-bridge.cpp:2001-2020 | the second pass writes the items in order and ends exactly at the measured size |
| UriRequests.ParsedUri.ParseURI | cpp/http-bridge.cpp:1954-2026 | refuses exactly the URIs with a part above 65534 bytes; otherwise keeps the packed list of path and pairs |
| UriRequests.ParsedUri.Path | cpp/http-bridge.cpp:1825-1828 | points to the decoded path, terminated |
| UriRequests.ParsedUri.Query | cpp/http-bridge.cpp:1830-1850 | points to the value of the first pair whose key equals the name as a C string, or to nothing if there is none |
| UriRequests.ParsedUri.NextQuery | cpp/http-bridge.cpp:1870-1894 | yields the pair the cursor stands before and moves on; at the end returns 0 and nulls |
| UriRequests.ParsedUri.AllQueries | cpp/http-bridge.h:640-643 | the documented iteration yields every pair once, in order, and stops |
| UriRequests.ParsedUri.ParseEncoded | cpp/http-bridge.cpp:1954-2026 | encoding, parsing and iterating give back the path and the list |
| HeaderBlocks.LineAt | cpp/http-bridge.h:577-590 | each line of a block is found where its entry says, and the next entry's start gives its end |
| HeaderCaches.CacheHoldsLastStored | cpp/http-bridge.cpp:764-790 | the cache holds, under each id, the line last stored on the connection |
| HeaderCaches.ResolvesAsMeant | cpp/http-bridge.cpp:1360-1377 | every line of a frame resolves to what its sender meant |
| HeaderCaches.InsertGet | cpp/http-bridge.cpp:764-772 | storing changes the line under that id only, and grows the list just up to it |
| HeaderCaches.SizeIsExact | cpp/http-bridge.cpp:1493-1517 | the size pass agrees with the layout pass for every cache if and only if no line retrieves an id stored by the same frame or is a value without a key; and the same for being large enough |
| HeaderCaches.SizeIsExactOverRuns | cpp/http-bridge.cpp:1493-1517 | the same over every cache that earlier frames can leave behind |
| HeaderCaches.DisciplinedIsExact | cpp/http-bridge.cpp:1493-1517 | literal, store, and retrieve of an id stored by an earlier frame are counted exactly |
| HeaderCaches.RetrieveInSameFrame | cpp/http-bridge.cpp:1493-1517 | a frame for which the counted size is too small |
| HeaderCaches.HeaderCacheRecv.Put | cpp/http-bridge.cpp:764-772 | grows the item list just up to the id and stores the line |
| HeaderCaches.HeaderCacheRecv.SizeOf | cpp/http-bridge.cpp:1493-1517 | computes the size against the cache as it is |
| HeaderBuilders.UnpackHeader | cpp/http-bridge.cpp:1349-1395 | lays the resolved lines out inside the counted space and brings the cache up to date |
| HeaderBuilders.HeaderDone | cpp/server/server.cpp:146-173 | the server's builder gives the same layout, and ends at the size it computed |
| HeaderBuilders.WriteHeaderBlockItem | cpp/server/server.cpp:134-145 | one entry and one item, at the current positions |
| HeaderBuilders.CreateMocked | cpp/http-bridge.cpp:1756-1791 | the mock's builder gives the same layout and two more zero bytes |
| NthMatches.FindNthMeans | cpp/http-bridge.cpp:1901-1913 | the nth match is the matching line with n matching lines before it |
| NthMatches.FindNegative | cpp/http-bridge.cpp:2214-2223 | a negative n finds nothing, but for -1 and a first line that does not match |
| NthMatches.FindFirstAppend | cpp/http-bridge.cpp:2214-2223 | a line added last is found first only if nothing matched before |
| NthMatches.SameFirst | cpp/http-bridge.cpp:1901-1913 | a looser match finds the same first line as a stricter one if and only if no line that only it matches comes before all that both match |
| HeaderLookups.LookupIsByName | cpp/http-bridge.cpp:1904 | lookups are by exact name, for every n, if and only if no key properly extends the name |
| HeaderLookups.PrefixMatchMeans | cpp/http-bridge.cpp:350-356 | what a lookup compares: as many characters as the name has, letters in either case |
| HeaderLookups.FirstLookupIsByName | cpp/http-bridge.cpp:1901-1913 | a lookup of the first header is by exact name if and only if every key that properly extends the name has an exact one before it, and otherwise finds such a key |
| HeaderLookups.LookupFindsLongerName | cpp/http-bridge.cpp:1904 | a lookup that finds another header |
| HeaderLookups.RequestHeaders.Verb | cpp/http-bridge.cpp:1811-1816 | points to the method |
| HeaderLookups.RequestHeaders.URI | cpp/http-bridge.cpp:1818-1823 | points to the URI |
| HeaderLookups.RequestHeaders.EqNoCase | cpp/http-bridge.cpp:350-356 | compares without reading past the key's terminator |
| HeaderLookups.RequestHeaders.HeaderByName | cpp/http-bridge.cpp:1896-1915 | the nth matching header's value, at its position and with its exact length, or nothing, for any n |
| HeaderLookups.RequestHeaders.HeaderAt | cpp/http-bridge.cpp:1927-1945 | key and value by index; the value's length is two too large |
| Requests.Initialize | cpp/http-bridge.cpp:1743-1754 | the body length is that of the first header whose key begins with Content-Length, in any case, or 0 |
| Requests.LengthIsByName | cpp/http-bridge.cpp:1751-1753 | the length is that of the first Content-Length header, or 0 without one, if and only if every header with a longer name has one before it; otherwise that of a header with a longer name |
| Requests.LongerNameSetsLength | cpp/http-bridge.cpp:1751-1753 | a request whose length comes from a header with a longer name |
| Requests.ReceiveRequest | cpp/http-bridge.cpp:1284-1297 | a header frame becomes a request: the lines its senders meant, its body length, and the packed path and query of its URI, or a refusal exactly when a part is too long |
| Requests.HeaderAdds | cpp/http-bridge.cpp:1284-1292 | a header frame adds one request, for its stream and with its length, and its body is handed over or buffered |
| Requests.FrameTypes | cpp/http-bridge.cpp:1397-1491 | by the type of a frame, whatever it decodes to: Abort, Pause, Resume and Body on a registered stream, and nothing on another |
| Requests.ReceiveFrame | cpp/http-bridge.cpp:1284-1347 | a frame of any known type makes the client take the Lifecycle step that its bytes, and all header lines received before, decode to: an Abort closes its stream and marks the request aborted, a Pause or Resume marks one that is not aborted, a Body frame changes no request's state, a Header frame begins a request for its stream |
| HeaderLookups.ReceiveHeaders | cpp/http-bridge.cpp:1349-1395 | from frames to requests: the block's lines are what the senders meant, after everything sent before |
| Decimals.StoreDigits | cpp/http-bridge.cpp:259-271 | the low-order digits, lowest first, as many as fit |
| Decimals.Reverse | cpp/http-bridge.cpp:272-279 | turns them around in place; the index ends in the middle |
| Decimals.U32toa | cpp/http-bridge.cpp:257-280 | leaves the decimal text and a zero; returns half the length, rounded up |
| Decimals.U64toa | cpp/http-bridge.cpp:284-309 | the same for 64 bits |
| Decimals.TextValue | cpp/http-bridge.cpp:257-309 | the text stands for the number modulo a power of ten, for every number and buffer size |
| Decimals.TextIsExact | cpp/http-bridge.cpp:255-309 | buffers of 11 and 21 bytes hold every 32-bit and 64-bit number |
| Decimals.ReturnValueIsLength | cpp/http-bridge.cpp:255-279 | when the returned value is the length |
| Decimals.WriteUInt64 | cpp/http-bridge.cpp:864-870 | appends the first half of the text |
| Decimals.WriteUInt64IsExact | cpp/http-bridge.cpp:864-870 | which is the number if and only if it is below ten |
| Decimals.Uatoi64 | cpp/http-bridge.cpp:323-337 | the value of the characters, modulo 2^64 |
| Decimals.CharIsSignedByte | cpp/http-bridge.cpp:323-337 | a character counts as a signed byte |
| Decimals.Atoi64 | cpp/http-bridge.cpp:339-348 | the signed value, when no step overflows |
| Decimals.WriteAndRead | cpp/http-bridge.cpp:282-337 | uatoi64 reads from the text that U64toa leaves in a buffer of s bytes the number modulo 10^(s-1), and with 21 bytes the number |
| Decimals.ContentLengthFits | cpp/http-bridge.cpp:339-348 | reading it back does not overflow if and only if the length is below 2^63 or is -1 |
| Decimals.ContentLengthReadsBack | cpp/http-bridge.cpp:1031-1035 | and then gives the same number |
| HttpTexts.AnnouncedLengthIsOwed | cpp/http-bridge.cpp:1029-1047 | a response whose last header comes from AddHeader_ContentLength(n) owes what an earlier Content-Length says; without one it owes exactly n, which can be read back if and only if n is below 2^63 or -1 |
| HttpTexts.FirstOneWins | cpp/http-bridge.cpp:2212-2225 | a header added last is found by its name exactly if no earlier one has that name |
| HttpTexts.FieldsTextSize | cpp/http-bridge.cpp:2336-2340 | the precomputed header size is that of the text |
| HttpTexts.MessageHasLength | cpp/http-bridge.cpp:2322-2327 | a message has the Content-Length headers it was given, or else exactly one, last, with the body's length |
| HttpTexts.HttpResponse.AddHeader | cpp/http-bridge.cpp:2121-2139 | appends key and value to the header buffer and index |
| HttpTexts.HttpResponse.AddHeaderContentLength | cpp/http-bridge.cpp:2141-2149 | adds the header with the length as text, or -1 |
| HttpTexts.HttpResponse.HeaderByName | cpp/http-bridge.cpp:2212-2225 | the position of the nth value whose key equals the name as a C string, or nothing, for any n |
| HttpTexts.HttpResponse.HasHeader | cpp/http-bridge.cpp:2227-2230 | whether some key equals the name as a C string |
| HttpTexts.HttpResponse.ContentLength | cpp/http-bridge.cpp:1031-1035 | what Send reads out of the Content-Length found |
| HttpTexts.HttpResponse.SerializeToHttp | cpp/http-bridge.cpp:2320-2382 | writes exactly the message, with any added Content-Length, into exactly the precomputed length |
| SentResponses.FinishFlatbuffer | cpp/http-bridge.cpp:2255-2317 | the frame built for a response reads back with its status, every header in order, its body, stream and Final flag |
| SentResponses.ResponseFrameShows | cpp/http-bridge.cpp:1029-1052 | for every response that Send accepts, that frame is what Lifecycle puts on the wire, with a Content-Length added to a body that has none |
| SentResponses.Send | cpp/http-bridge.cpp:1011-1060 | one call on a registered stream moves the countdown as ResponseRuns says, and what reaches the transport is that frame |
| SentResponses.VersionTravels | cpp/http-bridge.cpp:449-475 | the HTTP version is read back from its number |
| SentResponses.ResponseLinesAreLiteral | cpp/http-bridge.cpp:2261-2281 | no line of a response goes through a header cache |
| SentResponses.SendResponseFrame | go/src/httpbridge/server.go:519-580 | the server writes the status, sets every header but the chunked mark, writes the body, and ends at an Abort or Final frame |
| SentResponses.KeptIsAllBut | go/src/httpbridge/server.go:550-558 | of the headers, exactly the lines "Content-Length: -1" are not set, and the others are, each once and in order |
| SentResponses.KeptIsAll | go/src/httpbridge/server.go:550-558 | all headers are set if and only if there is no such line |
| SentResponses.AbortEnds | go/src/httpbridge/server.go:520-526 | an Abort frame ends the answer where it is, whatever follows |
| SentResponses.NotANumber | go/src/httpbridge/server.go:533-537 | a status with a character that is no digit is sent as 0 |
| SentResponses.AtoiReads | go/src/httpbridge/server.go:533-537 | digits stand for their number, with a sign or without |
| SentResponses.SendResponse | go/src/httpbridge/server.go:475-493 | the handler takes one frame after the other and stops at the end of the stream |
| SentResponses.StatusReadsBack | go/src/httpbridge/server.go:533-537 | the three digits of a status stand for it |
| SentResponses.StreamServed | go/src/httpbridge/server.go:475-580 | from any point of a stream's responses on, what the handler has sent is the status and headers of the first response and the bodies in order, as far as its frames have come; finished exactly if all have and the responses are |
| SentResponses.CompleteBody | cpp/http-bridge.cpp:1046-1052 | a finished answer without flagged parts has exactly the announced length |
| ResponseDeliveries.Transmit | cpp/http-bridge.cpp:1011-1075 | Send on the client object: the bytes for the transport keep conveying what its wire holds, for this response too, with the response's own headers, and a Content-Length added exactly if there is a body and none was announced |
| ResponseDeliveries.RefusalConveyed | cpp/http-bridge.cpp:1077-1081 | the client's own refusals have such bytes as well |
| ResponseDeliveries.StreamArrives | go/src/httpbridge/server.go:636-731 | after any reads, the frames passed on for a stream show the beginning of what the client sent on it, and all of it after enough reads |
| ResponseDeliveries.ResponsesReachClient | go/src/httpbridge/server.go:475-731 | end to end, whatever happens on other streams and however the bytes are chopped: the HTTP client has been sent the status of the stream's first response, its headers in order but for "Content-Length: -1", and the bodies in order, as far as they have arrived, and after enough reads all, finished exactly if the responses are |
| ResponseDeliveries.ServeStream | go/src/httpbridge/server.go:475-731 | the same of the reading loop's and the handler's objects |
| HttpParsers.Step | cpp/server/http11/http11_parser.c:340-598 | the machine's transitions keep its stored offsets inside the text read so far |
| HttpParsers.FeedInPieces | cpp/server/http11/http11_parser.c:340-598 | text that arrives in pieces is parsed as if it had arrived at once |
| HttpParsers.Parser.Execute | cpp/server/http11/http11_parser.c:88-598 | the loop over the text is the machine, and nread counts what it took |
| HttpSections.NameCharacters | cpp/server/http11/http11_parser.c:340-488 | the characters of a field name: those of a token, and beyond RFC 7230 most controls |
| HttpSections.SectionIsRead | cpp/server/http11/http11_parser.c:340-598 | for any text whatever, the machine accepts, rejects at the same character, or waits for more exactly as a scan field by field does, and reports exactly its fields |
| HttpRoundTrips.FeedField | cpp/server/http11/http11_parser.c:340-488 | one header line is one call of http_field with its key and value |
| HttpRoundTrips.FeedFields | cpp/server/http11/http11_parser.c:340-598 | a header section is exactly its list of calls and ends behind its blank line |
| HttpRoundTrips.StatusLineReadsBack | cpp/http-bridge.cpp:2350-2362 | what is written in front of the headers reads as a status line (section 3.1.2 of RFC 7230) with the version, the status and the reason, ending where the headers begin |
| HttpRoundTrips.MessageReadsBack | cpp/http-bridge.cpp:2320-2382 | for all token names and field values, the parser reports exactly the headers serialized, and stops at the body |

## Left out

- Sockets, `select`, timeouts, logging, threads and start-up: `TransportTCP`, `Server::Process`, `ListenAndServe`; transport is any chopping of a byte stream.
- Allocation failure, and with it the 503 for a header frame that cannot be allocated; ownership of `BodyBytes` in the header-final path.
- Integer overflow of sizes that memory bounds anyway (`BufferedRequestsTotalBytes`, buffer capacities), and of `int` in `ParseURI`, which cannot happen for a URI inside a frame of at most 100 MiB by the size bound.
- Frames of a type the client does not know, which close the connection.
- Locks and the interleavings of concurrent `Send` calls: each call of the client is one step.
- Finer interleavings of the Go reader's iteration than one step: between loading Active and storing Paused, the writer could drain the queue, and the stream would then be paused with nothing left to drain.
- Go's premature-response requeue, which puts a frame back behind later ones, and reads that return data and an error.
- PauseResume.Connection.AfterWrite: is the writer's iteration without interference; interleavings are covered by the machine's own steps.
- GoReassembly.FrameReader.HandleBackendConnection: frames delivered are values, so that the delivered frame keeps its buffer alive is not captured.
- The abandoned channel reader of cpp/server/server.cpp (`ReadFromBackend`, `ReadFromChannel`), documented there as having a queueing bug.
- The states of the generated parser outside the header section (1 to 12, 19 to 347): URI, IPv6, XML and JSON.
- The Go FlatBuffers runtime, whose source is not in the repository; both readers are modelled by the C++ reader's layout.
- `CreateTxFrame` of the generated code adds the fields in another order than `FinishFlatbuffer`; any order is covered by the table theorem. Structs, strings, shared strings, verifier and reflection are not.
- SipHash, `StatusString` (the reason phrase is a parameter), versions other than HTTP/1.0, 1.1 and 2, which panic, and compression callbacks.
- `Vector<T>` of cpp/http-bridge.h: its users hold plain sequences, so its growth policy is not modelled.
- Backends.Backend.Recv: `InFrame` is one object, and pointers to requests are places in a list; aliasing of the body buffers is not captured, nor are calls without a connection or a complete frame. How a frame decodes is the subject of `Requests`.
- Backends.Backend.RecvHeader: takes the Content-Length and whether the URI fits from the decoded frame; `Requests.ReceiveFrame` computes them.
- Backends.Backend.Send: a transport that closes during the send; the result is then Closed, while the stream's state has changed already.
- CppReassembly.Receiver.RecvInternal: says which frames are processed and whether the connection stays open; result codes and a transport that closes are not represented.
- Transports.FramesReachClient: frames are those the C++ layout builds, in the place of the Go server's builder.
- Transports.FramesReachServer: delivered frames are read by the C++ reader's layout, in the place of the Go runtime.
- SentResponses.SendResponseFrame: writes to the HTTP client succeed, `Header().Set` is recorded as a list of calls, and a frame's status line has at least three characters, which the code reads without looking.
- SentResponses.FinishFlatbuffer: statuses below 100, whose text is shorter than the three bytes that are copied.
- HeaderBuilders.UnpackHeader: requires a block that is large enough, behind which the code would write otherwise, and smaller than 2^31, since positions are 32-bit there; lines have key and value vectors, as the Go server writes them.
- HeaderLookups.ReceiveHeaders: the same.
- Requests.ReceiveFrame: the same, and a Content-Length on which `atoi64` does not overflow.
- HttpTexts.HttpResponse.SerializeToHttp: statuses below 100, for the same reason as above; HTTP/2 and body parts panic there.
- Decimals.Atoi64: texts on which a step overflows, which C++ leaves undefined.
- HttpTexts.HttpResponse.ContentLength: the same texts.
- Requests.Initialize: the same texts.
- Requests.ReceiveRequest: the same texts, and the blocks that `UnpackHeader` leaves out.
- SentResponses.Send: a stream that is not registered, on which nothing is sent (`ResponseDeliveries.Transmit` has it), and a transport that closes.
- SentResponses.SendResponse: the disconnect, timeout and stop branches; resuming is the subject of `PauseResume`.
- SentResponses.StreamServed: header calls are kept as a list, in which a later call with the same canonical key overwrites an earlier one at the HTTP client.
- ResponseDeliveries.Transmit: one call at a time; and frames are handed to a stream's handler in the order they arrive, which `PauseResume` is about.
- HeaderCaches.HeaderCacheRecv.Put: an empty value stored over a nonempty one under the same id resizes its vector to no bytes; where `realloc` then returns null, an assertion fails. The model stores the empty value.
