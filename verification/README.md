# A verified model of the squid server and its clients

The squid server offers plugins (a rooted filesystem, the Retro Vault software catalogue, a TCP proxy) to small
machines over a byte link. A request or reply is a packet of 1 to 255 bytes, framed by one length byte. This project
models the server's dispatch loop, the portable client, the JSON reader behind the catalogue, the three plugins, the
request and reply formats both ends share, and the serial transmit queue, and proves what holds for every input, every
run and every behaviour of the surroundings.

Code that computes values is modelled by functions; code that moves cursors and fills buffers is modelled by methods
and classes proved against those functions. The surroundings (libsquid queues, HTTP, the kernel, the network, the
clock) answer in any way they legally can: as arguments of a run, as scripts, or as methods with arbitrary results.

| part | modules |
|---|---|
| bytes, UTF-8, paths | `Bytes`, `Utf8`, `Paths` |
| framed protocol | `Framing`, `ServerPort`, `ServerRuntime`, `Exchange`, `GivingUp`, `Client` |
| JSON reader | `Json`, `JsonReparse`, `JsonLookup`, `JsonGrammar`, `JsonAccepted`, `JsonString`, `JsonEscapes`, `JsonReader` |
| Retro Vault | `Records`, `Catalog`, `CatalogQueries`, `ListPages`, `InfoPages`, `InfoTable`, `InfoWriter`, `CatalogParse`, `CatalogMeaning`, `DownloadPath`, `RetroContext`, `RetroPromises`, `HttpBuffer`, `RetroServer`, `RetroSessions` |
| filesystem | `FsPath`, `FsList`, `FsTraversal`, `RootList`, `FsPage`, `FsKernel`, `Filesystem` |
| requests and client calls | `Requests`, `ClientCalls`, `ProtocolTables` |
| serial queue, TCP proxy | `TxRing`, `TcpHosts`, `TcpProxy` |

`dafny verify dfyconfig.toml` checks the whole project.

The main results:

- `Exchange.ExchangesMatch`: in every run that abandons only exchanges the plugin declined, every completed exchange
  consumed exactly the frame of the reply to its own request, and between exchanges both ends stand on a frame boundary
  with nothing in flight.
- `GivingUp.GivingUpExactly`: abandoning an exchange leaves all later ones with their own replies if and only if the
  plugin had declined it.
- `ServerPort.RunConserves`, `ServerPort.AllHandled`: no byte is lost, duplicated or reordered on either side of a port,
  and every packet that arrives is handled once the link is willing.
- `JsonLookup.RootNeverBreaks`, `JsonReparse.IteratorYieldsElements`, `JsonAccepted.AcceptsExactly`: every slice of an
  accepted text parses again to itself, iterators return exactly the elements, and the accepted language is known
  exactly.
- `ListPages.WalkListsAll`, `InfoPages.InfoTraversal`, `FsTraversal.ListTraversalExactly`,
  `RootList.RootTraversalExactly`: following cursors shows everything once and in order, under conditions that are
  exact. Over request and reply packets, while the catalogue may be refreshed in between:
  `RetroServer.SessionListsAll`, `RetroSessions.InfoSessionTraverses`.
- `RetroSessions.DownloadArrives`, `RetroSessions.DownloadIsWhatWasFetched`: over packets, a download comes out whole,
  byte for byte the body of the last successful fetch under its path, while the catalogue may be refreshed in between.
- `CatalogMeaning.CatalogMeans`: for every document, which packages it is read as, stated over its syntax tree;
  `JsonEscapes.EscapeMeans`: every spelling of a code point in a literal means its UTF-8 bytes.
- `RetroPromises.CatalogAsExpected`, `RetroPromises.NeverStale`, `RetroPromises.ResolveExactly`,
  `RetroPromises.ConflictExactly`: when the catalogue is fetched again, which download a request names, and what a
  conflict leads to, in the terms of the protocol document and not of the code's own tests.
- `Records.ReadAllExactly` and the `Requests` lemmas: writers and readers of both ends undo each other.
- `RetroContext.CatalogIsLastRefresh`, `RetroContext.DownloadIsLastFetch`, carried to runs of packets by
  `RetroServer.ServedIsRun`: what the two caches hold in every run.
- `Filesystem.FsContext.HandleRequest`, `TcpProxy.TcpContext.HandleRequest`: descriptors and sockets are accounted for
  on every branch of every request, and the exported tree is modified only as the request bytes license it.
- `TxRing.RingIsFifo`: the serial transmit ring is a bounded FIFO.

Where the code does less than one might expect, the exact limit is a lemma:

- After an abandoned exchange a later one can return bytes of the abandoned reply, whether the request was still on its
  way or the reply half read (`GivingUp.AbandonedExchangeMisleads`, `GivingUp.GivingUpMisleads`); exactly the
  abandonment of a declined exchange is harmless (`GivingUp.GivingUpExactly`). A plugin that declines to answer leaves
  the client waiting (`Exchange.DeclinedNeverCompletes`).
- INFO over a package with more than 65526 downloads wraps its 16-bit cursor: the traversal is complete if and only if
  there are at most 65535 records (`InfoPages.InfoTraversal`, `InfoPages.TooManyDownloads`).
- Filesystem LIST below the root is complete if and only if every name has at most 243 bytes, every entry can be looked
  at, the stream ends without error, there are at most 65536 entries and no page begins with entry 65535
  (`FsTraversal.ListTraversalExactly`, `FsTraversal.LongNameHides`, `FsList.FullDirectoryCut`).
- LIST of the root reads through a duplicate of the root descriptor, which shares its position, so every request goes on
  where the last one stopped reading: the listing is complete if and only if the directory can be read as above, nothing
  visible was read before and all entries fit into one page (`RootList.RootTraversalExactly`, `RootList.TwoLongNames`).
- When a failed fstatat ends the LIST loop, the status is taken from the errno closedir leaves; it is the status of
  fstatat if and only if the two errors have the same status (`FsList.ListReplyExactly`, `FsList.WrongStatus`).
- A backslash followed by a NUL byte passes the string scanner but not the decoder (`JsonString.DecodeMeaning`), and NUL
  bytes continue a number (part of the grammar in `JsonAccepted.AcceptsExactly`).
- A single file of more than 2^32-1 bytes slips through the size guard of a download; exactly when the announced size
  is right is `CatalogParse.AnnouncedExactly`, and a file announced wrongly is `CatalogParse.OversizedFileAnnounced`.
- With room for only the header, DOWNLOAD answers never carry data (`RetroContext.HeaderOnlyStands`). With room for only
  its header, TCP READ asks recv for nothing and takes the 0 for the end of the stream: it reads something if and only
  if there is room for one byte (`TcpProxy.ReadRoomExactly`), and otherwise closes a stream that has not ended
  (`TcpProxy.TcpContext.HandleRead`).
- A CONNECT that fails reports a timeout by the errno that closing the socket leaves; exactly when that is the reason of
  the last attempt is `TcpProxy.TimeoutExactly`, and a timeout that is not reported is `TcpProxy.MissedTimeout`.
- The document promises a retry after 409 for catalogue entries without a platform
  (docs/RETROVAULT_PROTOCOL.md:368-370). In the code exactly the others are retried: without a safe platform the second
  address is the first one, and the 409 stands (`RetroPromises.ConflictExactly`, `DownloadPath.PathsDiffer`).
- A LIST or SEARCH request may also spell out an empty model (`Requests.ListExactly`, `Requests.SearchExactly`).
- The example of the Retro Vault capabilities exchange (docs/RETROVAULT_PROTOCOL.md:90-93) ends in f3; the code, like
  the table above the example, gives 244, which is f4 (`ProtocolTables.RetroTable`).

## Model

| member | source | states |
|---|---|---|
| Bytes.U16RoundTrip | lib/client/portable/internal.c:3-20 | reading a little-endian 16-bit field anywhere in a packet gives back the value written there |
| Bytes.U32RoundTrip | lib/client/portable/internal.c:8-28 | the same for 32-bit fields |
| Bytes.U32Rewrite | lib/client/portable/internal.c:8-28 | writing back a 32-bit field that was read reproduces its four bytes |
| Bytes.LittleEndian | lib/client/portable/internal.c:3-28 | fields are little-endian: the byte at place k has the weight 256 to the power of k |
| Bytes.SpaceBytes | lib/retrovault/retrovault_json.c:10-16 | isspace passes over exactly blank, tab, line feed, vertical tab, form feed and carriage return |
| Bytes.CopyInto | lib/client/portable/internal.c:45-56 | the copy loop writes exactly the given bytes at the given place and nothing else |
| Utf8.EncodeDecodes | lib/retrovault/retrovault_json.c:426-449 | the encoder writes the one well-formed sequence (section 3 of RFC 3629) that decodes to the code point |
| Utf8.DecodeEncodes | lib/retrovault/retrovault_json.c:426-449 | every well-formed sequence is the encoding of the code point it decodes to, which is no surrogate |
| Utf8.EncodeOrdered | lib/retrovault/retrovault_json.c:426-449 | encodings are ordered as the code points are (section 1 of RFC 3629); with the two lemmas before this leaves only one encoding |
| Utf8.EncodeValid | lib/retrovault/retrovault_json.c:426-449 | what it writes is valid UTF-8 |
| Utf8.ValidPrefix | lib/retrovault/retrovault_core.c:842-848 | a prefix of valid text is valid exactly when it does not stop in front of a continuation byte |
| Utf8.StepBackLongest | lib/retrovault/retrovault_core.c:691-697 | stepping back over continuation bytes gives the longest valid prefix within the limit |
| Utf8.StepBackLoop | lib/retrovault/retrovault_core.c:882-885 | the loop computes that position |
| Framing.DeframeAppend | src/runtime/server_runtime.c:290-328 | de-framing is incremental: only the unfinished frame matters for the bytes that follow |
| Framing.DeframeFrames | src/runtime/server_runtime.c:290-328 | a stream of whole frames de-frames to exactly their payloads |
| Framing.RestIsPartial | src/runtime/server_runtime.c:290-328 | what is left over is an unfinished frame with a non-zero length byte |
| ServerPort.ReceiveConserves | src/runtime/server_runtime.c:290-328 | a receive, whatever pieces it gets, keeps the port conserved or leaves exactly one whole frame in the buffer |
| ServerPort.AnswerConserves | src/runtime/server_runtime.c:380-416 | handling a packet adds its frame to the handled requests and the frame of a valid reply to the bytes owed |
| ServerPort.PassConserves | src/runtime/server_runtime.c:330-419 | every pass over a port keeps conservation, for every choice of the surroundings and every plugin |
| ServerPort.RunConserves | src/runtime/server_runtime.c:330-419 | in every reachable state the requests handled are the packets of the bytes read, read and waiting bytes are those that arrived, and accepted bytes plus the pending reply are the frames of all valid replies |
| ServerPort.PassReads | src/runtime/server_runtime.c:347-362 | a pass reads bytes in order only, and nothing at all while a pending reply is refused |
| ServerPort.FragmentationIrrelevant | src/runtime/server_runtime.c:290-328 | two runs that read the same bytes handle the same requests and hold the same partial frame |
| ServerPort.FramesHandled | src/runtime/server_runtime.c:290-419 | a completely read stream of frames is completely handled, packet by packet |
| ServerPort.PassProgress | src/runtime/server_runtime.c:290-328 | a pass with a link that takes a pending reply and hands over bytes reads at least one that waits, also past a zero length byte |
| ServerPort.AllHandled | src/runtime/server_runtime.c:290-419 | nothing that arrives is left unhandled: after any run, as many such passes as bytes wait read all of them, and the requests handled are exactly the packets of all bytes that arrived |
| ServerRuntime.Runtime.constructor | src/runtime/server_runtime.c:483-503 | all sixteen port slots start fresh |
| ServerRuntime.Runtime.ReceivePluginPacket | src/runtime/server_runtime.c:290-328 | on the per-port arrays it does what the value model of the receive says, for this port only |
| ServerRuntime.Runtime.CollectBody | src/runtime/server_runtime.c:315-328 | the payload part of the receive, against its value model |
| ServerRuntime.Runtime.HandlePacket | src/runtime/server_runtime.c:369-417 | plugin call, reply validation and first send attempt, against the value model, for this port only |
| ServerRuntime.Runtime.DispatchPort | src/runtime/server_runtime.c:342-417 | one iteration of the port loop is exactly one pass of the value model |
| ServerRuntime.Runtime.DispatchReceivedPackets | src/runtime/server_runtime.c:330-419 | every open assignable port makes exactly its own pass and every other slot is untouched |
| ServerRuntime.Runtime.ResetPorts | src/runtime/server_runtime.c:466-477 | on link loss partial requests and pending replies of all assignable ports are dropped, and nothing else |
| Exchange.StepKeeps | lib/client/portable/client.c:69-122 | every step of client, link or server, the abandonment of a declined exchange included, keeps the protocol invariant: idle with nothing in flight, or asking, or replying with the reply frame lying in order over client, queue and buffer |
| Exchange.RunKeeps | lib/client/portable/client.c:69-122 | the invariant holds after every run that abandons only declined exchanges |
| Exchange.ExchangesMatch | lib/client/portable/client.c:69-122 | in every such run each completed exchange, in order, consumed exactly the frame of the reply to its own request and ended with that reply, or with OVERFLOW exactly when it exceeds the capacity; between exchanges nothing is in flight; without an abandonment the k-th exchange is that of request k |
| Exchange.FeedMeansReply | lib/client/portable/client.c:18-48 | in whatever pieces the reply arrives, the exchange ends with what the stream means and not before |
| Exchange.ExchangeCanComplete | src/runtime/server_runtime.c:330-419 | no deadlock: every exchange in progress that the plugin has not declined can be completed in three more steps |
| Exchange.DeclinedNeverCompletes | src/runtime/server_runtime.c:380-416 | if the plugin declined to answer, no run completes the exchange |
| GivingUp.AbandonedExchangeMisleads | lib/client/portable/client.c:35-46 | whenever an exchange is abandoned while its request is on the way, the next one can complete with the reply to the abandoned request before its own has reached the plugin |
| GivingUp.TakeFirst | lib/client/portable/client.c:96-121 | a whole frame at the head of the reply queue ends an exchange that has read nothing, whosever it is |
| GivingUp.GivingUpMisleads | lib/client/portable/client.c:35-46 | after every abandonment of an exchange that is not declined, also in the middle of its reply, some continuation completes an exchange with bytes that are not its own reply |
| GivingUp.GivingUpExactly | lib/client/portable/client.c:35-46 | every exchange completed after an abandonment has its own reply, in every continuation without another one, if and only if the plugin had declined the abandoned exchange |
| Client.TransactedMeansReply | lib/client/portable/client.c:96-121 | whatever the pieces, polls and waits, a transaction that is not interrupted took exactly the bytes of the reply and ends with what they mean, and an interrupted one took fewer |
| Client.CollectStops | lib/client/portable/client.c:7-48 | why a receive stops: all polls but the last let it go on, and the last completed it, failed, was cancelled or lost the link, with the code for that |
| Client.CollectCompletes | lib/client/portable/client.c:18-48 | a receive that is let go on completes once enough bytes came in, after at most as many polls as bytes if each brings one |
| Client.SquidClient.ReceiveBytes | lib/client/portable/client.c:18-48 | takes exactly the next bytes of the link into the workspace and stops when and why the receive function of the polls says |
| Client.SquidClient.Drain | lib/client/portable/client.c:104-118 | an oversized reply is read and thrown away in pieces that fit the workspace, to its last byte or to the interruption the polls give |
| Client.SquidClient.Transact | lib/client/portable/client.c:96-121 | header, drain and payload together, against the transaction function |
| Client.SquidClient.Exchange | lib/client/portable/client.c:69-122 | a refused request changes nothing on the link; an accepted one is on the wire as one frame and the call ends with what the incoming stream means, having taken exactly those bytes, or is interrupted before the reply is complete |
| JsonReparse.ParseValueNarrow | lib/retrovault/retrovault_json.c:72-228 | parsing a value again with a nearer end behind it and a smaller depth gives the same value |
| JsonReparse.ParsePartsNarrow | lib/retrovault/retrovault_json.c:72-228 | the same for the members or elements of a container |
| JsonReparse.SettledFrom | lib/retrovault/retrovault_json.c:72-228 | every value the parser returns parses again to itself from its own slice at depth 0 |
| JsonReparse.RootSettled | lib/retrovault/retrovault_json.c:230-249 | so does the root of every accepted text |
| JsonReparse.IterateParts | lib/retrovault/retrovault_json.c:355-393 | iterating from inside an array returns the elements the recursive parse delimited |
| JsonReparse.IteratorYieldsElements | lib/retrovault/retrovault_json.c:339-393 | the iterator never fails on a delimited array and returns exactly its elements, in order |
| JsonLookup.FirstMatch | lib/retrovault/retrovault_json.c:269-337 | the looked-up value belongs to the first member whose decoded key is the name |
| JsonLookup.LookupFindsFirst | lib/retrovault/retrovault_json.c:269-337 | member lookup on a delimited object never fails structurally and gives the first match or absence |
| JsonLookup.FollowNeverBreaks | lib/retrovault/retrovault_json.c:269-393 | no sequence of iterations and lookups from a readable value fails structurally, and every value reached is readable again |
| JsonLookup.RootNeverBreaks | lib/retrovault/retrovault_json.c:230-393 | this holds from the root of every accepted text |
| JsonGrammar.ValueComplete | lib/retrovault/retrovault_json.c:72-228 | the parser accepts every value of the grammar within the depth limit and returns its type, extent and parts |
| JsonGrammar.TextComplete | lib/retrovault/retrovault_json.c:230-249 | the same for whole texts with blanks around them |
| JsonAccepted.ValueSound | lib/retrovault/retrovault_json.c:72-228 | every accepted value is the text of a grammar tree of that depth and shape |
| JsonAccepted.TextSound | lib/retrovault/retrovault_json.c:230-249 | every accepted text is blank, tree, blank |
| JsonAccepted.AcceptsExactly | lib/retrovault/retrovault_json.c:230-249 | a text is accepted if and only if it is a text of the grammar nested to depth at most 32 |
| JsonAccepted.RfcAccepted | lib/retrovault/retrovault_json.c:72-249 | every text of sections 2 to 7 of RFC 8259 nested to depth at most 32 is accepted with its type, extent and parts |
| JsonAccepted.LiteralDecodes | lib/retrovault/retrovault_json.c:451-531 | every accepted string literal decodes to its meaning unless it holds a backslash-NUL pair, and valid UTF-8 stays valid |
| JsonString.ScanComplete | lib/retrovault/retrovault_json.c:18-70 | a literal of well-formed units is scanned to its closing quote |
| JsonString.ScanSound | lib/retrovault/retrovault_json.c:18-70 | what the scanner accepts is a sequence of such units |
| JsonString.DecodeMeaning | lib/retrovault/retrovault_json.c:451-531 | decoding fails exactly on backslash-NUL and otherwise gives the meaning, unit by unit; which bytes each escape means is fixed by the JsonEscapes rows |
| JsonString.MeaningIsUtf8 | lib/retrovault/retrovault_json.c:451-531 | if the literal's bytes are valid UTF-8, so is the decoded text |
| JsonEscapes.QuadReads | lib/retrovault/retrovault_json.c:395-424 | four hex digits, in either case, are read as the number they spell, the first digit worth the most |
| JsonEscapes.HalvesCombine | lib/retrovault/retrovault_json.c:510-512 | the two surrogate halves UTF-16 writes for a code point beyond the first plane combine to that code point |
| JsonEscapes.EscapeMeans | lib/retrovault/retrovault_json.c:494-525 | every code point that is no surrogate, written as one escape or as a pair of them, means its UTF-8 bytes, whatever follows |
| JsonEscapes.HalfMeans | lib/retrovault/retrovault_json.c:503-520 | a surrogate half that is not part of a pair means U+FFFD |
| JsonEscapes.LetterMeans | lib/retrovault/retrovault_json.c:476-493 | the eight letters behind a backslash and the bytes they stand for, as in section 7 of RFC 8259 |
| JsonEscapes.EscapeDecodes | lib/retrovault/retrovault_json.c:451-531 | in a text: a literal that spells a code point in hex escapes decodes to its UTF-8 bytes |
| JsonAccepted.NumberBytes | lib/retrovault/retrovault_json.c:213-227 | the bytes that continue a number: digits, point, e, E, plus, minus, and NUL |
| JsonReader.SkipBlanks | lib/retrovault/retrovault_json.c:10-16 | the loop stops at the first byte that is not blank |
| JsonReader.ParseStringEnd | lib/retrovault/retrovault_json.c:18-70 | the cursor loop computes the scanner function |
| JsonReader.ParseValueInternal | lib/retrovault/retrovault_json.c:72-228 | the recursive parser with its moving cursor computes the parse function and terminates |
| JsonReader.ParseRest | lib/retrovault/retrovault_json.c:108-184 | the member and element loops end behind the closing bracket exactly when the parts parse |
| JsonReader.ParseJson | lib/retrovault/retrovault_json.c:230-249 | the whole text, trailing bytes rejected |
| JsonReader.ArrayIterator.constructor | lib/retrovault/retrovault_json.c:339-353 | the iterator starts with all elements remaining |
| JsonReader.ArrayIterator.Next | lib/retrovault/retrovault_json.c:355-393 | each call returns the next remaining element, the end, or a structural error |
| JsonReader.TryMember | lib/retrovault/retrovault_json.c:286-336 | one turn of the lookup loop answers or moves on without changing the answer |
| JsonReader.GetMember | lib/retrovault/retrovault_json.c:269-337 | the loop computes the lookup function |
| JsonReader.StringMatches | lib/retrovault/retrovault_json.c:251-267 | a key matches exactly when its decoded text is the name |
| JsonReader.DecodeUnit | lib/retrovault/retrovault_json.c:472-527 | one turn of the decoder writes what the decoding function says of one unit or surrogate pair, in no more bytes than it took |
| JsonReader.DuplicateString | lib/retrovault/retrovault_json.c:451-531 | the decoder stays inside a buffer as long as the literal, terminator included, and fails exactly where the decoding function does |
| Records.ReadExactly | lib/client/retrovault.c:113-150 | a record is read if and only if its encoding stands there and ends in time |
| Records.ReadAllExactly | lib/client/retrovault.c:190-220 | over any bytes the iterator returns these records and then the end if and only if the bytes are their encoding and the count is their number |
| Records.PageReadBack | lib/retrovault/retrovault_core.c:801-812 | the client's page object and its iteration give back the cursor and records the server put in |
| Records.PartSize | lib/filesystem/filesystem_core.c:582-591 | an answer carries at most what is left, the client's limit, the room and 255 bytes, and something whenever there is room for one byte and one is left |
| Records.PartSizeLargest | lib/filesystem/filesystem_core.c:582-591 | and no larger part would keep within these bounds |
| Records.FinishPage | lib/retrovault/retrovault_core.c:1084-1088 | the header in front of the records completes the page |
| Records.WriteError | lib/retrovault/retrovault_core.c:709-723 | an error answer is the response opcode and the status |
| Records.PageIterator.constructor | lib/client/retrovault.c:9-27 | the page object covers the records behind the header of the response |
| Records.PageIterator.Next | lib/client/filesystem.c:121-151 | reads inside the page only, returns the next record, 0 at the exact end, or a protocol error without moving |
| Catalog.TextEquals | lib/retrovault/retrovault_core.c:542-560 | the loop decides equality up to ASCII letter case |
| Catalog.TextContains | lib/retrovault/retrovault_core.c:562-593 | the nested loops decide whether some stretch equals the query up to letter case |
| Catalog.SameTextEquivalence | lib/retrovault/retrovault_core.c:542-560 | equality up to case is an equivalence |
| Catalog.PlatformSpelling | lib/retrovault/retrovault_core.c:595-641 | platform matching is symmetric and transitive: it selects a class of spellings |
| Catalog.SelectAppend | lib/retrovault/retrovault_core.c:643-671 | selecting matching packages works piecewise, in order |
| CatalogQueries.LowerExactly | lib/retrovault/retrovault_core.c:542-560 | two bytes compare equal exactly when they are the same or the two cases of one letter |
| CatalogQueries.SameTextExactly | lib/retrovault/retrovault_core.c:542-560 | texts compare equal exactly when they do letter by letter |
| CatalogQueries.ContainsExactly | lib/retrovault/retrovault_core.c:562-593 | a query is found exactly when the text is something, a spelling of the query, and something |
| CatalogQueries.PlatformExactly | docs/RETROVAULT_PROTOCOL.md:122-124 | a filter selects a platform exactly when they are the same text up to case, or both are spellings of idp / iskra-delta-partner, or of zxs / zx-spectrum |
| CatalogQueries.MatchesExactly | docs/RETROVAULT_PROTOCOL.md:183-188 | a package is selected exactly when platform and model are as asked and one of id, name, vendor and description holds the query; empty parts ask for nothing |
| CatalogQueries.SelectOne | lib/retrovault/retrovault_core.c:643-671 | what is selected of one package; with piecewise selection this fixes the result and its order |
| CatalogQueries.SelectExactly | lib/retrovault/retrovault_core.c:643-671 | a package is in the selection exactly when it is in the catalogue and matches |
| ListPages.PackageMatches | lib/retrovault/retrovault_core.c:643-671 | decides platform, model and query filters as the reference predicate does |
| ListPages.EntryNames | lib/retrovault/retrovault_core.c:673-707 | an entry exists exactly for ids of at most 247 bytes, and its name is the longest valid prefix that fits |
| ListPages.BuildTakes | lib/retrovault/retrovault_core.c:725-812 | a page takes the listing off at its cursor, and a continuing cursor strictly grows |
| ListPages.BuildFits | lib/retrovault/retrovault_core.c:780-804 | what a page holds stays within its room, and its count within a byte |
| ListPages.BuildFull | lib/retrovault/retrovault_core.c:780-804 | a page goes on as long as it can: where it stops, the next entry does not fit behind what it holds |
| InfoTable.EntryKept | lib/retrovault/retrovault_core.c:673-707 | in any room the id is never shortened, and the name is all of it or its longest prefix of whole characters that fits |
| InfoTable.FirstEntry | lib/retrovault/retrovault_core.c:785-799 | a page too small for a full entry begins with the entry in turn, its name kept as far as the room goes, and is TOO_LARGE exactly when not even the id fits |
| ListPages.WalkListsAll | lib/retrovault/retrovault_core.c:725-812 | following the cursors ends and shows exactly the entries of the matching packages, in catalogue order |
| ListPages.MakeListEntry | lib/retrovault/retrovault_core.c:673-707 | the entry writer, against the entry function |
| ListPages.WriteCatalogPage | lib/retrovault/retrovault_core.c:725-812 | the page loop over the whole catalogue writes exactly the answer defined over the matching packages |
| InfoPages.CutTextIsUtf8 | lib/retrovault/retrovault_core.c:861-890 | a counted text is the longest valid prefix within field limit, room and count byte |
| InfoPages.InfoKinds | lib/retrovault/retrovault_core.c:947-1014 | records carry their type byte: 1 to 9 for the fixed ones, 10 for downloads |
| InfoTable.FixedTable | docs/RETROVAULT_PROTOCOL.md:246-256 | the field under each type, in cursor order: id, name, vendor, platform id, platform name, version, the year in two bytes, the rating in one, description; texts whole, or their longest prefix of whole characters that fits |
| InfoTable.DownloadReadBack | docs/RETROVAULT_PROTOCOL.md:280-289 | a download record taken apart by the offsets of the protocol gives back id, label, format, size and file count |
| InfoTable.FirstRecord | lib/retrovault/retrovault_core.c:1056-1071 | a page too small for a record buffer begins with the record in turn, whole or made for the room, and is TOO_LARGE exactly when it cannot be made |
| InfoTable.CursorsBehind | lib/retrovault/retrovault_core.c:1029-1037 | a cursor just behind the last record, or behind the last match, gets an empty last page; INFO refuses those further out |
| InfoPages.InfoFits | lib/retrovault/retrovault_core.c:1016-1089 | an INFO page stays within its room and count |
| InfoPages.InfoTakes | lib/retrovault/retrovault_core.c:1016-1089 | a full page holds consecutive whole records, numbered modulo 65536, and its cursor names the next one |
| InfoPages.InfoFull | lib/retrovault/retrovault_core.c:1044-1071 | a page goes on as long as it can: where it stops, the next record does not fit behind what it holds |
| InfoPages.WalkCounts | lib/retrovault/retrovault_core.c:1016-1089 | after any number of pages the client has seen the records counted modulo 65536 from 0 |
| InfoPages.WalkEnds | lib/retrovault/retrovault_core.c:1016-1089 | with at most 65535 records every page makes progress, so the walk ends |
| InfoPages.InfoTraversal | lib/retrovault/retrovault_core.c:1016-1089 | following INFO cursors shows every record once, whole and in order if and only if there are at most 65535 |
| InfoPages.NeverAll | lib/retrovault/retrovault_core.c:1072-1082 | beyond that, no walk that stops has seen exactly all records |
| InfoPages.TooManyDownloads | lib/retrovault/retrovault_core.c:1072-1082 | a package with 65527 downloads is never seen completely |
| InfoWriter.DownloadFields | lib/retrovault/retrovault_core.c:892-945 | in a full record no text of a download is cut below its own limit |
| InfoWriter.DownloadValueInjective | lib/retrovault/retrovault_core.c:892-945 | record bytes are equal only for equal id, label, format, size and file count as written, that is of at most 64, 96 and 32 bytes; longer texts are cut first |
| InfoWriter.MakeStringTlv | lib/retrovault/retrovault_core.c:830-859 | the text record writer, against its function |
| InfoWriter.AppendCountedText | lib/retrovault/retrovault_core.c:861-890 | writes the counted text where told, touches nothing else, and never exceeds its room |
| InfoWriter.MakeDownloadTlv | lib/retrovault/retrovault_core.c:892-945 | the nested download record, without size underflow, against its function |
| InfoWriter.MakeInfoRecord | lib/retrovault/retrovault_core.c:947-1014 | the record with a given number, against its function |
| InfoWriter.WriteInfoPage | lib/retrovault/retrovault_core.c:1016-1089 | the INFO page loop with its 16-bit cursor writes exactly the INFO answer, and terminates |
| CatalogParse.AggregateIsSum | lib/retrovault/retrovault_core.c:278-324 | when no file exceeds 32 bits, the announced size is the sum if all are known and it fits, and unknown otherwise; the file count saturates |
| CatalogParse.AnnouncedExactly | lib/retrovault/retrovault_core.c:305-322 | for all sizes: the announced size is right if and only if no file exceeds 32 bits, or the guard refuses some file, or the low half of the sum reads unknown |
| CatalogParse.OversizedFileAnnounced | lib/retrovault/retrovault_core.c:309-322 | one file of 2^32 bytes is announced with size 0 |
| CatalogParse.ElementsOfRoot | lib/retrovault/retrovault_core.c:427-449 | the catalogue array lists exactly the elements the reader delimited |
| CatalogParse.CatalogExactly | lib/retrovault/retrovault_core.c:427-477 | a document is a catalogue if and only if it is an array of at most 65535 elements that are all packages, and then it holds those packages in order; what makes an element a package is CatalogMeaning.PackageMeans |
| CatalogMeaning.CatalogMeans | lib/retrovault/retrovault_core.c:203-477 | for every document and every list of packages: it parses to these packages if and only if it is a JSON text nested to depth at most 32 whose syntax tree is an array of at most 65535 objects that describe them, in order; each field is the text, number or list of the member with its own name |
| CatalogMeaning.TreeMeans | lib/retrovault/retrovault_core.c:427-477 | the same for a given syntax tree of the text |
| CatalogMeaning.PackageMeans | lib/retrovault/retrovault_core.c:391-425 | an object is this package exactly when the first members named id, name, vendor, platformId, platformName, modelId, modelName, version, description, rating, releaseYear and downloads say so |
| CatalogMeaning.DownloadMeans | lib/retrovault/retrovault_core.c:278-343 | an object is this download exactly when its members id, label, format and files say so, with the totals of the files' sizeBytes and a file count that saturates at 255 |
| CatalogMeaning.RatingMeans | lib/retrovault/retrovault_core.c:258-276 | Curious, Average, Great and Legendary are 1 to 4, and every other text is 0 |
| CatalogMeaning.DecimalPlaces | lib/retrovault/retrovault_json.c:533-564 | numerals are read in base ten: one digit counts its value, and digits behind others push those up |
| CatalogParse.ReadCatalog | lib/retrovault/retrovault_core.c:427-477 | the loop with the iterator object computes the same |
| DownloadPath.IdentifierIsSafe | lib/retrovault/retrovault_core.c:1091-1116 | the loop decides which identifiers may enter a path |
| DownloadPath.SafeBytes | lib/retrovault/retrovault_core.c:1098-1107 | identifiers consist of letters, digits, hyphen and underscore |
| DownloadPath.PathsSpelled | lib/retrovault/retrovault_core.c:1141-1219 | the address of a download, spelled out: /api/v1/catalog/packages, the safe platform and model, id, downloads and download id, or with the platform and model as a query; none at all for unsafe identifiers or from 768 bytes on |
| DownloadPath.PathsDiffer | lib/retrovault/retrovault_core.c:1292-1304 | the two addresses differ exactly when the platform is a safe identifier |
| DownloadPath.CanonicalInjective | lib/retrovault/retrovault_core.c:1141-1219 | equal cache paths mean the same package, download, platform and model |
| RetroContext.CatalogFromOneResponse | lib/retrovault/retrovault_core.c:490-540 | in every run the catalogue is empty or the parse of one successful response, with at most 65535 packages |
| RetroContext.CatalogSurvives | lib/retrovault/retrovault_core.c:520-532 | a non-empty catalogue outlives any number of failed, non-2xx or unparsable refreshes, answered OK |
| RetroContext.CatalogIsLastRefresh | lib/retrovault/retrovault_core.c:490-540 | in every run the catalogue and its time are those of the last request that found it stale and got a usable response; when it is stale is RetroPromises.CatalogAsExpected |
| RetroContext.DownloadStep | lib/retrovault/retrovault_core.c:1246-1326 | a request changes the cached download exactly when it stores a successful answer under its canonical path |
| RetroContext.DownloadIsLastFetch | lib/retrovault/retrovault_core.c:1221-1326 | in every run the cached download is the body of the last successful fetch for the path it is stored under; which answer that is, also after a conflict, is RetroPromises.ConflictExactly |
| RetroPromises.CatalogAsExpected | lib/retrovault/retrovault_core.c:490-540 | in every run, without the freshness test of the code: a request that looks at the catalogue at a given time takes over a usable response if and only if nothing usable was taken over before or the catalogue is empty, or the clock is unreadable, or the last refresh lies in the future or at least 3600 seconds back |
| RetroPromises.NeverStale | lib/retrovault/retrovault_core.c:499-503 | while HTTP works, what a request is answered from was fetched less than 3600 seconds ago, or just now if the clock is unreadable |
| RetroContext.FindPackageExactly | lib/retrovault/retrovault_core.c:814-828 | the package found is the first one with the id up to letter case, and none is found if and only if there is none |
| RetroContext.FindDownloadExactly | lib/retrovault/retrovault_core.c:1118-1139 | the same for the downloads of a package |
| RetroContext.SearchPackages | lib/retrovault/retrovault_core.c:814-828 | the loop over the catalogue finds the first package with the id, or none exactly when there is none |
| RetroContext.SearchDownloads | lib/retrovault/retrovault_core.c:1118-1139 | the loop over the downloads, likewise |
| RetroPromises.ResolveExactly | lib/retrovault/retrovault_core.c:1266-1291 | a request names a download if and only if there is a first package and in it a first download with these ids, both safe, and the address is shorter than 768 bytes |
| RetroPromises.ResolveRefuses | lib/retrovault/retrovault_core.c:1266-1291 | otherwise it is NOT_FOUND exactly when there is no such package or download, and INTERNAL_ERROR when the address cannot be built |
| RetroPromises.ConflictExactly | lib/retrovault/retrovault_core.c:1292-1310 | after a 409 and a good second answer: the second address is asked, its body stored and OK answered if and only if the platform is a safe identifier and that address is shorter than 768 bytes; otherwise the 409 stands and the cache stays |
| RetroPromises.AnswerCodes | lib/retrovault/retrovault_core.c:479-488 | which answers are good, and the status of every other one, by number |
| RetroPromises.CatalogCodes | lib/retrovault/retrovault_core.c:505-540 | the status of a look at the catalogue that brings no new one, by number |
| RetroPromises.DownloadCodes | lib/retrovault/retrovault_core.c:1246-1326 | the status and the addresses asked of a download without conflict |
| RetroPromises.ChunkCodes | lib/retrovault/retrovault_core.c:1538-1557 | the status of a chunk, by number |
| RetroContext.ChunkReadBack | lib/client/retrovault.c:258-271 | the client gets offset, total and bytes of the chunk the server cut |
| RetroContext.ChunksReassemble | lib/retrovault/retrovault_core.c:1538-1571 | chunks of one cached body read from 0 with any limits terminate and reassemble it whenever a packet has room for one byte; that the body stays the same over the requests is RetroSessions.DownloadArrives |
| RetroContext.HeaderOnlyStands | lib/retrovault/retrovault_core.c:1547-1557 | with room for the header only, the client never advances |
| RetroContext.Context.RefreshCatalog | lib/retrovault/retrovault_core.c:490-540 | the context object makes the catalogue step, and asks for the catalogue exactly when that step does |
| RetroContext.Context.FetchDownload | lib/retrovault/retrovault_core.c:1221-1326 | the context object makes the download step, and asks exactly the addresses that step asks, in order |
| RetroContext.Context.FetchTarget | lib/retrovault/retrovault_core.c:1292-1326 | the part behind the lookup: the first answer, the second one after a conflict, and what is stored |
| RetroContext.Context.HandleDownload | lib/retrovault/retrovault_core.c:1527-1571 | the chunk or error that answers a decoded DOWNLOAD |
| RetroContext.Context.SendChunk | lib/retrovault/retrovault_core.c:1538-1571 | the chunk the limits, the room and the body leave, or TOO_LARGE or BAD_REQUEST |
| RetroContext.ChunkSize | lib/retrovault/retrovault_core.c:1547-1557 | the checks leave exactly the largest chunk within the limits |
| HttpBuffer.Buffer.Grown | lib/retrovault/retrovault_core.c:98-107 | doubling ends with a capacity that suffices and exceeds neither the limit nor the first or current capacity |
| HttpBuffer.Buffer.Append | lib/retrovault/retrovault_core.c:79-122 | all bytes are appended or none: none exactly when they exceed the limit, which is remembered, or memory is refused |
| Requests.ListExactly | lib/client/retrovault.c:47-63 | the server decodes these LIST fields if and only if the packet is the client's packet for them (or spells out an empty model) and the cursor is not the end marker |
| Requests.SearchExactly | lib/retrovault/retrovault_core.c:1372-1416 | the same for SEARCH, which also rejects the empty query |
| Requests.InfoExactly | lib/retrovault/retrovault_core.c:1452-1462 | INFO fields are decoded if and only if the packet encodes them and the id is not empty |
| Requests.DownloadExactly | lib/retrovault/retrovault_core.c:1498-1525 | DOWNLOAD fields are decoded if and only if the packet encodes them and both ids are not empty |
| Requests.PathExactly | lib/filesystem/filesystem_core.c:314-337 | a one-path request is decoded if and only if it encodes an admitted path |
| Requests.FsListExactly | lib/client/filesystem.c:98-106 | the same for filesystem LIST with its cursor |
| Requests.FsReadExactly | lib/client/filesystem.c:171-180 | the same for READ with offset and limit |
| Requests.FsWriteExactly | lib/filesystem/filesystem_core.c:640-663 | WRITE fields are decoded if and only if the packet encodes them, the path is admitted and no unknown flag is set |
| Requests.RenameExactly | lib/filesystem/filesystem_core.c:786-807 | RENAME is decoded if and only if it encodes two admitted paths |
| RetroServer.ReplyState | lib/retrovault/retrovault_core.c:1574-1629 | a packet changes the caches exactly as the fetch it asks for, or not at all |
| RetroServer.ServedIsRun | lib/retrovault/retrovault_core.c:1574-1629 | serving any packets leaves the caches as the corresponding run of fetches does, so the results on runs hold for the plugin |
| RetroServer.SessionIsWalk | lib/client/retrovault.c:29-111 | a client session over request and reply packets is the walk over the matching packages, as long as refreshes of the catalogue leave these as they are |
| RetroServer.KeptLook | lib/retrovault/retrovault_core.c:490-540 | while every response keeps a property of the catalogue, and failures find an old catalogue to fall back on, every look at it succeeds and the property stays |
| RetroServer.SessionListsAll | lib/client/retrovault.c:29-150 | over the wire, while the matching packages stay the same over any refreshes of the catalogue, listing or searching from cursor 0 ends and shows exactly their entries in catalogue order |
| RetroSessions.SteadyChunk | lib/retrovault/retrovault_core.c:1478-1572 | one DOWNLOAD packet while the catalogue entry stays: the client gets the chunk of the cached body, or an error that leaves the cache alone |
| RetroSessions.CachedArrives | lib/client/retrovault.c:222-271 | once the body is cached, the client gets the rest of it from any offset, and the cache does not change, whatever the limits and the refreshes of the catalogue |
| RetroSessions.DownloadArrives | lib/client/retrovault.c:222-271 | over request and reply packets a client ends with exactly the body the first packet leaves in the cache, no later packet changes the cache, and it gets nothing exactly when that packet cannot fetch the body or its size cannot be announced |
| RetroSessions.DownloadIsWhatWasFetched | lib/retrovault/retrovault_core.c:1221-1326 | in every run of packets a download that comes out whole is the body of the last successful fetch under its path, after which nothing was stored |
| RetroSessions.InfoSessionIsWalk | lib/client/retrovault.c:152-220 | a client session of INFO packets is the walk over the records of the package, as long as refreshes of the catalogue leave it as it is |
| RetroSessions.InfoSessionTraverses | lib/client/retrovault.c:152-220 | over the wire, for the first package with the id, up to letter case, while it stays the same over any refreshes of the catalogue: the client ends with every record once and in order if and only if there are at most 65535 |
| RetroSessions.InfoNotFound | lib/retrovault/retrovault_core.c:1469-1475 | an INFO packet is answered NOT_FOUND, with the catalogue at hand, exactly when no package has the id up to letter case |
| RetroServer.HandleListOrSearch | lib/retrovault/retrovault_core.c:1353-1436 | decoding, catalogue and page together, against the reply function |
| RetroServer.HandleInfo | lib/retrovault/retrovault_core.c:1438-1476 | the same for INFO, over the search loop: NOT_FOUND exactly when no package has the id (RetroSessions.InfoNotFound) |
| RetroServer.HandleDownload | lib/retrovault/retrovault_core.c:1478-1572 | the same for DOWNLOAD |
| RetroServer.HandleRequest | lib/retrovault/retrovault_core.c:1574-1629 | the whole request, against the reply function: new caches and reply bytes |
| Paths.SplitFirst | lib/filesystem/filesystem_core.c:103-148 | splitting a piece, a separator and a rest takes the piece off |
| Paths.SplitJoin | lib/retrovault/retrovault_core.c:1141-1219 | joining pieces without separators and splitting gives them back |
| Paths.JoinSplit | lib/filesystem/filesystem_core.c:103-148 | splitting gives pieces without separators, and joining those gives the text back |
| FsPath.PathIsValid | lib/filesystem/filesystem_core.c:103-148 | accepts exactly the paths of 1 to 240 bytes without NUL whose split has no empty, "." or ".." component (and the empty one when allowed), and leaves a terminated copy |
| FsPath.AdmittedExactly | docs/FILESYSTEM_PROTOCOL.md:16-18 | admitted are exactly the joins of components with slashes, up to 240 bytes, where no component is empty, ".", ".." or holds a slash or NUL; and the empty path where the request allows it |
| FsPath.TokensAreComponents | lib/filesystem/filesystem_core.c:176-193 | on an admitted path the strtok_r tokens are exactly the components |
| FsPath.WalkedComponents | lib/filesystem/filesystem_core.c:159-196 | the walk from the root visits exactly the component list |
| FsPath.ParentAndLeaf | lib/filesystem/filesystem_core.c:198-226 | the strrchr split takes off exactly the last component |
| FsList.FillVisible | lib/filesystem/filesystem_core.c:447-450 | a page does not depend on "." and ".." |
| FsList.FillTakes | lib/filesystem/filesystem_core.c:441-497 | without wrap-around a page is the run of records that fits, and its cursor the next number or the end |
| FsList.CursorBehind | lib/filesystem/filesystem_core.c:451-454 | a cursor at or behind the number of visible entries gets an empty last page |
| FsList.FittingLargest | lib/filesystem/filesystem_core.c:484-497 | the run of records that fits is the longest one that does |
| FsList.HiddenNames | lib/filesystem/filesystem_core.c:447-450 | not shown are exactly the entries named "." and ".." |
| FsList.FillWraps | lib/filesystem/filesystem_core.c:451-497 | what a page looks like when the 16-bit index wraps inside it |
| FsList.SmallWalk | lib/filesystem/filesystem_core.c:396-511 | with at most 65536 entries the client sees them page by page until the end or a page that begins with the end marker |
| FsList.BigWalk | lib/filesystem/filesystem_core.c:396-511 | with more entries no number of pages completes the listing |
| FsList.ListTraversal | lib/filesystem/filesystem_core.c:396-511 | with at most 65535 entries, names of at most 243 bytes and capacity 255, following cursors from 0 ends and shows every entry except "." and ".." once, in directory order |
| FsList.ReadableTraversal | lib/filesystem/filesystem_core.c:396-511 | for a directory that can be read to its end, with distinct names, the traversal is complete if and only if there are at most 65536 entries and, with exactly 65536, no page begins with entry 65535 |
| FsTraversal.PageFrom | lib/filesystem/filesystem_core.c:440-503 | for every stream, a page shows visible entries it took whose names fit, and one that does not end the listing stopped at an entry it does not show |
| FsTraversal.SeenAmong | lib/filesystem/filesystem_core.c:456-503 | whatever a client has seen shows entries with names that fit and a successful fstatat, and never the last one where the stream ends in an error |
| FsTraversal.ListTraversalExactly | lib/filesystem/filesystem_core.c:396-511 | for distinct names, of any length, the listing is complete if and only if every visible name has at most 243 bytes and every fstatat of one succeeds, the stream ends without error, there are at most 65536 entries and, with exactly 65536, no page begins with entry 65535 |
| FsTraversal.LongNameHides | lib/filesystem/filesystem_core.c:456-462 | a directory with one name of 244 bytes is never listed |
| FsList.EndMarker | lib/filesystem/filesystem_core.c:484-486 | a page that would begin with entry 65535 is never asked for |
| FsList.FullDirectoryCut | lib/filesystem/filesystem_core.c:484-486 | 65536 files with different names of 243 bytes are not listed completely |
| FsList.StatStopFails | lib/filesystem/filesystem_core.c:463-472 | where a failed fstatat ends the loop, no page is made and the loop's own status would be that of fstatat |
| FsList.ListReplyExactly | lib/filesystem/filesystem_core.c:463-472 | LIST answers as the loop ended if and only if no failed fstatat ended it, or the errno closedir leaves has the same status |
| FsList.WrongStatus | lib/filesystem/filesystem_core.c:463-472 | an entry refused with EACCES and a closedir that fails otherwise: IO_ERROR instead of ACCESS_DENIED |
| RootList.StaysMissed | lib/filesystem/filesystem_core.c:150-171 | an entry of the root that was read over unseen is never shown by a later request |
| RootList.RootTraversalExactly | lib/filesystem/filesystem_core.c:150-171 | however far the library reads ahead, the root is listed completely if and only if it can be read to its end, no visible entry was read before and all of them fit into one page |
| RootList.LastUnshown | lib/filesystem/filesystem_core.c:499-503 | where the stream ends in an error, the last visible entry is never shown |
| RootList.TwoLongNames | lib/filesystem/filesystem_core.c:150-171 | of two files with names of 243 bytes in the root the second is never listed |
| FsPage.FillPage | lib/filesystem/filesystem_core.c:440-503 | the readdir loop with its 16-bit index writes exactly the records of the page function, or returns its status, and tells which entry's failed fstatat ended it, if one did |
| Filesystem.ReadPathRequest | lib/filesystem/filesystem_core.c:314-337 | decodes a path field through the path buffer exactly as the decoding function, both ways |
| Filesystem.ReadWriteRequest | lib/filesystem/filesystem_core.c:640-663 | the same for the fields of WRITE |
| Filesystem.WriteMode | lib/filesystem/filesystem_core.c:665-670 | CREATE is bit 0 and TRUNCATE bit 1 of the sixth request byte |
| Filesystem.ReadRenameRequest | lib/filesystem/filesystem_core.c:786-807 | the same for the two paths of RENAME |
| Filesystem.ReadRefusal | lib/filesystem/filesystem_core.c:560-580 | READ goes on exactly for regular files of at most 2^32-1 bytes that reach the offset |
| Filesystem.FsContext.StepDown | lib/filesystem/filesystem_core.c:179-191 | opening a child closes the directory in any case and keeps the errno of the failed open |
| Filesystem.FsContext.OpenDirectoryPath | lib/filesystem/filesystem_core.c:159-196 | a new descriptor at exactly the place the path names, below the root by its components, or no descriptor and the errno of the call that failed |
| Filesystem.FsContext.OpenParentDirectory | lib/filesystem/filesystem_core.c:198-226 | the directory of the last component and that component |
| Filesystem.FsContext.LookAt | lib/filesystem/filesystem_core.c:359-376 | what the kernel says of exactly the place the path names, or the status of the call that failed; the parent is closed again |
| Filesystem.FsContext.HandleStat | lib/filesystem/filesystem_core.c:339-394 | STAT: descriptors unchanged on every branch, only places on the path touched; the reply carries what the kernel said of exactly that place, or the status of the call that failed |
| Filesystem.FsContext.HandleList | lib/filesystem/filesystem_core.c:396-511 | LIST: the same; the reply is the page of the directory stream or the loop's status, and after a failed fstatat the status of the errno closedir left |
| Filesystem.FsContext.HandleRead | lib/filesystem/filesystem_core.c:513-612 | READ: the same, with offset, total and the bytes pread returned for that place, offset and size |
| Filesystem.FsContext.HandleWrite | lib/filesystem/filesystem_core.c:614-710 | WRITE: the same; the named file is opened with CREATE exactly for bit 0 and TRUNCATE exactly for bit 1 of the flags byte, and gets the request's bytes at its offset at most once; every modifying call that was made, and whether it succeeded, is told by the call that failed; a read-only export is not touched |
| Filesystem.FsContext.WriteLeaf | lib/filesystem/filesystem_core.c:676-710 | the part of WRITE behind the open: a regular file gets the bytes, anything else is refused, and the file is closed again |
| Filesystem.FsContext.HandleMkdirOrDelete | lib/filesystem/filesystem_core.c:712-760 | MKDIR and DELETE: the same; the one modifying call names the path; DELETE removes as a directory exactly when the kernel has said of that place that it is one; OK is answered exactly when the call succeeded, and on failure it was made exactly when it is the call that failed |
| Filesystem.FsContext.HandleRename | lib/filesystem/filesystem_core.c:762-831 | RENAME: both parents closed on every branch; the one modifying call names both paths, OK is answered exactly when it succeeded, and on failure it was made exactly when it is the call that failed |
| Filesystem.FsContext.HandleCapabilities | lib/filesystem/filesystem_core.c:283-312 | announces the features of the export and the header sizes |
| Filesystem.FsContext.HandleChange | lib/filesystem/filesystem_core.c:833-884 | the four modifying requests together: descriptors kept, every modification licensed by the request bytes, none on a read-only export |
| Filesystem.FsContext.HandleRequest | lib/filesystem/filesystem_core.c:833-884 | whatever the request and the kernel's answers, the same descriptors are open afterwards, every place the path of a request makes the server name to the kernel, those of renameat included, is a strict descendant of the root, every modification is of such a place and licensed by the request bytes (opens for writing with the flag bits of WRITE, the bytes and offset of WRITE, directories made by MKDIR only, removed by DELETE only and as a directory exactly when the kernel said so, renamed by RENAME only), and a read-only export is never modified |
| ClientCalls.TextSize | lib/client/portable/internal.c:30-43 | the length of a C string, or an argument error exactly when it exceeds the maximum, without reading past the terminator |
| ClientCalls.BuildRetroList | lib/client/retrovault.c:29-66 | leaves the LIST packet behind the length byte, or an argument error exactly when a text is too long or the packet does not fit |
| ClientCalls.BuildRetroSearch | lib/client/retrovault.c:68-111 | the same for SEARCH |
| ClientCalls.BuildRetroInfo | lib/client/retrovault.c:152-188 | the same for INFO, which demands an id |
| ClientCalls.BuildRetroDownload | lib/client/retrovault.c:222-257 | the same for DOWNLOAD |
| ClientCalls.BuildPathCall | lib/client/filesystem.c:13-44 | the same for STAT, MKDIR and DELETE |
| ClientCalls.BuildFsList | lib/client/filesystem.c:82-106 | the same for filesystem LIST |
| ClientCalls.BuildFsRead | lib/client/filesystem.c:153-180 | the same for READ |
| ClientCalls.BuildFsWrite | lib/client/filesystem.c:199-230 | the same for WRITE |
| ClientCalls.BuildFsRename | lib/client/filesystem.c:273-298 | the same for RENAME |
| ClientCalls.Response | lib/client/portable/internal.c:58-84 | the code of the transaction, or the verdict on the payload received: protocol error, the server's status, or success for the right opcode and enough bytes |
| ClientCalls.ChunkExactly | lib/client/filesystem.c:188-196 | the reply check of READ and DOWNLOAD accepts exactly the packets the servers write for a chunk |
| ClientCalls.WriteReplyExactly | lib/client/filesystem.c:243-248 | the reply check of WRITE accepts exactly the answers to a write of that size at that offset |
| ClientCalls.FsRead | lib/client/filesystem.c:153-197 | succeeds exactly when the reply is a chunk; then the READ request is on the wire as one frame and the reply taken from the link is the server's packet for the returned chunk |
| TxRing.SendAppends | src/transport/serial/serial_transport.c:78-92 | a byte is appended to the contents, or refused exactly when the ring is full |
| TxRing.AdvanceDrops | src/transport/serial/serial_transport.c:255-272 | moving the head over a contiguous piece takes exactly these oldest bytes off, across the wrap |
| TxRing.FlushIsFifo | src/transport/serial/serial_transport.c:253-283 | for any writes, interrupts and refusals a flush hands over the oldest bytes in order and keeps the others |
| TxRing.FlushDrains | src/transport/serial/serial_transport.c:253-283 | a device that keeps taking bytes gets all of them and the head returns to the first cell |
| TxRing.FlushCases | src/transport/serial/serial_transport.c:253-283 | interrupted writes are repeated, one that would block ends the flush well, a broken one or one of no bytes ends it badly |
| TxRing.RingIsFifo | src/transport/serial/serial_transport.c:78-92 | after any interleaving of sends and flushes, accepted bytes are written bytes followed by the contents, and the next byte is refused exactly when 4096 are waiting |
| TxRing.SerialTransport.SendChar | src/transport/serial/serial_transport.c:78-92 | the array version, against the ring function |
| TxRing.SerialTransport.FlushOutput | src/transport/serial/serial_transport.c:253-283 | the write loop, against the flush function, and it terminates with the device's script |
| TxRing.SerialTransport.PendingOutput | src/transport/serial/serial_transport.c:324-329 | the number of bytes waiting |
| TcpHosts.HostIsValid | lib/tcp_proxy/tcp_proxy_core.c:164-181 | accepts exactly the names of 1 to 240 bytes without NUL, space, slash or backslash, and leaves a terminated copy |
| TcpHosts.HostExactly | lib/tcp_proxy/tcp_proxy_core.c:164-181 | good hosts have 1 to 240 bytes, none of them NUL, one of the six blanks, slash or backslash |
| TcpHosts.TrimExactly | lib/tcp_proxy/tcp_proxy_core.c:135-147 | trimming takes off blanks, and all of them |
| TcpHosts.AllowedExactly | lib/tcp_proxy/tcp_proxy_core.c:121-162 | admitted by the empty list, by a star, and by a list of items joined with commas of which one, trimmed, is the host up to letter case |
| TcpHosts.NamedFrom | lib/tcp_proxy/tcp_proxy_core.c:134-160 | a list names a host exactly when its first item or the list behind its comma does |
| TcpHosts.SkipLeft | lib/tcp_proxy/tcp_proxy_core.c:135-140 | the loop over blanks ends where the left-trimmed item begins |
| TcpHosts.NextItem | lib/tcp_proxy/tcp_proxy_core.c:135-147 | the scanning loops find the item up to the next comma, trimmed |
| TcpHosts.HostIsAllowed | lib/tcp_proxy/tcp_proxy_core.c:121-162 | a host passes if and only if the list is empty or a star, or it equals a trimmed item of the comma split up to letter case |
| TcpProxy.TcpContext.constructor | lib/tcp_proxy/tcp_proxy_core.c:54-88 | no stream at first, the timeouts defaulted and clamped, and the list cut to its buffer |
| TcpProxy.TcpContext.CloseConnection | lib/tcp_proxy/tcp_proxy_core.c:46-52 | afterwards no socket is open |
| TcpProxy.TcpContext.ConnectSocket | lib/tcp_proxy/tcp_proxy_core.c:228-263 | a socket counts as connected exactly when every call on it succeeded, or connecting was in progress and the wait and the error check succeeded |
| TcpProxy.ConnectedExactly | lib/tcp_proxy/tcp_proxy_core.c:228-263 | the two sequences of answers, call by call, under which a socket is connected |
| TcpProxy.TcpContext.ConnectAddress | lib/tcp_proxy/tcp_proxy_core.c:216-266 | a new connected socket, or none and nothing left behind, exactly as the network's answers say |
| TcpProxy.TcpContext.ConnectAny | lib/tcp_proxy/tcp_proxy_core.c:340-348 | over any address list, tried in order: one new socket and the family of the first address that connected, or nothing after all of them failed |
| TcpProxy.ReadConnectRequest | lib/tcp_proxy/tcp_proxy_core.c:312-322 | decodes port and host through the host buffer exactly as the decoding function |
| TcpProxy.TcpContext.HandleConnect | lib/tcp_proxy/tcp_proxy_core.c:292-372 | only a connected new stream replaces the old one; every failure leaves the old stream untouched and nothing else open, with its status; after failed attempts the status is that of the errno the last one left |
| TcpProxy.TimeoutExactly | lib/tcp_proxy/tcp_proxy_core.c:240-260 | the status tells the reason of the last attempt if and only if no socket was made or closing it turned errno neither into nor away from ETIMEDOUT |
| TcpProxy.MissedTimeout | lib/tcp_proxy/tcp_proxy_core.c:240-246 | a wait that runs out, after which closing the socket leaves another errno, is reported as CONNECT_FAILED |
| TcpProxy.TcpContext.HandleWrite | lib/tcp_proxy/tcp_proxy_core.c:374-434 | exactly as poll and send answered: the bytes the reply counts went out over the active stream and no others; an I/O error closes it, a timeout does not |
| TcpProxy.TcpContext.HandleRead | lib/tcp_proxy/tcp_proxy_core.c:436-519 | exactly as poll and recv answered: the reply carries the bytes received; end of stream and I/O error close it; with room behind the header a stream is closed as ended only when it has ended |
| TcpProxy.ReadRoomExactly | lib/tcp_proxy/tcp_proxy_core.c:489-495 | recv is asked for something if and only if the packet has room behind the header |
| TcpProxy.TcpContext.ReadStream | lib/tcp_proxy/tcp_proxy_core.c:474-518 | the wait and what came in, against the network's answers |
| TcpProxy.TcpContext.Receive | lib/tcp_proxy/tcp_proxy_core.c:497-518 | the part of READ behind the wait |
| TcpProxy.TcpContext.HandleStatus | lib/tcp_proxy/tcp_proxy_core.c:521-535 | reports whether there is an active stream |
| TcpProxy.TcpContext.HandleCapabilities | lib/tcp_proxy/tcp_proxy_core.c:268-290 | announces version, features and limits |
| TcpProxy.TcpContext.HandleRequest | lib/tcp_proxy/tcp_proxy_core.c:537-599 | after every request the open sockets are the active stream or none; a failed CONNECT changes nothing, and IO_ERROR, end of stream and CLOSE leave none |
| ProtocolTables.FrameLayout | src/runtime/server_runtime.c:290-328 | a packet travels behind its length, in one byte |
| ProtocolTables.ListLayout | docs/RETROVAULT_PROTOCOL.md:134-143 | LIST by offsets: opcode 1, cursor, platform, and the model only if there is one |
| ProtocolTables.SearchLayout | docs/RETROVAULT_PROTOCOL.md:192-201 | SEARCH by offsets: opcode 2, cursor, platform, query, and the model only if there is one |
| ProtocolTables.InfoLayout | docs/RETROVAULT_PROTOCOL.md:214-221 | INFO by offsets: opcode 3, cursor, id |
| ProtocolTables.DownloadLayout | docs/RETROVAULT_PROTOCOL.md:302-313 | DOWNLOAD by offsets: opcode 4, offset, limit, package id, download id |
| ProtocolTables.FsListLayout | docs/FILESYSTEM_PROTOCOL.md:123-128 | filesystem LIST by offsets |
| ProtocolTables.FsReadLayout | docs/FILESYSTEM_PROTOCOL.md:163-169 | READ by offsets |
| ProtocolTables.FsWriteLayout | docs/FILESYSTEM_PROTOCOL.md:197-205 | WRITE by offsets |
| ProtocolTables.FsPathLayout | docs/FILESYSTEM_PROTOCOL.md:93-97 | STAT, MKDIR and DELETE with their path, and RENAME with the old path in front of the new one |
| ProtocolTables.ConnectLayout | docs/TCP_PROXY_PROTOCOL.md:89-94 | CONNECT is taken exactly from a packet with a port other than 0 and a good host that fills it |
| ProtocolTables.TcpWriteLayout | docs/TCP_PROXY_PROTOCOL.md:125-129 | TCP WRITE is taken exactly from a packet with 1 to 253 data bytes that fill it |
| ProtocolTables.EntryLayout | docs/RETROVAULT_PROTOCOL.md:160-167 | entries of LIST and SEARCH by offsets |
| ProtocolTables.TlvLayout | docs/RETROVAULT_PROTOCOL.md:233-240 | values of INFO by offsets |
| ProtocolTables.FileLayout | docs/FILESYSTEM_PROTOCOL.md:147-152 | entries of a directory by offsets |
| ProtocolTables.StatLayout | docs/FILESYSTEM_PROTOCOL.md:101-111 | the STAT answer by offsets: type 1, 2 or 3, nine mode bits, the size of a file or all ones, and the time or 0 |
| ProtocolTables.ChunkLayout | docs/FILESYSTEM_PROTOCOL.md:179-186 | chunks of READ and DOWNLOAD by offsets |
| ProtocolTables.WriteAnswerLayout | docs/FILESYSTEM_PROTOCOL.md:214-219 | the answer to WRITE by offsets |
| ProtocolTables.RetroTable | docs/RETROVAULT_PROTOCOL.md:73-93 | CAPABILITIES of Retro Vault by offsets, with as many data bytes as the packet has behind the chunk header; unknown opcodes are answered BAD_REQUEST and fetch nothing |
| ProtocolTables.FsStatusTable | lib/filesystem/filesystem_core.c:56-85 | which errors become which status, by number |
| ProtocolTables.ReadRefusalTable | lib/filesystem/filesystem_core.c:560-580 | why READ refuses, by number: directory 4, other object 5, beyond 32 bits 7, offset past the end 1 |
| ProtocolTables.FillRefuses | lib/filesystem/filesystem_core.c:456-483 | LIST answers 7 for a name that no record or not even an empty page holds |
| ProtocolTables.TcpTable | lib/tcp_proxy/tcp_proxy_core.c:54-88 | timeouts default to 5000 ms and are cut at 60000; families 4 and 6; a failed CONNECT is 6 or 4 |
| ProtocolTables.ConnectTable | lib/tcp_proxy/tcp_proxy_core.c:312-339 | the status of a CONNECT, by the first check it does not pass |
| ProtocolTables.JudgeTable | lib/tcp_proxy/tcp_proxy_core.c:398-425 | what WRITE and READ make of a wait and of the send or recv behind it, case by case |
| ProtocolTables.ClientTable | lib/client/portable/internal.c:58-84 | the client's codes by number, and the verdict on a reply as three if-and-only-ifs |

## Left out

- libsquid itself (bursts, checksums, retransmission): its sends take all bytes or none, its receives hand over any number of the bytes that arrived, in order.
- The effect of link loss on the libsquid queues: the link-loss reset of the server is modelled, the protocol runs are those of one link epoch.
- A port whose plugin has no handler, which keeps its complete request for ever: every port here has a handler.
- HTTP over libcurl: an exchange is any result, status and body; the bodies the response buffer admits are modelled.
- Daemon, signals, logging, configuration, plugin loading, termios, poll and Unix socket setup: input and output plumbing.
- The time, echo and squidsys plugins, the TCP client calls and the client calls around one exchange that only fix sizes: they would only add easy members.
- Z80 assembly and the Spectrum Interface 1 driver: timing and calling conventions.
- Memory allocation failure, except in the response buffer, where it must leave the contents as they are.
- Update in place of the catalogue and of the cached download: the context object replaces whole values.
- LIST on the empty path: the filesystem handler is given the stream from where it stands; how that position moves from request to request is in RootList, and the traversal results of FsList are about non-empty paths.
- Filesystem.FsContext.HandleRequest: does not log the names LIST passes to fstatat, because they are not the client's but those of the given directory stream.
- readdir and fstatat inside LIST are one given stream of entries with their results; changes of the directory between requests are not modelled.
- The literal and number tests of the JSON parser are loops over a few bytes in the source and functions here.
- The branch of the INFO page writer for a record that cannot be made is shown to be unreachable and carries no reply.
- Timeouts: a wait is given its duration and ends with ready, nothing or an error; no clock measures it.
