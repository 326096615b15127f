# MouseHero server: a verified model

This project models the parts of the C server where correctness is hardest to see, and proves what they are
for. Everything is stated for all inputs, all ways the environment may cut a stream into pieces, and all
runs. `dafny verify dfyconfig.toml` checks it.

- **The MessagePack engine** (`server/src/mpack`). `MessagePack` is a reference grammar: a recursive decoder
  that says what the bytes of the MessagePack formats mean. Everything else is measured against it.
  - `Encoding`: the write functions as byte strings, with round trips and minimality.
  - `Utf8`: the UTF-8 check against scalar values (RFC 3629).
  - `Reader`: the buffered reader over a stream that comes in arbitrary pieces, the expect functions and
    `mpack_discard`.
  - `NodeStore`, `TreeParser`, `TreeStream`: the stack-driven, resumable tree parser with its reservation
    counter and its node pages.
  - `GrowableWriter`: the writer over a buffer that doubles.
  - `WriterCalls`: the write API as sequences of calls. It says what the tracking stack accepts, what a writer
    with open builds means when there are no pages, which documents calls spell, and that builds are
    transparent.
  - `BuilderLayout`, `BuilderInvariant`, `Builder`: the paged builder, and that it refines that meaning.
  - `Tracking`, `TrackedWriter`: the tracking stack, and the whole writer with tracking, builder and growable
    buffer.
- **The event protocol** (`ya_event.c`). `Events` says what a frame is and what parsing makes of any bytes;
  `EventCodec` does it on the writer and reader above.
- **The client table and the session server** (`ya_client_manager.c`, `ya_server_session.c`). `ClientTable` is
  the 251-bucket chained table with reference counts; `Session` has the libevent callbacks as steps.
- **The input path.** `CommandIndex` is the command-index filter; `Mouse` the throttle and the sub-pixel
  quantisation.
- **The configuration store** (`ya_config.c`). `ConfigText` is the text format, `ConfigDocument` what files mean
  as people write them, `Config` the store.

The environment is a parameter: how much a read delivers (`Reader.Source`), when callbacks run
(`Session.Step`, `Events.Serve`), which operations the client table sees (`ClientTable.Op`), the clock and the
acceleration gain (`Mouse`), the text of the configuration file, and the memory behind a buffer
(the parameter `beyond` of `Events`).

## What the proofs found

These are results about the code as it is. Each comes with the exact condition under which the code behaves,
and, where that is not plain to see, with an input that breaks it.

- A message header is written with unsigned and read with signed numbers. Uids and indices from 2^31 on are
  rejected, and the stream is out of step afterwards (`Events.EventRoundTrip`).
- One read callback handles one frame. However a stream is cut up, and however long it gets, the events handled
  are the first ones sent (`Events.ServedInOrder`). All that have arrived are handled by the last callback only if
  no final run of callbacks completes more frames than it has callbacks; and then they are, unless a callback
  finds 2^32 bytes or more (`Events.AllHandledExactly`). Two frames in one chunk are the simplest stream for which
  they are not (`Events.SecondFrameWaits`).
- The number of waiting bytes is compared modulo 2^32: a frame that is there goes unnoticed if and only if that
  remainder is less than the frame (`Events.EventRoundTrip`).
- The two sizes in front of a frame need not agree. The length given to the payload parser stays inside what
  has been delivered if and only if the first size is at least the second one plus 4 and below 2^32 - 4
  (`Events.ParserStaysInside`); a frame whose first size is 4 makes the body size wrap, and everything that has
  arrived is dropped with it (`Events.WrappedBodySize`).
- The text parsers allocate with a 32-bit sum. The block holds the text and its NUL if and only if the length is
  below 2^32 - 1 (`Events.BlockHoldsExactly`).
- A closed connection leaves its client in the table for good: closing sets DISCONNECTING, and only
  DISCONNECTED clients are ever freed (`Session.Server.Close`, `Session.Server.BetweenCallbacks`).
- Quotes do not protect comment signs in a configuration value. It is read as meant if and only if none is in it
  (`ConfigDocument.QuotesExactly`); otherwise it is cut there, and keeps its opening quote.
- A configuration line of more than 255 characters does not survive saving and loading, although key and value
  fit their buffers (`ConfigText.RoundTrip`). A value set under a name that is too long cannot be read back
  (`Config.GetAfterSet`).
- The tree parser computes the size of a map node with a 32-bit product, which is right exactly for maps of
  fewer than 2^31 pairs (`TreeParser.NodeSizeExact`). Over a whole parse it reads type bytes where the grammar
  has objects if and only if no such map is met along the way (`TreeParser.ReadsInStep`); after the smallest one
  that is met, it goes on 2^32 bytes too far (`TreeParser.SmallestMisread`). The results about whole parses hold
  under that condition, which every stream of up to 2^32 bytes meets.
- A build counts its elements in 32 bits, which is right exactly below 2^32 (`WriterCalls.BuildCountExact`).
  Builders and tracking work the same without that bound; what is written then carries the count modulo 2^32
  (`WriterCalls.Transparent`).

## Model

| member | source | states |
|---|---|---|
| Bytes.LoadStore | server/src/mpack/mpack.h:2688-2775 | loading a stored number returns it, for every width the number fits |
| Bytes.StoreLoad | server/src/mpack/mpack.h:2688-2775 | storing a loaded number gives the same bytes, so the big-endian form is unique |
| Bytes.BigEndian | server/src/mpack/mpack.h:2688-2775 | the most significant byte comes first, in numbers of 1, 2, 4 and 8 bytes |
| MessagePack.DecodeManySplit | server/src/mpack/mpack.c:3757-3798 | in the reference grammar, reading m objects and then n more is reading m + n, which is why elements can be counted down |
| MessagePack.DecodeUnfold | server/src/mpack/mpack.c:5655-5725 | taking one object apart, with its elements next in line, neither loses nor adds an object: recursion and the pending list agree |
| MessagePack.DecodePrefix | server/src/mpack/mpack.c:5748-5796 | an object is determined by its own bytes: more bytes behind it change nothing, and it is not recognised before they are all there |
| Encoding.ShortFormats | server/src/mpack/mpack.c:3347-3698 | what every one-byte format of MessagePack says; the reserved byte and the ext formats say nothing |
| Encoding.Formats8 | server/src/mpack/mpack.c:3347-3698 | uint, bin and str formats with an argument of one byte hold any such number, also where a shorter format could |
| Encoding.Formats16 | server/src/mpack/mpack.c:3347-3698 | likewise for two bytes, with arrays and maps |
| Encoding.Formats32 | server/src/mpack/mpack.c:3347-3698 | likewise for four bytes, with floats |
| Encoding.Formats64 | server/src/mpack/mpack.c:3347-3698 | likewise for eight bytes, with doubles |
| Encoding.SignedFormats | server/src/mpack/mpack.c:3347-3698 | signed numbers of one and two bytes, negative or not, are two's complement |
| Encoding.WideSignedFormats | server/src/mpack/mpack.c:3347-3698 | signed numbers of four and eight bytes likewise |
| Encoding.WritersAgree | server/src/mpack/mpack.c:1865-2023 | every integer writer that can take a number emits the same bytes for it, whatever its C type |
| Encoding.IntegerRoundTrip | server/src/mpack/mpack.c:1865-2023 | reading back what an integer writer wrote yields the number, and spans exactly the bytes written, from -2^63 to 2^64-1 |
| Encoding.IntegerMinimal | server/src/mpack/mpack.c:1623-1681 | no integer tag of the MessagePack grammar that denotes the number is shorter than what is written |
| Encoding.TagRoundTrip | server/src/mpack/mpack.c:1546-1590 | every tag (nil, bool, numbers, str, bin, array and map headers) reads back as itself and spans exactly its bytes |
| Encoding.TagMinimal | server/src/mpack/mpack.c:2077-2148 | no tag of the grammar with the same meaning, headers included, is shorter than the written one |
| Encoding.EncodeAllConcat | server/src/mpack/mpack.c:1546-1590 | encoding a sequence of values is encoding its parts one after the other |
| Encoding.DecodeEncodeAll | server/src/mpack/mpack.c:1546-2260 | wherever encoded values stand in a byte string, the reference decoder returns them all, in order, and stops right behind them |
| Utf8.FirstScalarUnique | server/src/mpack/mpack.c:822-910 | no UTF-8 encoding of a scalar value is a prefix of another one |
| Utf8.TextUnique | server/src/mpack/mpack.c:822-910 | a byte string encodes at most one sequence of scalar values (section 4 of RFC 3629) |
| Utf8.TextStep | server/src/mpack/mpack.c:822-910 | removing one encoded scalar value from the front neither makes nor breaks text |
| Utf8.Utf8Check | server/src/mpack/mpack.c:822-910 | the check accepts exactly the concatenated encodings of scalar values: no overlong forms, no surrogates, nothing above 10FFFF; without NUL exactly those without U+0000 |
| Reader.Reader.FlagError | server/src/mpack/mpack.c:2979-2988 | only the first error is kept, and from then on the buffer is empty |
| Reader.Reader.FillRange | server/src/mpack/mpack.c:2992-3014 | whatever pieces the fill function delivers, the bytes are the next ones of the stream, between min and max of them; it fails exactly when the stream ends before min |
| Reader.Reader.Ensure | server/src/mpack/mpack.c:3016-3056 | succeeds exactly if that many bytes are left and can be buffered, without moving the cursor; each failure has its own error |
| Reader.Reader.ReadStraddle | server/src/mpack/mpack.c:3060-3128 | a read across the end of the buffer delivers what a flat cursor would; without fill function a failing read leaves zeros |
| Reader.Reader.ReadNative | server/src/mpack/mpack.h:5235-5244 | succeeds exactly if the stream holds the bytes, delivers those of a flat cursor for every chunking, and after an error consumes nothing |
| Reader.Reader.ReadInplace | server/src/mpack/mpack.c:3311-3328 | the bytes in the buffer are those at the flat cursor; succeeds exactly if they are in the stream and fit the buffer |
| Reader.Reader.SkipBytes | server/src/mpack/mpack.c:3130-3205 | moves the flat cursor by exactly that many bytes, or fails because the stream is shorter |
| Reader.Reader.ParseTag | server/src/mpack/mpack.c:3347-3697 | finds a tag exactly if the grammar has one at the cursor, with its value and size; the cursor stays; the error tells the end of the input, the reserved byte and ext types apart |
| Reader.Reader.ReadTag | server/src/mpack/mpack.c:3699-3740 | succeeds exactly on a tag of the grammar and moves behind it; any failure yields nil and moves nothing; an earlier error is kept and nothing is consumed |
| Reader.Reader.DiscardElements | server/src/mpack/mpack.c:3776-3784 | skipping n elements succeeds exactly if n objects stand there, and ends behind them |
| Reader.Reader.DiscardPairs | server/src/mpack/mpack.c:3785-3794 | skipping n pairs succeeds exactly if 2n objects stand there, and ends behind them |
| Reader.Reader.Discard | server/src/mpack/mpack.c:3757-3798 | succeeds exactly if the reference decoder finds a complete object at the cursor, and then stands right behind it |
| Reader.Reader.ExpectInteger | server/src/mpack/mpack.c:4137-4211 | accepts exactly the integers within the bounds of the type, in whatever encoding, and otherwise yields 0 |
| Reader.Reader.ExpectArray | server/src/mpack/mpack.c:4446-4452 | accepts exactly an array header and returns its count |
| Reader.Reader.ExpectStr | server/src/mpack/mpack.c:4526-4555 | accepts exactly a str header, although lead byte and length are read separately |
| TreeParser.NodeSizeExact | server/src/mpack/mpack.c:5664-5677 | the 32-bit product in the size of a map node is harmless exactly for maps of fewer than 2^31 pairs |
| TreeParser.ShortStreamsFit | server/src/mpack/mpack.c:5664-5677 | no input of up to 2^32 bytes can hold a larger map, so no parse of one meets it |
| TreeParser.ReadsInStep | server/src/mpack/mpack.c:5655-5725 | over a whole parse, by the parser's own arithmetic, type bytes are read exactly where the grammar has objects, if and only if no map along the way has 2^31 or more pairs |
| TreeParser.SmallestMisread | server/src/mpack/mpack.c:5664-5677 | on a map of 2^31 pairs with its elements behind it, the second type byte is read behind all of them instead of at the first one |
| TreeParser.TypeByteStep | server/src/mpack/mpack.c:5655-5725 | that arithmetic, one node at a time, whatever maps there are |
| TreeParser.NodeSizeFits | server/src/mpack/mpack.c:5655-5677 | at a node of such a parse, the position moves exactly behind tag and payload, and the condition carries over to the rest |
| TreeParser.BytesNeeded | server/src/mpack/mpack.c:5083-5110 | n objects take the first tag, its payload and elements, and a byte for each other object: a failed reservation means the message is incomplete |
| TreeParser.Tree.ReserveFill | server/src/mpack/mpack.c:4984-5066 | delivers until the current node is covered; without error it fails only because the read function had nothing to give, and all bytes delivered are kept |
| TreeParser.Tree.ReserveBytes | server/src/mpack/mpack.c:5083-5110 | success means the node has its bytes next to everything promised before; failure means it does not, with an error only on a flat buffer |
| TreeParser.Tree.AllocateChildren | server/src/mpack/mpack.c:5198-5252 | the nodes handed out lie in one page, are nobody else's, and stay apart from all that will be handed out later |
| TreeParser.Tree.ReserveNode | server/src/mpack/mpack.c:5278-5653 | a node that can be reserved has its tag, payload and a byte for each child in bounds; otherwise the message is incomplete or invalid |
| TreeParser.Tree.ParseNode | server/src/mpack/mpack.c:5655-5685 | whatever maps there are, one node moves the position by its node size, and a flat buffer is read on where the parser's arithmetic says, or not at all; at a node that fits, the accounting is kept (possible nodes + size + sum of left == data length) and exactly its children are on the stack; a pause leaves the state as if nothing had been asked |
| TreeParser.Tree.PopLevels | server/src/mpack/mpack.c:5719-5723 | popping empty levels leaves the pending nodes as they are, and ends the parse exactly if there are none |
| TreeParser.Tree.ParseNext | server/src/mpack/mpack.c:5702-5724 | one round takes at least one byte and keeps the accounting, pauses with it intact, or fails only where no object stands; for parses that meet no map of 2^31 pairs |
| TreeParser.Tree.ContinueParsing | server/src/mpack/mpack.c:5692-5725 | the stack-driven loop ends with nodes that spell the recursively decoded object and a size of exactly its bytes; node count is at most the size on a flat buffer; for parses that meet no map of 2^31 pairs |
| TreeParser.Tree.NextMessage | server/src/mpack/mpack.c:5748-5796 | the next message starts right behind the one parsed before, with the rest of the data still there |
| TreeParser.Tree.TryParse | server/src/mpack/mpack.c:5870-5885 | the outcome is that of the reference decoder on the bytes delivered so far: the next object if complete, not yet if incomplete, an error only if no continuation makes it an object; for parses that meet no map of 2^31 pairs (`Fits`) |
| TreeParser.Tree.Parse | server/src/mpack/mpack.c:5839-5868 | succeeds exactly if the delivered bytes hold a complete object, whose nodes and size are the decoder's; for parses that meet no map of 2^31 pairs |
| NodeStore.PendingCount | server/src/mpack/mpack.h:6934-6952 | the sum of `left` over the stack is the number of pending nodes |
| NodeStore.SteeringStep | server/src/mpack/mpack.c:5278-5725 | filling in one node and handing out its children keeps all nodes on their way to the value of the message |
| NodeStore.OnTrackEnd | server/src/mpack/mpack.c:5692-5725 | when nothing is pending, the nodes spell the whole object |
| TreeStream.ParseStream | server/src/mpack/mpack.c:5870-5885 | repeated calls over a stream in any chunks, with pauses anywhere, yield the trees of the messages of the whole concatenation, in order and none missing; each call yields one exactly if the next message is complete by then; for messages that meet no map of 2^31 pairs |
| TreeStream.Call | server/src/mpack/mpack.c:5870-5885 | one call between two messages or within one: it has a tree exactly if the bytes delivered by then hold one more message, and it is that of the message |
| TreeStream.ShortStreamsAllFit | server/src/mpack/mpack.c:5664-5677 | every stream of up to 2^32 bytes is of that kind |
| TreeStream.ParseAndDiscard | server/src/mpack/mpack.c:3757-3798 | on a flat buffer whose parse meets no map of 2^31 pairs, the tree parser and mpack_discard succeed on the same inputs, exactly those that start with a complete object, and take the same bytes |
| GrowableWriter.Writer.Grow | server/src/mpack/mpack.c:1151-1191 | the doubling loop ends with room for the new data and keeps what was written |
| GrowableWriter.Writer.Flush | server/src/mpack/mpack.c:1130-1191 | the three uses of the flush function: growing in place, appending what does not fit, and doing nothing at teardown |
| GrowableWriter.Writer.Ensure | server/src/mpack/mpack.c:1368-1405 | always makes room, and keeps what was written |
| GrowableWriter.Writer.WriteNative | server/src/mpack/mpack.c:1411-1483 | appends, whether the bytes fit, straddle or exceed the buffer |
| GrowableWriter.Writer.WriteEncoded | server/src/mpack/mpack.c:1858-1863 | appends an encoded tag in one piece |
| GrowableWriter.Writer.Destroy | server/src/mpack/mpack.c:1193-1228 | the caller gets exactly the bytes written, in a block that is never empty and no larger than the buffer was |
| WriterCalls.NestedNotCounted | server/src/mpack/mpack.c:1030-1045 | inside a sized container the elements are not counted by the build around it |
| WriterCalls.FreshCount | server/src/mpack/mpack.c:1030-1045 | a build counts its elements, or its pairs, and remembers an open key |
| WriterCalls.EmitEmit | server/src/mpack/mpack.c:2466-2481 | bytes written in pieces are bytes written at once, and counting does not interfere |
| WriterCalls.Transparent | server/src/mpack/mpack.c:2320-2356 | whatever mix and nesting of built and sized containers, whatever their sizes, and whatever builds are open around it, writing a document counts as one element and appends exactly what sized containers would have written, with the counts of builds modulo 2^32 |
| WriterCalls.WrittenEncodes | server/src/mpack/mpack.c:2320-2356 | builder transparency: that is the encoding of the document's value, with all counts known up front, if no build reaches 2^32 elements |
| WriterCalls.TransparentBuild | server/src/mpack/mpack.c:2726-2763 | a completed build is the same bytes as a container whose size was known |
| WriterCalls.TransparentSized | server/src/mpack/mpack.h:3725-3746 | a sized container inside builds leaves their counts as if it were one element |
| WriterCalls.BuildCountExact | server/src/mpack/mpack.c:1034-1043 | the count of a build, a 32-bit field, is right exactly if it is below 2^32 |
| WriterCalls.CompleteExactly | server/src/mpack/mpack.c:2726-2763 | a build can be completed exactly with its own type, with a value for each key and with nothing open inside |
| Tracking.ReadDocs | server/src/mpack/mpack.c:654-747 | calls that the tracking stack accepts split into documents that complete the innermost container, the call that closes it, and the rest |
| Tracking.DocTracked | server/src/mpack/mpack.c:704-747 | the calls of a document count as one element for the tracking stack and leave nothing open |
| Tracking.AcceptedIffDocs | server/src/mpack/mpack.c:613-808 | the tracking stack takes calls from empty to empty exactly if they write whole documents, map parity and chunked strings included |
| Tracking.TrackedOutput | server/src/mpack/mpack.c:994-1028 | such calls, however many, never fail in the builder, leave no build open, and append complete objects; these decode to the values written, if no build reaches 2^32 elements |
| BuilderLayout.AbandonedPagesHoldNoBuild | server/src/mpack/mpack.c:2542-2588 | a page is given up for a write or a build exactly when the resolver would find no room for a build in it; this rests on the build size being at least the minimum buffer |
| BuilderLayout.SpanFrame | server/src/mpack/mpack.c:2592-2724 | the bytes between two places depend only on the pages up to the second one |
| BuilderLayout.EmptySpanSameSlot | server/src/mpack/mpack.c:2691-2715 | where nothing is left to copy, every place up to the end of the data leads to the same next build |
| BuilderLayout.FramesPut | server/src/mpack/mpack.c:2466-2481 | bytes behind the last build, completed or not, belong to the innermost open build |
| BuilderLayout.FramesComplete | server/src/mpack/mpack.c:2750-2762 | switching to the parent build is putting header and contents behind what the parent has |
| BuilderInvariant.LaidOutPut | server/src/mpack/mpack.c:1411-1444 | writing in a page keeps all builds and their bytes where they are |
| BuilderInvariant.LaidOutPage | server/src/mpack/mpack.c:2446-2461 | a new page keeps them, and the last build's bytes go on there |
| BuilderInvariant.LaidOutBuild | server/src/mpack/mpack.c:2542-2575 | a new build stands at the aligned place behind the last bytes |
| BuilderInvariant.PlacesApart | server/src/mpack/mpack.c:2542-2575 | no byte of a page belongs to two builds or to both a record and data, and everything from the write position on is free |
| BuilderInvariant.SpanOfPlaces | server/src/mpack/mpack.c:2658-2689 | the data between two places is made of their bytes and of no others |
| BuilderInvariant.LaidOutOverlaid | server/src/mpack/mpack.c:2542-2575 | whatever is stored into a build's record, in the page itself, all builds and their bytes stay where they are |
| BuilderInvariant.RecordedCount | server/src/mpack/mpack.c:1030-1045 | counting changes the record of the current build alone |
| BuilderInvariant.FoundAgain | server/src/mpack/mpack.c:2691-2715 | redoing the alignment arithmetic finds every build in order of creation, and stops behind the last |
| BuilderInvariant.SpanStep | server/src/mpack/mpack.c:2658-2689 | each step of the copying loop takes the rest of a page or all that is left |
| Builder.BuildWriter.ApplyWrites | server/src/mpack/mpack.c:2466-2481 | page and latest build account for everything written |
| Builder.BuildWriter.AddPage | server/src/mpack/mpack.c:2446-2461 | what the open builds mean stays the same |
| Builder.BuildWriter.Flush | server/src/mpack/mpack.c:2483-2488 | there is a page's room again, and nothing else has changed |
| Builder.BuildWriter.Ensure | server/src/mpack/mpack.c:1368-1405 | makes room for a tag, in a page or in the real buffer, and changes nothing |
| Builder.BuildWriter.Straddle | server/src/mpack/mpack.c:1424-1444 | bytes across any number of pages are appended to the innermost open build |
| Builder.BuildWriter.WriteNative | server/src/mpack/mpack.c:1474-1483 | appends to the innermost open build or to the finished bytes |
| Builder.BuildWriter.WriteStr | server/src/mpack/mpack.c:2202-2255 | all branches append header and bytes |
| Builder.BuildWriter.TrackElement | server/src/mpack/mpack.c:1021-1047 | counts as the machine of WriterCalls does |
| Builder.BuildWriter.CompoundPush | server/src/mpack/mpack.h:3725-3734 | one more sized container is open in the current build |
| Builder.BuildWriter.CompoundPop | server/src/mpack/mpack.h:3736-3746 | one fewer |
| Builder.BuildWriter.Build | server/src/mpack/mpack.c:2524-2589 | counts as an element and opens an empty build, wherever it falls in the pages |
| Builder.BuildWriter.CopyBytes | server/src/mpack/mpack.c:2658-2689 | the copying loop writes exactly the bytes behind a build, over any number of pages |
| Builder.BuildWriter.WriteBuilds | server/src/mpack/mpack.c:2640-2716 | the walk writes every build's tag with its final count and its bytes, in order of creation, each once |
| Builder.BuildWriter.Resolve | server/src/mpack/mpack.c:2592-2724 | the finished bytes gain everything the builds held, and no build is left |
| Builder.BuildWriter.Complete | server/src/mpack/mpack.c:2726-2763 | refuses a half-written pair, an unfinished container or the wrong type and changes nothing; otherwise header and contents join what encloses the build |
| TrackedWriter.Tracker.Push | server/src/mpack/mpack.c:597-652 | the stack gains the element, through the doubling of its array |
| TrackedWriter.Tracker.Pop | server/src/mpack/mpack.c:654-694 | takes off exactly a matching, finished element |
| TrackedWriter.Tracker.PeekElement | server/src/mpack/mpack.c:704-727 | allows an element exactly where one may stand |
| TrackedWriter.Tracker.CountElement | server/src/mpack/mpack.c:729-747 | counts an element or a key, or refuses and changes nothing |
| TrackedWriter.Tracker.CountBytes | server/src/mpack/mpack.c:749-780 | counts bytes of an open str or bin, or refuses and changes nothing |
| TrackedWriter.Writer.Perform | server/src/mpack/mpack.c:994-1047 | every call does to stack and output what the specification says, or flags an error exactly when that has no answer |
| TrackedWriter.Writer.PerformAll | server/src/mpack/mpack.c:994-1047 | a run of calls ends without error exactly where the specification's run does, in the same state |
| TrackedWriter.Writer.WriteDocuments | server/src/mpack/mpack.c:2320-2356 | transparency and tracking together, on the paged builder: without error and with nothing open, the writer holds the objects written, encoded with all counts known, and they decode to the same values; and this happens exactly for calls that write whole documents. Only the encoding asks that no build reaches 2^32 elements |
| Events.HeaderRoundTrip | server/src/ya_event.c:92-134 | a header is written unsigned and read signed: it survives exactly if uid and index are below 2^31, and is rejected otherwise |
| Events.BodyRoundTrip | server/src/ya_event.c:285-482 | every body, also those of requests that only clients send, reads back as written |
| Events.InputParsed | server/src/ya_event.c:285-336 | mouse, control and keyboard bodies: the fields in their order, whatever count is announced and whatever follows |
| Events.AuthorizeParsed | server/src/ya_event.c:387-410 | an authorize body is type and then version, as any two 32-bit numbers |
| Events.DiscoverParsed | server/src/ya_event.c:472-482 | a discover body is the magic number |
| Events.OptionParsed | server/src/ya_event.c:411-434 | a session option is an array that starts with any number |
| Events.TextCut | server/src/ya_event.c:344-384 | a text ends at its first NUL, and is empty if it is not there completely |
| Events.OutOfRange | server/src/ya_event.c:285-482 | a number that its field cannot hold is read as 0, and so is what follows it |
| Events.OthersEmpty | server/src/ya_event.c:64-90 | all other types have no payload |
| Events.HeaderCast | server/src/ya_event.c:92-134 | fields are cast modulo 2^32 or 256, and an array of any size but 4 is no header |
| Events.HeaderMissing | server/src/ya_event.c:136-146 | a frame without a header, by its sizes or by its bytes, loses its two sizes |
| Events.EventRoundTrip | server/src/ya_event.c:136-232 | parsing inverts serializing, whatever follows, exactly if the frame is noticed and uid and index are below 2^31; a frame is unnoticed, and nothing happens, exactly if the number of waiting bytes modulo 2^32 is less than it; with larger numbers only the two sizes are consumed and the stream is out of step |
| Events.IncompleteFrame | server/src/ya_server_session.c:88-101 | an incomplete frame, even one cut inside its sizes, is left alone |
| Events.ReadStep | server/src/ya_server_session.c:88-107 | a read step on a stream of frames takes exactly the next whole frame or nothing: nothing exactly if the frame is incomplete or unnoticed |
| Events.ServedInOrder | server/src/ya_server_session.c:81-131 | however the stream is cut into chunks, and for connections of any length, the events handled are the first ones sent, in order, and the bytes kept are the rest |
| Events.AllHandledExactly | server/src/ya_server_session.c:81-131 | the last callback has handled every frame that has completely arrived, only if no final run of callbacks completes more frames than it has callbacks; and if so, provided that no callback finds 2^32 bytes or more |
| Events.ShortRunsBounded | server/src/ya_server_session.c:88-96 | none does on a connection over which fewer than 2^32 bytes arrive |
| Events.PacedTaken | server/src/ya_server_session.c:81-131 | that condition, across a callback that takes a frame |
| Events.SecondFrameWaits | server/src/ya_server_session.c:81-131 | two frames in one chunk fail it: the second one stays in the buffer until more bytes arrive |
| Events.ParserStaysInside | server/src/ya_server_session.c:88-107 | the length given to the payload parser is inside what has been delivered if and only if the first size covers the second one plus 4 and stays below 2^32 - 4 |
| Events.WrappedBodySize | server/src/ya_event.c:136-176 | a heartbeat whose first size is 4 is handled if anything has arrived behind it, and that is dropped; otherwise the header is dropped without an event |
| Events.BlockHoldsExactly | server/src/ya_event.c:344-384 | the block allocated for a text holds it and its NUL if and only if the length is below 2^32 - 1 |
| EventCodec.Serialize | server/src/ya_event.c:178-232 | the block written is the frame of the event |
| EventCodec.ParseHeaderBytes | server/src/ya_event.c:92-134 | the reader calls compute the header of the specification, for any bytes |
| EventCodec.ParseText | server/src/ya_event.c:344-384 | a text is the string's bytes up to the first NUL, or empty if it cannot be read; any text, where its block does not hold it |
| EventCodec.ReadText | server/src/ya_event.c:352-364 | reading into the block and cutting at the first NUL, also when the read fails |
| EventCodec.ParseBodyBytes | server/src/ya_event.c:285-482 | payload parsers never fail: fields that cannot be read are 0, also in a SESSION_OPTION |
| EventCodec.EventBuffer.ToUint32 | server/src/ya_utils.c:123-134 | a size is read with missing bytes as 0 |
| EventCodec.EventBuffer.Parse | server/src/ya_event.c:136-176 | what is consumed, and what comes out, for any bytes and any two sizes: a body size from 2^31 on pulls up the whole buffer and drains all of it |
| EventCodec.EventBuffer.Read | server/src/ya_server_session.c:88-107 | the read step of the specification, for any bytes |
| ClientTable.UidStep | server/src/ya_client_manager.c:90-100 | the wrapping counter hands out ((k-1) mod (2^32-1)) + 1 as the k-th uid, never 0 |
| ClientTable.Manager.Create | server/src/ya_client_manager.c:76-121 | the client is live, active, with one reference and the next uid, in the chain of its uid; nothing else changes |
| ClientTable.Manager.FindByUid | server/src/ya_client_manager.c:123-137 | an active client with the uid if and only if there is one |
| ClientTable.Manager.FindByFd | server/src/ya_client_manager.c:139-153 | an active client with the descriptor if and only if there is one |
| ClientTable.NumberedAdd | server/src/ya_client_manager.c:90-100 | handing out the next uid keeps the uids of live clients different, and below those to come, until they wrap around |
| ClientTable.Manager.OneHolder | server/src/ya_client_manager.c:90-100 | until then the client found by uid is the only one with it |
| ClientTable.Manager.Unref | server/src/ya_client_manager.c:161-200 | frees exactly a disconnected client whose last reference goes, with its bufferevent, and nothing else |
| ClientTable.Manager.Remove | server/src/ya_client_manager.c:202-238 | marks a client with the uid, if there is one, and frees it exactly if nothing refers to it |
| ClientTable.Manager.Bypass | server/src/ya_client_manager.c:174-195 | relinking takes one client out of its chain and leaves every chain linked and acyclic |
| ClientTable.Manager.Unlink | server/src/ya_client_manager.c:214-232 | clients live, clients freed and the count stay in balance |
| ClientTable.Manager.GetCount | server/src/ya_client_manager.c:240-254 | the number of active clients, each counted once |
| ClientTable.Manager.Cleanup | server/src/ya_client_manager.c:54-74 | every client's bufferevent is freed once and no other, and the table is empty |
| ClientTable.Manager.TakeOp | server/src/ya_client_manager.c:54-238 | one operation of any kind: which clients and bufferevents come and go, whose state and whose reference count change, and what the caller learns; counter, answer and active clients are those of the specification |
| ClientTable.Manager.Run | server/src/ya_client_manager.c:54-238 | over every run of operations: clients and open bufferevents are those from before plus those created less those freed, the count agrees, and without a cleanup only removed clients to which nothing refers have been freed; the k-th client gets the k-th uid, and until uids wrap around every answer, also that there is none, and the active clients are those of the specification |
| ClientTable.OneTold | server/src/ya_client_manager.c:54-238 | one operation carries the agreement of table and specification, answers included, from a run to the longer one |
| Session.Server.Accept | server/src/ya_server_session.c:46-72 | one more open connection with a client of its own and the next uid |
| Session.Server.Authorize | server/src/ya_server_handler.c:103-197 | version 1 or later and client type 1 or 2 are accepted: the client found by descriptor is the connection's own, its uid is in the reply and the version is stored; anything else is refused with uid 0 |
| Session.Server.Process | server/src/ya_server_handler.c:941-971 | the index filter first; the reply is the promised one, with the header of the event and direction 2; index and version afterwards |
| Session.Server.Read | server/src/ya_server_session.c:81-130 | at most one frame is taken, nothing is freed, the reference count is 1 again; heartbeats and authorize requests, and nothing else, get the promised reply; index and version of the client follow from the event, and those of all others stay |
| Session.Server.Converse | server/src/ya_server_session.c:81-130 | a connection over any chunks: the events handled are those its bytes spell, each has its answer, the index is the largest of the commands and the version that of the last accepted request |
| Session.Server.Close | server/src/ya_server_session.c:132-157 | the bufferevent is freed, once; the client stays in the table for good, because DISCONNECTING clients are never freed |
| Session.Server.BetweenCallbacks | server/src/ya_server_session.c:46-157 | active connections are the active clients, each with reference count 1, an open bufferevent and a descriptor of its own; the table holds every connection ever accepted |
| Session.Server.Run | server/src/ya_server.c:161-170 | all of this over every run of accepts, arrivals and closes, if no open descriptor is handed out again: which events are handled, for which descriptor, and what waits in the buffers follows from the steps alone; every event handled gets its answer; and every client, whatever the others do, has the largest index of its commands and its last accepted version |
| Session.Server.TakeStep | server/src/ya_server.c:161-170 | one step of such a run, of any kind |
| Session.LedMore | server/src/ya_server_handler.c:941-970 | one more event leads index and version on |
| CommandIndex.StoredExactly | server/src/ya_server_handler.c:958-964 | an unsigned index survives being kept in an int |
| CommandIndex.Filter | server/src/ya_server_handler.c:948-970 | what passes, and the index afterwards, compared as unsigned numbers |
| CommandIndex.RunningMaxima | server/src/ya_server_handler.c:914-970 | requests of types 1 to 12 but 7, 10 and 11 reach a handler exactly as strict running maxima above 0; everything else of types 1 to 12 always does, other types never |
| CommandIndex.AtMostOnce | server/src/ya_server_handler.c:914-970 | under any duplication and reordering, indices of such requests that reach a handler strictly increase |
| CommandIndex.FilterAll | server/src/ya_server_handler.c:941-970 | the filter does just that with everything a new client sends, and is left with the largest index |
| CommandIndex.LargestMore | server/src/ya_server_handler.c:958-964 | the stored index stays the largest |
| ConfigText.LineParsed | server/src/ya_config.c:99-106 | a line of up to 255 characters is read as written, also when its newline no longer fits the buffer |
| ConfigText.EntryParsed | server/src/ya_config.c:121-166 | a printed entry parses to itself |
| ConfigText.SectionParsed | server/src/ya_config.c:108-119 | a printed section line sets that section |
| ConfigDocument.TrimExactly | server/src/ya_config.c:25-52 | spaces and the control characters 9 to 13 are trimmed at both ends, and nothing else |
| ConfigDocument.CommentCut | server/src/ya_config.c:54-74 | a value ends at the first semicolon or hash sign |
| ConfigDocument.Unquoted | server/src/ya_config.c:137-147 | quotes around a value go, with anything behind the last one; a quote without a partner stays |
| ConfigDocument.LineRead | server/src/ya_config.c:99-167 | every line of the format, white space, comments and quotes included, means what it says: a setting one entry, a heading the section, anything else nothing |
| ConfigDocument.DocumentRead | server/src/ya_config.c:84-171 | so does every file of such lines of up to 255 characters |
| ConfigDocument.QuotesExactly | server/src/ya_config.c:127-147 | a value in quotes is read as meant exactly if no comment sign is in it |
| ConfigDocument.QuotedSign | server/src/ya_config.c:127-147 | otherwise it is cut there and keeps its opening quote |
| ConfigText.LongEntryBroken | server/src/ya_config.c:99-166 | an entry whose line is longer than 255 characters comes back with a shorter value |
| ConfigText.RoundTrip | server/src/ya_config.c:84-253 | parsing what was saved returns the same entries in order exactly if every key=value line has at most 255 characters |
| Config.GetAfterSet | server/src/ya_config.c:173-222 | a value set can be read back exactly if section, key and value fit their buffers: lookup compares with the untruncated names |
| Config.OthersKept | server/src/ya_config.c:173-222 | setting one entry changes the answer for no other section and key |
| Config.Store.Get | server/src/ya_config.c:173-186 | the first match wins |
| Config.Store.Set | server/src/ya_config.c:188-222 | updates the first match or appends, through the growth of the array |
| Config.Store.TrimWhitespace | server/src/ya_config.c:25-52 | the two loops remove exactly the white space at both ends |
| Config.Store.Fgets | server/src/ya_config.c:99 | a line is what fgets delivers into 256 bytes |
| Config.Store.TakeLine | server/src/ya_config.c:99-167 | each kind of line does to section and entries what the specification says |
| Config.Store.ParseText | server/src/ya_config.c:84-171 | the loop computes the parse of the whole text |
| Config.Store.SaveText | server/src/ya_config.c:224-253 | the loop prints the text of all entries |
| Config.SaveAndParse | server/src/ya_config.c:84-253 | saving and parsing into an empty store copies it exactly if every line fits |
| Mouse.Throttle.Collect | server/src/ya_mouse_throttle.c:48-106 | pixels in are pixels out plus pixels pending; what is pending goes out exactly if it is not zero and forced, the first, or 4 ms after the last emission, 8 ms for a distance of 3 or more; so nothing is held back for longer |
| Mouse.Throttle.Flush | server/src/ya_mouse_throttle.c:108-131 | everything pending goes out, exactly if there is something |
| Mouse.Throttle.Reset | server/src/ya_mouse_throttle.c:41-46 | conserves pixels exactly if nothing is pending |
| Mouse.RateBound | server/src/ya_mouse_throttle.c:20-23 | n emissions that keep their distance span at least 4(n - 1) ms |
| Mouse.CollectAll | server/src/ya_mouse_throttle.c:48-106 | from any state, over any stream of movements on a monotonic clock: conservation, the distance of consecutive emissions, the first one's from the last one before included, and the rate bound |
| Mouse.PixelsNearest | server/src/ya_server_handler.c:325-326 | the v2 path rounds to the nearest pixel, halves away from zero |
| Mouse.WholeTowardsZero | server/src/ya_server_handler.c:289-308 | quantising rounds towards zero, by less than a pixel |
| Mouse.Axis.Add | server/src/ya_server_handler.c:289-308 | what was added is what was emitted plus a fraction of less than a pixel, and what is emitted never goes further than what there was |
| Mouse.AddAll | server/src/ya_server_handler.c:278-320 | on the v3 path, after every input since a reset, raw input minus 100 times the emitted pixels is strictly between -100 and 100 |
| Mouse.Filter.Process | server/src/ya_mouse_filter.c:105-178 | at most one step; scaled input is conserved up to a fraction of a pixel, passed through if the algorithms are off, and unchanged without gain, scale and fraction |
| Mouse.ProcessAll | server/src/ya_mouse_filter.c:105-178 | since a reset, after every movement of any run with any gains, the steps differ from the sum of sensitivity times gain times movement by less than a pixel per axis |
| Mouse.HandleMove | server/src/ya_server_handler.c:248-371 | what is injected is what the axes count as emitted: on v3 the whole pixels of the hundredths, without the throttle; on v2 what the filter makes of the collected pixels, if the throttle lets them out, and otherwise nothing |
| Mouse.HandleStop | server/src/ya_server_handler.c:373-447 | a v2 stop injects what the filter makes of everything pending before it resets, so that no pixel is lost in the throttle; a v3 stop injects nothing |
| Mouse.HandleEvent | server/src/ya_server_handler.c:248-447 | a v3 event changes what its client has been asked for and given by exactly what it asks and injects; a v2 event injects what the filter makes of the pixels that the throttle lets out |
| Mouse.HandleAll | server/src/ya_server_handler.c:248-447 | over all clients on the one throttle, in any order: v2 pixels sent are pixels emitted plus pending, and with the algorithms off they are the pixels injected plus pending; none are pending after a v2 stop; every v3 client has been moved, since its last stop, to less than a pixel from what it asked for |

## Left out

- WriterCalls.WrittenEncodes: for documents without a build of 2^32 or more elements, which has no MessagePack form; what is written for any other is `WriterCalls.Written`. The same holds of what `Tracking.TrackedOutput` and `TrackedWriter.Writer.WriteDocuments` say about encoding and decoding.
- TreeParser.Tree.TryParse: under `Fits` along the parse it starts, because of the 32-bit product (`TreeParser.ReadsInStep`); what the parser makes of other streams is not modelled.
- TreeParser.Tree.Parse: the same condition.
- TreeParser.Tree.ParseNext: the same condition; one node, `TreeParser.Tree.ParseNode`, needs none.
- TreeParser.Tree.ContinueParsing: the same condition.
- TreeStream.ParseAndDiscard: the same condition.
- TreeStream.ParseStream: the same condition for each message in turn (`TreeStream.AllFit`).
- Reader.Reader.SkipBytes: without a skip callback, which this server never sets.
- Events.EventRoundTrip: asks for frames of fewer than 2^31 bytes, whose sizes are ints in the code.
- Events.ParserStaysInside: what else happens when parser or block reach outside (`Events.WrappedBodySize`, `Events.BlockHolds`) is not modelled: reading yields `beyond`, and nothing else is disturbed.
- EventCodec.ParseBodyBytes: the number of a SESSION_OPTION is the tag read, before its conversion to float.
- Events.AllHandledExactly: the "if" half is for runs in which no callback finds 2^32 bytes or more (`Events.Bounded`), since a longer buffer may leave a frame unnoticed.
- Session.Server.Process: replies of authorize and heartbeat requests only; the other handlers call into the operating system. The arm of handle_authorize for a connection without a client is proved unreachable and left out, as is AUTHORIZE over UDP.
- Mouse.HandleMove: the filter of the client is given; finding the client by uid is `ClientTable.Manager.FindByUid`, and a movement of an unknown client is ignored.
- ClientTable.Manager.Run: references are taken and given back by uid, on some client that is still in the table; using a freed client is outside the model. Once uids have wrapped around, the run says of an answer only what `ClientTable.Fits` says, because two clients may have one uid. The state DISCONNECTING is set by `Session`.
- CommandIndex.Filter: UDP events of an unknown uid, which pass unchecked.
- Allocation failure and `size_t` overflow: allocation succeeds and sizes are unbounded; client_count and active_connections do not wrap.
- Writes after the first error of a writer: the original may still copy bytes, and throws them away when it is destroyed; the model stops.
- `mpack_write_object_bytes`, `mpack_writer_flush_message`, writers on fixed buffers or files, write functions for UTF-8 and C strings.
- Error callbacks, the skip callback of the reader, read tracking, stdio, debug output.
- MPack ext types and timestamps (disabled in this build), v4 compatibility, size-optimised builds.
- Floats and doubles are raw bits; `mpack_expect_float`, the node accessors and the remaining expect functions only read tags that are modelled here.
- Builder pages and build records are values (`seq<Page>`, a map from places to records) rather than one memory. They would not get in each other's way (`BuilderInvariant.PlacesApart`, `BuilderInvariant.LaidOutOverlaid`). The depth of sized containers in a build is unbounded.
- Tree nodes are values in a sequence of pages; node_count is bounded only for flat buffers, where no parse resumes; parsing limits (max_size, max_nodes) are unlimited, and so is the parser's stack.
- Reader memory: the bytes an in-place read returns are a value, not a pointer into the buffer.
- NUL characters in configuration files and strings, and the stdio calls around the text.
- Floating-point rounding in the mouse code: fractions are exact; the v2 gain is any number from 1 to 3, which abstracts `sqrtf` and `powf`; accumulated pixels do not overflow.
- Serializers of authorize and discover replies, which have no parser in this server.
- Sockets, libevent, evhttp, the discovery thread, input injection, the GUI runners, logging, uploads and scripts.
