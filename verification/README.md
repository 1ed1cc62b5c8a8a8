# Gengo hosts, bundles and wire formats: a Dafny model

This project models the parts of the Gengo repository that surround the script engine and
proves what they promise. Five components are covered:

- **FastCGI** (`Fcgi*.dfy`): the C responder and its Python gateway, two independently written
  ends of one protocol - record framing, name-value pairs, the one-request-at-a-time machine with its
  limits, the response stream - and the two ends together over whole sessions.
- **Bundles** (`Zip.dfy`, `ZipReader.dfy`, `Packages.dfy`, `Glob.dfy`, `Bundle.dfy`,
  `BundleTheorems.dfy`): the stored-ZIP writer, a reader written from PKWARE APPNOTE.TXT, the
  repository's own package loader, the glob matcher, file collection, and the way from a source tree
  to a resolved import.
- **Function service** (`WorkerFrames.dfy`, `Workers.dfy`, `Registry.dfy`, `FunctionService.dfy`,
  `CgiResponse.dfy`): the frame codec, the request/reply protocol with kill-on-failure, the
  two-index registry with rollback and its manifest, and the CGI response printer and parser.
- **REPL line editor** (`LineSpec.dfy`, `LineEditor.dfy`): the in-place edit buffer, the 50-slot ring of
  history entries and history navigation, against a zipper with an unbounded history.
- **ValueWire** (`ValueWire.dfy`, `WireWriter.dfy`, `EngineCall.dfy`): the TypeScript encoder into flat
  memory with back-patched headers, its decoder, and the arguments that the JavaScript wrapper lays out
  in scratch memory.

Code that changes things step by step is modelled by classes and methods over arrays and fields
(`FcgiHost.Host`, `FcgiClient.Gateway`, `FunctionService.Service`, `LineEditor.Session`,
`WireWriter.WireWriteCtx` and the loops of the writers, readers and matchers); each method is proved
against a function, and the theorems are about those functions.

## Main results

- **Sessions.** Over any sequence of gateway calls, oversized ones included, each call returns the
  outcome of its own request, computed without records or streams by `FcgiGateway.Expected`, and both
  ends are at rest afterwards (`SessionCorrect`). The handler sees exactly what the gateway was given
  if and only if the request fits the responder's buffers (`DeliveredIff`).
- **Conservation.** For every byte stream, the responder's output is a whole number of records, and
  every request begun is ended exactly once, but for the one still open (`ServeConserves`). How PARAMS
  and STDIN are cut into records does not matter (`ChunkingIrrelevant`).
- **Bundles.** The writer succeeds exactly when every length, offset, size and count fits its field;
  reading inverts writing (`ReadInvertsWrite`); every successful build, loaded by the repository's
  loader, resolves each import, with or without extension, to exactly the contents of the source with
  that archive path, or to nothing when there is none (`BundleLoads`). A build finds its sources if and only if the conditions of `SourcesIff` hold, and holds exactly the
  files its patterns let in (`BundledIff`), where patterns are fixed by laws on their bytes (`LawsDecide`).
- **Pairing.** In every interleaving of requests, replies written in pieces, timeouts, crashes inside
  or between replies and kills, a reply a caller gets is the worker's answer to that caller's request
  (`RepliesArePaired`); a ready worker answers (`Answered`), and no request fails without a cause
  (`FailuresHaveCauses`).
- **Registry.** The indexes stay inverse and nothing is leaked in every sequence of steps
  (`RunKeeps`); disk and memory agree after a deploy under exactly the condition of `SyncedIff`; a name stands for what was last deployed under
  it (`LastDeployWins`); where
  persists are clean, restarts are invisible: any number of them, at any points, leads to what one
  uninterrupted run would have come to (`RestartsAreInvisible`).
- **Responses.** Whatever headers a script prints, the parser rejects exactly the malformed and managed
  ones (`RejectsIff`) and lets all others through in order (`FieldsComeThrough`).
- **Line editor.** The program reads every line like the ideal editor if and only if its buffer holds at
  most 512 bytes (`FaithfulIff`); leaving the live line and coming back restores it (`LiveLineRestored`);
  what each key does is said of the line's bytes and the cursor (`ErasingIs` and its neighbours), and what
  is read of the input (`ReadsWhatIsTyped`, `ErasedLeavesNoTrace`, `EnteredComesBack`).
- **ValueWire.** Decoding inverts encoding if and only if every child fills exactly one record and
  integers fit 64 bits and the value is not text with a byte order mark in front, for all values in
  which no string begins with a byte 0 to 6 (`RoundTripIff`). On any memory decoding comes to an end if
  and only if the decoder never enters a record it is inside of (`EndsIff`).
- **Calls into the engine.** The arguments a call lays out never overlap, but for a corner of 4 GiB
  (`StraightIff`), and read back in order as what they are, but for integral numbers and byte order
  marks (`CallArgsRead`, `SeenIff`).

## Where the code falls short of what it suggests

- `src/repl_line.zig` saves at most 512 bytes of the live line but records its whole length, so with a
  larger buffer Up followed by Down slices out of bounds. The REPL passes a buffer of the maximum input
  size. `LineSpec.FaithfulIff` gives the exact condition, `LineSpec.UpDownFaults` the input.
- `sdk/typescript/src/wire.ts` describes arrays and maps as records in a row, but writes the bytes of a
  child before its record; an array of non-empty strings or of non-empty arrays does not come back.
  `ValueWire.AlignedIff` says when children are where the decoder looks, `ValueWire.NestedIsFlattened`
  shows a nested array losing a level, and `ValueWire.SelfDescribingString` shows why the equivalence
  needs its condition on strings. Decoding may not even end: an array of one suitable string sends the
  decoder round in a circle (`ValueWire.EndlessArray`); `ValueWire.EndsIff` says exactly when it ends.
- Both decoders drop a byte order mark at the front of text, so such a string does not come back
  (`ValueWire.MarkIsDropped`, `EngineCall.SeenIff`).
- `examples/release-gate/gengo_engine.js` sets the integer flag over the bits of a double, so an integral
  argument is seen as another number (`EngineCall.OneIsSeenWrong`).
- A pattern behind `**/` and behind `**` is not always the same: they accept the same paths if and only
  if the pattern does not begin with a slash (`Glob.SlashAfterStars`).
- `writeAtomic` in `examples/go-function-service/main.go` binds the errors of the write and of the sync
  to a variable of their own and loses them, so a write that stops short replaces the manifest by a torn
  file and the deploy reports success; the service does not start again
  (`Registry.TornDeploySucceeds`, `Registry.ShortWriteGoesUnnoticed`). A failure reported after the
  rename leaves a manifest on disk that memory does not have, and the refused function runs after the
  next start (`Registry.RefusedDeployReturns`). `Registry.SyncedIff` gives the exact condition.

## Model

| member | source | states |
|---|---|---|
| FcgiRecords.ParsesIff | examples/fastcgi-host/main.c:50-63 | a record and a rest are read if and only if the stream is the eight header bytes, the content, any padding of up to 255 bytes, and that rest |
| FcgiRecords.FrameSpells | examples/fastcgi-host/serve.py:26-30 | a framed record is those bytes, padded with fewer than eight zeros |
| FcgiRecords.ParseFrame | examples/fastcgi-host/serve.py:26-30 | a framed record is read back exactly and the rest of the stream is untouched |
| FcgiRecords.DecodeFrames | examples/fastcgi-host/main.c:279-288 | any list of framed records followed by anything decodes to that list followed by what the rest decodes to |
| FcgiRecords.ChunksContent | examples/fastcgi-host/main.c:76-103 | a block cut into records loses nothing: contents concatenate to it, none is empty, all carry its type and id |
| FcgiParams.LengthIff | examples/fastcgi-host/main.c:127-142 | a length and a rest are decoded if and only if the input is one of the two forms of that length, the four-byte form of a small one included, followed by that rest |
| FcgiParams.LengthRoundTrip | examples/fastcgi-host/serve.py:37-40 | one-byte and four-byte lengths below 2^31 decode to themselves |
| FcgiParams.PairRoundTrip | examples/fastcgi-host/serve.py:33-42 | an encoded pair decodes to itself and leaves the rest |
| FcgiParams.PairsRoundTrip | examples/fastcgi-host/main.c:159-172 | the responder's decoder inverts the gateway's encoder on every list of pairs with lengths below 2^31 |
| FcgiParams.PairIff | examples/fastcgi-host/main.c:159-172 | a pair and a rest are decoded if and only if the input is two lengths in either form, name, value, and that rest |
| FcgiParams.BlockIff | examples/fastcgi-host/main.c:159-185 | on any bytes the decoder gives a list of pairs if and only if the block spells out exactly that list |
| FcgiParams.CString | examples/fastcgi-host/main.c:144-149 | the text of a buffer is its longest NUL-free prefix |
| FcgiParams.LastPairWins | examples/fastcgi-host/main.c:174-182 | method and query are those of the last pair of that name; the path is the last SCRIPT_NAME, and only where that is missing or blank the first PATH_INFO after it that is not blank |
| FcgiResponder.RunKeepsValid | examples/fastcgi-host/main.c:298-325 | over every record sequence the buffers stay within 16384 and 65536 bytes and the call history only grows |
| FcgiResponder.SendErrorEndsOnce | examples/fastcgi-host/main.c:116-125 | an error response ends its request exactly once |
| FcgiResponder.RunRequestEndsOnce | examples/fastcgi-host/main.c:220-249 | every way a request is answered ends it exactly once |
| FcgiResponder.StepConserves | examples/fastcgi-host/main.c:289-325 | one record: ids ended plus id open afterwards equal id open before plus id begun |
| FcgiResponder.RunConserves | examples/fastcgi-host/main.c:279-326 | the same over every sequence of records, as multisets of ids |
| FcgiResponder.ServeConserves | examples/fastcgi-host/main.c:279-326 | for every input byte stream the output decodes cleanly, and its END_REQUEST ids plus the open id are the BEGIN_REQUEST ids of the input |
| FcgiResponder.Accumulates | examples/fastcgi-host/main.c:298-325 | within the limits an active request's buffers hold the concatenation of its PARAMS and STDIN contents, whatever the cuts and whatever other records come between |
| FcgiResponder.WholeRequest | examples/fastcgi-host/main.c:310-317 | the end of STDIN answers exactly the request those concatenations describe |
| FcgiResponder.ChunkingIrrelevant | examples/fastcgi-host/main.c:298-325 | two ways of sending the same PARAMS and STDIN bytes give the same handler call, final state and response |
| FcgiResponder.IdleIgnores | examples/fastcgi-host/main.c:298-299 | without an active request nothing but BEGIN_REQUEST has any effect or output |
| FcgiResponder.OverLimitFailsOnce | examples/fastcgi-host/main.c:303-305 | whatever records come between its own, a request that goes over a limit accumulates until the record that takes it over, which alone fails it, once, with the message of the limit and without a handler call |
| FcgiResponder.BeginIff | examples/fastcgi-host/main.c:289-297 | a request is begun if and only if none is active and the record asks for a responder; otherwise it is refused and nothing changes |
| FcgiResponder.EarlyStdin | examples/fastcgi-host/main.c:310-313 | STDIN that ends before PARAMS has ended is answered with its message, without a handler call |
| FcgiResponder.ErrorDocument | examples/fastcgi-host/main.c:116-125 | an error response carries exactly the message on STDERR and on STDOUT the header, the message and a line end |
| FcgiResponder.TextDocument | examples/fastcgi-host/main.c:246-248 | a text response carries exactly the text on STDOUT and nothing on STDERR |
| FcgiGateway.ReadChunks | examples/fastcgi-host/serve.py:99-112 | a block written as any number of records is collected whole |
| FcgiGateway.ReadError | examples/fastcgi-host/main.c:116-125 | an error response reads back as an error carrying exactly the responder's message |
| FcgiGateway.ReadText | examples/fastcgi-host/main.c:246-248 | a text response of any length, empty or over 65535 bytes, reads back as exactly that text |
| FcgiGateway.ParsedRequest | examples/fastcgi-host/main.c:151-185 | the responder makes of an encoded request the gateway's fields, each cut to its buffer and at its first NUL, or refuses it for a blank method |
| FcgiGateway.ResponderAnswers | examples/fastcgi-host/main.c:279-326 | from any idle state a request within the limits gets exactly the answer to the whole request and leaves the responder idle |
| FcgiGateway.ResponderRefuses | examples/fastcgi-host/main.c:303-320 | a request over a limit gets one error, no handler call, and its remaining records are ignored |
| FcgiGateway.ExchangeCorrect | examples/fastcgi-host/serve.py:69-119 | between two ends at rest a call returns the outcome of its own request and leaves both ends at rest, nothing unread, the next id in 1..65535 |
| FcgiGateway.SessionCorrect | examples/fastcgi-host/serve.py:69-119 | over any session the i-th call returns the outcome of the i-th request, given only the handler calls before it |
| FcgiGateway.DeliveredIff | examples/fastcgi-host/serve.py:73-91 | the handler is called once with exactly the given method, path, query and body if and only if they are NUL-free and within 31, 4095, 4095 and 65536 bytes, the method not empty, and PARAMS within 16384 |
| FcgiGateway.ServedDocument | examples/fastcgi-host/main.c:279-326 | for every request the bytes an idle responder writes hold the text alone on STDOUT, or the message on STDERR and the whole error page on STDOUT |
| FcgiGateway.ErrorPageCuts | examples/fastcgi-host/main.c:116-125 | the error page cut at its first blank line has its status line, its type line and the message as body, whatever the message holds |
| FcgiGateway.SentPairs | examples/fastcgi-host/serve.py:76-83 | the block sent spells out the four pairs, with a slash for an empty path and the length of the body in decimal |
| FcgiGateway.SessionIds | examples/fastcgi-host/serve.py:73-74 | the id of a session's next call runs through 1 to 65535 and starts over |
| FcgiGateway.IdsDiffer | examples/fastcgi-host/serve.py:73-74 | any 65535 calls in a row go out with different ids |
| FcgiGateway.NoResponse | examples/fastcgi-host/serve.py:99-114 | each way a response can be none, with its message and what is left unread |
| FcgiGateway.OtherRecords | examples/fastcgi-host/serve.py:104-118 | records of other kinds are passed over; a failure without a message gets the standard one |
| FcgiHost.CopyParam | examples/fastcgi-host/main.c:144-149 | the buffer's text is the value cut to the buffer and at its first NUL |
| FcgiHost.Host.ReadExact | examples/fastcgi-host/main.c:45-48 | succeeds exactly when enough input is left, and takes exactly that much |
| FcgiHost.Host.DiscardExact | examples/fastcgi-host/main.c:65-74 | skips exactly the given number of bytes in pieces of at most 256, or fails |
| FcgiHost.Host.ReadRecord | examples/fastcgi-host/main.c:50-63 | reads exactly the record at the front of the input, or reports its end or a malformed record |
| FcgiHost.Host.WriteRecord | examples/fastcgi-host/main.c:76-103 | appends the framed chunks of a block; one empty record for a null block; nothing for an empty one |
| FcgiHost.Host.SendEnd | examples/fastcgi-host/main.c:105-114 | appends the empty STDOUT record and END_REQUEST with the status |
| FcgiHost.Host.SendError | examples/fastcgi-host/main.c:116-125 | appends the message on STDERR, a 500 response on STDOUT, and the end |
| FcgiHost.Host.DecodeLengthAt | examples/fastcgi-host/main.c:127-142 | decodes a length in place and stays within the buffer |
| FcgiHost.Host.NextPair | examples/fastcgi-host/main.c:159-172 | decodes the pair at an offset, always moves forward and stays within the buffer |
| FcgiHost.Host.KeepPair | examples/fastcgi-host/main.c:174-182 | the string buffers change as the pair's name demands and not otherwise |
| FcgiHost.Host.ParseParams | examples/fastcgi-host/main.c:151-185 | accepts exactly the well-formed blocks that name a method, and leaves the fold over their pairs in the string buffers |
| FcgiHost.Host.RunRequest | examples/fastcgi-host/main.c:220-249 | calls the handler at most once and writes the whole response |
| FcgiHost.Host.HandleRecord | examples/fastcgi-host/main.c:289-325 | one turn of the loop is one step of the machine, with all buffers in bounds |
| FcgiHost.Host.Serve | examples/fastcgi-host/main.c:279-326 | the loop over everything on stdin is the machine's run over the decoded records |
| FcgiClient.Gateway.ReadExact | examples/fastcgi-host/serve.py:45-52 | takes exactly n bytes in whatever pieces the pipe delivers, or fails |
| FcgiClient.Gateway.BuildStream | examples/fastcgi-host/serve.py:84-91 | the bytes sent are exactly the framed records of the request |
| FcgiClient.Gateway.ReadResponse | examples/fastcgi-host/serve.py:99-119 | what the loop returns, or raises and with which message, and what it leaves unread in either case, is what the specification of the response says |
| FcgiClient.Gateway.Request | examples/fastcgi-host/serve.py:69-119 | one call is one exchange, a protocol error included; between two ends at rest it returns what its own request should come to and leaves them at rest |
| Zip.WriteStoredZip | src/bundle.zig:39-103 | succeeds if and only if every path and content length, the local and central sizes and the count fit their fields, and then writes exactly the three regions |
| Zip.WriteLocals | src/bundle.zig:45-67 | the local region, with one record per entry holding the offset where its part starts |
| Zip.WriteCentrals | src/bundle.zig:69-89 | the central region, each header with its recorded offset |
| Zip.Archive | src/bundle.zig:39-103 | its size is the sum of 30+path+contents, plus the sum of 46+path, plus 22 |
| Zip.CentralHeadReads | src/bundle.zig:70-88 | every field of a written central header stands at its APPNOTE offset, the CRC included |
| Zip.LocalHeadReads | src/bundle.zig:54-66 | the same for a local header |
| Zip.EndRecordReads | src/bundle.zig:93-100 | the same for the end record |
| ZipReader.Tiles | src/bundle.zig:45-102 | each recorded offset is the sum of the local sizes before it; local parts, central headers and the end record, which ends the archive, follow one another without gap or overlap |
| ZipReader.FindEndRecord | src/lang/native/package_state.zig:88-103 | the scan finds the last end signature that leaves room for the record, or none |
| ZipReader.EndFound | src/lang/native/package_state.zig:88-103 | the scan finds the writer's end record whatever the files hold |
| ZipReader.EntryReads | src/bundle.zig:45-89 | the headers and data of every entry read back as written |
| ZipReader.HeadersStand | src/bundle.zig:45-89 | in every archive all fields of both headers of every entry stand at their offsets, with the CRC of its contents |
| ZipReader.ReadInvertsWrite | src/bundle.zig:39-103 | reading what was written returns exactly the paths and contents, in order, for every list on which the writer succeeds |
| Packages.PackageRegistry.LoadFromZip | src/lang/native/package_state.zig:105-200 | on any bytes the registry gains exactly the package the archive holds, or is what it was although a slot was half filled, and no source buffer is left over |
| Packages.PackageRegistry.ResolveImport | src/lang/native/package_state.zig:54-75 | the two loops find the first file of the first package that has the name |
| Packages.LoadsWhatWasWritten | src/lang/native/package_state.zig:105-200 | the loader takes from a written archive exactly the members it wants, with their contents, in order, or stops for the table or size limit |
| Packages.TurnIs | src/lang/native/package_state.zig:132-197 | in any archive a wanted member is taken as stored, inflated if deflated, passed over if packed otherwise, and the archive is rejected if that fails |
| Packages.WantedIff | src/lang/native/package_state.zig:147-152 | the members wanted are the sources with a module path of 1 to 127 bytes and no two dots in a row |
| Packages.FoundIff | src/lang/native/package_state.zig:65-71 | the first file of a path is the one found |
| Packages.SplitsAtSlash | src/lang/native/package_state.zig:60-62 | an import path splits after a slash-free package name |
| Packages.FindAppended | src/lang/native/package_state.zig:65-73 | a package added last is found only if no earlier one has its name |
| Glob.GlobMatchAt | src/bundle.zig:237-259 | terminates and agrees with the search over the pattern's tokens from any position |
| Glob.MatchesIff | src/bundle.zig:233-259 | accepts a path if and only if the path can be cut into one piece per token: the byte itself, a slash-free stretch for one star, anything for two |
| Glob.EmptyIff | src/bundle.zig:238 | the empty pattern accepts nothing but the empty path |
| Glob.LiteralIff | src/bundle.zig:257-258 | a byte that is no star accepts itself |
| Glob.StarIff | src/bundle.zig:250-255 | a single star accepts exactly the stretches without a slash |
| Glob.StarsIff | src/bundle.zig:240-249 | two stars accept any stretch and take a slash behind them along |
| Glob.StarStopsAtSlash | src/bundle.zig:250-255 | a single star does not reach into a directory, two stars do |
| Glob.LawsDecide | src/bundle.zig:233-259 | these laws of patterns and paths alone fix the matcher: whatever obeys them accepts the same |
| Glob.SlashAfterStars | src/bundle.zig:240-249 | a pattern behind two stars with and without a slash accepts the same paths if and only if it does not itself begin with a slash |
| Bundle.ArchivePath | src/bundle.zig:196-207 | writes the joined path into the buffer exactly when root name and relative path are valid and it fits; otherwise nothing changes; each error has its exact condition |
| Bundle.JoinInjective | src/bundle.zig:201-213 | different root names or relative paths never give the same archive path |
| Bundle.JoinIsSafe | src/bundle.zig:196-213 | a joined path has no ".." and no leading slash |
| Bundle.NamesIff | src/bundle.zig:198-213 | root names are not empty and hold no slash, relative paths do not begin with one, and neither holds two dots in a row |
| Bundle.ShouldInclude | src/bundle.zig:215-231 | a source is taken when some include pattern matches, or there is none, and no exclude pattern does |
| Bundle.WalkRoot | src/bundle.zig:150-169 | collecting one root in place is the fold over its listing |
| Bundle.BuildFromRoots | src/bundle.zig:122-194 | the archive of exactly the collected sources and the manifest, or the first error |
| BundleTheorems.ItemsIff | src/bundle.zig:150-169 | one root is collected if and only if every chosen file is valid and readable, at most 64 in all and no name twice, and then all of them are, in order |
| BundleTheorems.SourcesIff | src/bundle.zig:129-179 | the same for all roots, with an entry among the sources |
| BundleTheorems.BundledIff | src/bundle.zig:150-231 | a build holds exactly the listed files the patterns let in, each under its root's name, a slash and its path; a file an exclude pattern accepts is in no archive |
| BundleTheorems.ManifestReads | src/bundle.zig:181-193 | reading a built archive gives the sources and, last, the manifest with the entry's line |
| BundleTheorems.BuildIsSafe | src/bundle.zig:142-184 | in every successful build archive names are pairwise distinct, the manifest's included, without ".." or leading slash, the entry among them, and the loader will take every source |
| BundleTheorems.BundleLoads | src/bundle.zig:277-292 | every successful build is loaded, and importing any path under its name, with or without extension, gives exactly the contents of the source with that archive path, or nothing if there is none; unless the name holds a slash or was taken, and then imports stay as they were |
| BundleTheorems.OthersUnchanged | src/lang/native/package_state.zig:54-75 | loading a package changes no import that resolved before, and none at all when its name was taken, holds a slash or is not the one imported |
| WorkerFrames.WriteWorkerFrame | examples/go-function-service/main.go:426-447 | writes the whole frame exactly when it has at most 255 fields within the limit; otherwise only a proper part of one |
| WorkerFrames.FrameStands | examples/go-function-service/main.go:426-447 | on the wire stand the kind, the number of fields, and each field behind its length in four bytes, the low one first |
| WorkerFrames.ReadFields | examples/go-function-service/main.go:454-470 | on any input, fields accepted never total more than the limit |
| WorkerFrames.ReadWorkerFrame | examples/go-function-service/main.go:449-472 | the loop with its running total reads what its specification says |
| WorkerFrames.FrameRoundTrip | examples/go-function-service/main.go:426-472 | a written frame is read back with the rest untouched exactly when its fields total at most the maximum; otherwise it is refused |
| WorkerFrames.ReadsIff | examples/go-function-service/main.go:449-472 | on any input a frame and a rest are read if and only if the input is that frame as written, of at most 255 fields within the limit, followed by that rest |
| WorkerFrames.FrameCutShort | examples/go-function-service/main.go:449-472 | a frame cut off anywhere before its end is never taken for a frame |
| WorkerFrames.StreamRoundTrip | examples/go-function-service/main.go:426-472 | any stream of frames within the limits is read back as the same frames |
| Workers.ReplyFrame | examples/go-function-service/main.go:474-483 | every reply is one frame the reader accepts |
| Workers.WorkerReadKeeps | examples/go-function-service/main.go:386-424 | the worker's loop takes up one frame and owes exactly one reply, to that frame |
| Workers.WorkerWriteKeeps | examples/go-function-service/main.go:426-447 | a reply reaches the pipe in pieces of any size and stays the reply owed |
| Workers.HostReadKeeps | examples/go-function-service/main.go:336-361 | a caller that reads a good reply leaves both pipes empty, and anything but a good reply kills the worker |
| Workers.DoKeeps | examples/go-function-service/main.go:324-384 | every step of request, partial and whole reply, timeout, crash at any point, kill and close keeps the invariant |
| Workers.RepliesArePaired | examples/go-function-service/main.go:324-378 | in every interleaving a reply returned to a caller is the worker's answer to that caller's request after the requests before it; a worker not dead holds no unread byte between requests |
| Workers.FailureIsFinal | examples/go-function-service/main.go:368-378 | after one failed request every later one on that worker fails |
| Workers.Answered | examples/go-function-service/main.go:324-361 | a request to a ready worker gets exactly the worker's answer: its text, leaving the worker ready, or its error, killing it; over the limit the worker exits |
| Workers.FailuresHaveCauses | examples/go-function-service/main.go:324-378 | in every run a request fails only after a failed write, exit, timeout, close or earlier failure, or if it cannot be sent, is over the limit or is answered with an error |
| Workers.TimeoutKills | examples/go-function-service/main.go:362-365 | a timeout ends the waiting request with its message and kills the worker |
| Workers.CloseKills | examples/go-function-service/main.go:380-384 | closing an idle worker kills it and fails no request |
| Workers.KilledIsSilent | examples/go-function-service/main.go:327-329 | a killed worker never reads or writes again, and every further request fails at once |
| Workers.WorkerAnswers | examples/go-function-service/main.go:396-419 | a call of four fields gets the engine's own answer if and only if the last proper load succeeded; every other frame its own error |
| Workers.LoadThenCall | examples/go-function-service/main.go:396-419 | a fresh worker that is loaded and called answers both from the engine |
| Registry.InstallKeepsInverse | examples/go-function-service/main.go:631-640 | replacing a function keeps the two indexes inverse when its route is not another's |
| Registry.DeployKeeps | examples/go-function-service/main.go:615-655 | every deploy keeps the indexes inverse, the entries valid and the open functions exactly the registered ones; a refused one changes neither index |
| Registry.DeployIff | examples/go-function-service/main.go:615-655 | exactly when a deploy succeeds, why it is refused otherwise, and what is registered then |
| Registry.LastDeployWins | examples/go-function-service/main.go:615-655 | after any sequence of deploys a name stands for what was last deployed under it successfully, or for what it stood for before |
| Registry.ValidIff | examples/go-function-service/main.go:486-500 | which names, routes and sources are valid |
| Registry.RunKeeps | examples/go-function-service/main.go:615-665 | the same in every sequence of deploys and closes |
| Registry.CloseEmpties | examples/go-function-service/main.go:657-665 | closing leaves nothing registered and nothing running |
| Registry.ReloadStartsWell | examples/go-function-service/main.go:551-568 | a service that loads any manifest starts out with that invariant |
| Registry.ReloadIff | examples/go-function-service/main.go:551-567 | a manifest is taken up if and only if every item is valid and comes up and no two share a name or a route |
| Registry.ReloadRebuilds | examples/go-function-service/main.go:551-567 | reloading a manifest that lists a registry, in any order, is never rejected and rebuilds the same names, routes and sources |
| Registry.SyncedIff | examples/go-function-service/main.go:571-613 | disk and memory agree after a deploy if and only if, where the old manifest stayed in place, they agreed before, and otherwise the new one was written whole and a failure reported after the rename concerned a function already there as it is |
| Registry.ShortWriteGoesUnnoticed | examples/go-function-service/main.go:577-585 | a write that stops short changes neither what a deploy reports nor the registry, only the file, which is torn after a reported success |
| Registry.TornDeploySucceeds | examples/go-function-service/main.go:577-585 | a concrete first deploy that reports success and leaves a file from which no service starts |
| Registry.RefusedDeployReturns | examples/go-function-service/main.go:589-595 | a concrete first deploy that is refused, is not in memory, and runs after the next start |
| Registry.RestartFindsTheSame | examples/go-function-service/main.go:532-569 | from every state in which disk and memory agree a restart succeeds, with the same functions and the same invariant |
| Registry.DeployAlike | examples/go-function-service/main.go:615-655 | a deploy has the same result and effect on any two registries with the same contents and file |
| Registry.RestartsAreInvisible | examples/go-function-service/main.go:532-655 | however deploys that persist whole or fail before the rename are spread over runs of the service, every restart succeeds and registry and file end up as in one uninterrupted run |
| Registry.LivesFromTheStart | examples/go-function-service/main.go:532-655 | the same from the first start of a service in an empty directory |
| FunctionService.SortedNames | examples/go-function-service/main.go:598-602 | the names of the index, each once, in ascending order |
| FunctionService.Service.WriteAtomic | examples/go-function-service/main.go:571-595 | the file is replaced unless a failure is reported before the rename, and is whole exactly when the write was; write and sync errors are never reported |
| FunctionService.Service.PersistLocked | examples/go-function-service/main.go:597-613 | the file lists exactly the registered functions, or is torn after a short write, or is unchanged after an early failure |
| FunctionService.Service.Deploy | examples/go-function-service/main.go:615-655 | the deploy with its rollback is exactly the machine's step |
| FunctionService.Service.PutBack | examples/go-function-service/main.go:642-647 | the rollback gives back exactly the indexes from before |
| FunctionService.Service.Close | examples/go-function-service/main.go:657-665 | every registered function is closed and both indexes are empty |
| FunctionService.Service.LoadManifest | examples/go-function-service/main.go:551-567 | all of a manifest is running, or nothing is |
| CgiResponse.ParseScriptResponse | examples/go-function-service/main.go:702-731 | the loop over the header lines parses what its specification says |
| CgiResponse.CanonicalIff | examples/go-function-service/main.go:729 | two spellings of a header name are kept under one key if and only if they differ in case only, and a key is its own key |
| CgiResponse.ParserIsSafe | examples/go-function-service/main.go:709-729 | whatever a script returns, an accepted response has a status in 100..599 and only well-formed headers under canonical keys, none of them managed by the host |
| CgiResponse.RejectsIff | examples/go-function-service/main.go:702-731 | whatever the lines and the body, a response is rejected if and only if some line is malformed, names a managed header or is a bad Status |
| CgiResponse.FieldsComeThrough | examples/go-function-service/main.go:702-731 | otherwise it has the status of the last Status line or 200, exactly the other fields but Content-Length, trimmed, under their keys, in order, and the body |
| CgiResponse.NeedsBlankLine | examples/go-function-service/main.go:703-706 | without a blank line a response is rejected |
| CgiResponse.TrimIs | examples/go-function-service/main.go:714-728 | trimming takes white space off both ends, all of it and nothing else |
| CgiResponse.ManagedNames | examples/go-function-service/main.go:686-692 | the eight names the host keeps for itself |
| CgiResponse.GengoHttpResponse | examples/go-function-service/main.go:46-65 | the response text in the buffer, or 3 for an unsafe content type, or 4 when it does not fit, each exactly then |
| CgiResponse.ParseInvertsPrint | examples/go-function-service/main.go:46-65 | what is printed parses back to the same status, the trimmed content type and the untouched body, blank lines in it included, if and only if the status is in 100..599 |
| CgiResponse.PrintedLines | examples/go-function-service/main.go:46-65 | what is printed has exactly the status line, the type line, a blank line and the body |
| LineSpec.KeyIff | src/repl_line.zig:143-270 | every key that does something is read if and only if one of its spellings stands at the front of the input |
| LineSpec.ErasingIs | src/repl_line.zig:180-211 | Backspace takes away the byte before the cursor, Delete the one at it |
| LineSpec.InsertIs | src/repl_line.zig:271-281 | a letter goes in at the cursor if there is room |
| LineSpec.MovingIs | src/repl_line.zig:163-267 | the cursor keys change no byte and move by one, or to an end |
| LineSpec.CuttingIs | src/repl_line.zig:171-179 | the cut keys keep exactly what is before the cursor, or nothing |
| LineSpec.KeysUndo | src/repl_line.zig:163-281 | Backspace undoes a letter, Left and Right undo each other, Left and then Delete is Backspace |
| LineSpec.Types | src/repl_line.zig:271-281 | printable input goes into the line at the cursor, byte by byte |
| LineSpec.ReadsWhatIsTyped | src/repl_line.zig:136-162 | a line typed and ended is read as typed; interrupted it is empty; at the end of input it is what there is |
| LineSpec.ErasedLeavesNoTrace | src/repl_line.zig:180-187 | text, a byte, Backspace and Enter read as the text |
| LineSpec.StrayKeysChangeNothing | src/repl_line.zig:150-155 | end-of-file inside a line and bytes without a meaning change nothing |
| LineSpec.PushIs | src/repl_line.zig:55-66 | empty and repeated lines are not kept; any other is the newest entry, cut to 512 bytes, and the others grow older by one |
| LineSpec.RecallIff | src/repl_line.zig:69-73 | exactly the last fifty entries can be recalled |
| LineSpec.UpsRecall | src/repl_line.zig:218-232 | Up pressed k times shows the entry of age k, with the live line saved |
| LineSpec.DownIs | src/repl_line.zig:233-247 | Down shows the next newer entry, then the live line; Up on the oldest changes nothing |
| LineSpec.EnteredComesBack | src/repl_line.zig:145-150 | a line that was entered comes back with Up and Enter |
| LineSpec.PressKeepsValid | src/repl_line.zig:143-282 | every key keeps the line within the buffer and the position within the history |
| LineSpec.SmallBufferNeverFaults | src/repl_line.zig:218-247 | with a buffer of at most 512 bytes the program never overruns and reads every line like the ideal editor |
| LineSpec.UpDownFaults | src/repl_line.zig:218-247 | on any live line Up and then Down overruns the saved copy if and only if there is a history and the line has more than 512 bytes; otherwise it gives the line back |
| LineSpec.FaithfulIff | src/repl_line.zig:129-282 | the program agrees with the ideal editor on every history and input if and only if the buffer holds at most 512 bytes |
| LineSpec.LiveLineRestored | src/repl_line.zig:218-247 | any keys that leave the live line into the history and come back restore exactly that line, whatever was done to recalled entries |
| LineEditor.History.Get | src/repl_line.zig:69-73 | the ring gives back the entry of that age of the unbounded list, for the last 50 entries |
| LineEditor.History.Push | src/repl_line.zig:55-66 | the ring follows the unbounded list: empty and repeated lines are not kept, long ones are cut |
| LineEditor.LineBuffer.Backspace | src/repl_line.zig:180-187 | the in-place shift removes the byte before the cursor, on the buffer's bytes and on the zipper |
| LineEditor.LineBuffer.Delete | src/repl_line.zig:205-211 | the in-place shift removes the byte at the cursor, on the buffer's bytes and on the zipper |
| LineEditor.LineBuffer.InsertByte | src/repl_line.zig:271-281 | the in-place shift inserts the byte at the cursor, if there is room, on the buffer's bytes and on the zipper |
| LineEditor.LineBuffer.Move | src/repl_line.zig:163-179 | cursor and cut keys act on the zipper |
| LineEditor.ReadKey | src/repl_line.zig:136-217 | reads exactly the key at the front of the input, byte by byte |
| LineEditor.Session.PressUp | src/repl_line.zig:218-232 | Up saves the live line and recalls the next older entry, if there is one |
| LineEditor.Session.PressDown | src/repl_line.zig:233-247 | Down recalls the next newer entry or the saved line, unless that would copy back more than was saved |
| LineEditor.ReadLine | src/repl_line.zig:129-282 | for every input and history: the specification's result, the history it leaves, and a fault exactly where the specification has one |
| ValueWire.RecordIsLast | sdk/typescript/src/wire.ts:65-166 | a value's own record is in the last 24 bytes written; its pointer never exceeds the record's offset and is below it exactly when there is data |
| ValueWire.AlignedIff | sdk/typescript/src/wire.ts:126-153 | every child's record is where the decoder looks if and only if every child encodes to exactly 24 bytes |
| ValueWire.HeaderReads | sdk/typescript/src/wire.ts:192-196 | tag and flags stand in the first two bytes, the payload at 8 and the length at 16, low byte first, and are read from there |
| ValueWire.TagsAre | sdk/typescript/src/wire.ts:91-166 | each kind of value has its tag, and integers their flag |
| ValueWire.PairsAreItems | sdk/typescript/src/wire.ts:142-153 | the entries of a map are laid out like a list of keys and values alternating |
| ValueWire.RoundTrip | sdk/typescript/src/wire.ts:91-260 | decoding gives back every value whose children each fill one record, whose integers fit and which is not text beginning with a byte order mark, following pointers at most one level down |
| ValueWire.RoundTripIff | sdk/typescript/src/wire.ts:91-260 | for every value in which no string begins with a byte 0 to 6, decoding gives it back if and only if that is so |
| ValueWire.IntegerIff | sdk/typescript/src/wire.ts:102-113 | an integral number comes back if and only if it fits 64 signed bits |
| ValueWire.MarkIsDropped | sdk/typescript/src/wire.ts:215-221 | text that begins with a byte order mark comes back without it |
| ValueWire.NestedIsFlattened | sdk/typescript/src/wire.ts:126-141 | an array of one array of one record-sized value comes back without its inner array |
| ValueWire.SelfDescribingString | sdk/typescript/src/wire.ts:114-125 | a string spelling out its own record sits in the wrong place and still comes back, so misplacement alone does not decide |
| ValueWire.EndsIff | sdk/typescript/src/wire.ts:192-260 | on any memory decoding comes to an end if and only if the decoder never enters a record it is inside of, and then as many levels as memory has bytes are enough |
| ValueWire.SelfContained | sdk/typescript/src/wire.ts:223-234 | a record of an array that begins with that record itself is never decoded, at any depth |
| ValueWire.EndlessArray | sdk/typescript/src/wire.ts:126-141 | the encoder's own output for an array of one string can hold such a record |
| WireWriter.WireWriteCtx.WriteWireHeader | sdk/typescript/src/wire.ts:65-75 | a blank 24-byte header at the position, which advances; nothing else changes |
| WireWriter.WireWriteCtx.PatchWire | sdk/typescript/src/wire.ts:78-81 | payload and length of a header are filled in and nothing else changes |
| WireWriter.WireWriteCtx.EncodeGVal | sdk/typescript/src/wire.ts:91-166 | memory holds exactly the value's layout at the old position and is otherwise unchanged |
| WireWriter.EncodeThenDecode | sdk/typescript/src/wire.ts:91-260 | a well-placed value written into memory is read back, and a plain one only if it is well placed |
| EngineCall.AlignIs | examples/release-gate/gengo_engine.js:308-310 | aligning gives the next multiple of eight up to 2 GiB, a negative number from there to 4 GiB, and zero within seven bytes of that |
| EngineCall.StraightIff | examples/release-gate/gengo_engine.js:344-384 | name, records, text and result do not overlap if and only if neither the name nor the text ends within seven bytes of 4 GiB |
| EngineCall.InPlace | examples/release-gate/gengo_engine.js:344-384 | name, records, text and blank result all stand where the plan says, undisturbed by one another |
| EngineCall.OthersKept | examples/release-gate/gengo_engine.js:344-384 | nothing outside the scratch area changes |
| EngineCall.CallArgsRead | examples/release-gate/gengo_engine.js:48-75 | reading the row of records gives every argument as it is seen, in order |
| EngineCall.SeenIff | examples/release-gate/gengo_engine.js:358-380 | an argument is seen as what it is if and only if it is not an integral number other than the integer its double bits spell, nor text beginning with a byte order mark |
| EngineCall.OneIsSeenWrong | examples/release-gate/gengo_engine.js:367-372 | the number one is seen as 4607182418800017408 |
| EngineCall.Engine.WriteString | examples/release-gate/gengo_engine.js:312-317 | the bytes at the scratch position, which advances, or failure exactly when they lie outside memory |
| EngineCall.Engine.WriteArgs | examples/release-gate/gengo_engine.js:356-380 | the loop fills in every record and appends every text, or fails exactly when the texts do not fit |
| EngineCall.Engine.Prepare | examples/release-gate/gengo_engine.js:344-384 | succeeds if and only if everything fits, and then memory is exactly as planned |

## Left out

- The compiler, the bytecode VM, the heap and garbage collector, the fusion and defuse passes, the GBC reader and writer and the network policy: each would need a model of the whole VM.
- Streams are byte sequences and writes succeed; pipes have no capacity; process start, exit codes, broken pipes and signals are not modelled.
- The script engine is a function of the calls (or worker frames) made so far; its own semantics are not modelled.
- URL splitting, UTF-8, JSON and CRC-32 are not interpreted: the gateway's strings are given as bytes, a manifest is the list it encodes, a CRC is any 32-bit function of the contents.
- FcgiClient.Gateway.ReadExact: waiting for a responder that is alive but silent is not modelled.
- `parse_cgi_response` and the HTTP server of `serve.py`: plain header splitting.
- FcgiHost.Host.ReadRecord: a partial record is malformed input; blocking for the rest of it is not modelled.
- Packages.Load: sizes are those of a 64-bit host, where the checked additions cannot overflow; DEFLATE is a parameter.
- Directory walking and file reads in `buildFromRoots` are given as a listing with the result of each read; allocation failure is not modelled.
- Workers.DoKeeps: the worker protocol is a machine over atomic steps on values; the mutexes that make a request atomic, the reader goroutine left over after a timeout (it can only read from a killed worker) and the restart of a dead worker in `function.call` are not modelled.
- Registry.Deploy: a failed start or a lost race before the lock is part of the request; concurrent deploys are taken one after the other, as the lock orders them; what a crash of the machine leaves of a file that was not synced is not modelled.
- HTTP routing, authorisation and request limits of the function service: single-branch facts.
- CgiResponse.Parse: headers are a list of keys and values in order, where Go keeps a map from keys to lists; C chars are signed.
- Terminal modes, prompts and redrawing in the REPL: output only.
- ValueWire.Decode: takes the number of pointer levels to follow, because the decoder itself has no bound on memory with cyclic pointers; `ValueWire.EndsIff` says when that matters. Text is taken to be well-formed UTF-8, and an integer read from memory is not rounded to a double.
- Numbers are integers or IEEE 754 bit patterns; negative zero is the integer zero.
- EngineCall.Engine.Prepare: the call of the engine itself, its result and error text, and `registerModule` are not modelled.
- The TypeScript engine wrapper, the other example hosts and the C headers: thin wrappers.
