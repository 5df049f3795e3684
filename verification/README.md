# m6 core, verified

A Dafny model of the parts of m6 that are hardest to get right by reading them: the HTTP/1.1
ingress and egress of the backends, the log reopen protocol, routing, the layered request
dictionary, the worker pool, configuration reload, the login throttle, the calendar arithmetic of
the auth tool, pagination with its links, and the clash-checked configuration merge.

`dafny verify dfyconfig.toml` checks everything.

How it is laid out: code that updates things step by step is a `method` or a `class`, proved
equal to a function of its inputs; the properties are lemmas about those functions. Code that
several threads run at once is a state machine, one step per critical section or atomic
operation, and the results hold for every sequence of enabled steps.

| file | what it models |
|---|---|
| `Bytes`, `Chunked` | byte searches; the chunked decoder against an independent grammar of the wire format |
| `Framing` | everything `parse_request` decides once the head is parsed |
| `Expect`, `ReadLoop` | the `Expect` field; the blocking read loop against every peer |
| `Heads`, `Interim` | written heads line by line; `Expect: 100-continue` served to a client that holds its body back |
| `Cuts`, `CutSamples` | when two cuttings of a stream into reads get different answers, and messages for which they do |
| `Responder`, `Client` | heads and bodies of responses, from memory and from readers; a client that reads them back |
| `LogReopen`, `LogFile` | writers, reopeners and a rotation tool as interleaved steps; the methods as runs of those steps |
| `Routing`, `Reload` | patterns, scores and matches; the route table through reloads, and dispatch |
| `Layers` | the two-layer dictionary, shared bases, and the merge for one request |
| `Pool` | submitters and workers of the thread pool as interleaved steps |
| `Throttle` | the login throttle with the unlocked gap between check and count |
| `Calendar` | day counts and Gregorian dates |
| `Pages`, `NextLink` | bounded pages; the rewritten query of the next-page link |
| `ConfigMerge` | clash detection and deep merge of two configuration trees |

What is foreign is a parameter. `Framing.Env` holds the head parser, UTF-8 decoding and the `Host`
grammar; `Framing.Incremental` is all that is relied on: a decision of the head parser stands when
more bytes arrive, and a parsed head lies in the buffer and ends with an empty line. Peers, readers,
writers, clocks and the operating system's answers are parameters too. Integers are mathematical,
except where the width is the point (`Chunked.ParseSize`, `Framing.ParseUsize`, `Calendar.AsU64`).

Some promises turned out to hold only under a condition. Each of these is stated as an equivalence
with that condition, and at an input for which it fails:

- Every cutting of a stream gets the same answer: `Cuts.CutsAgreeExactly`. It fails for a head that
  passes the cap within one read, and for an unsupported `Expect` in a message that fits one read
  (`CutSamples.LongHeadSample`, `CutSamples.ExpectSample`).
- A fixed route beats a catch-all: `Routing.FixedBeatsCatchAllExactly`,
  `Routing.CatchAllCanOutscoreFixed`. What the score does follow, always, is inclusion of the matched
  paths (`Routing.MoreSpecific`).
- Sharing bases by the joined file list is invisible: `Layers.SharingExactly`. A file name holding
  U+0001 can break it (`Layers.SeparatorInNameCollides`).
- Skipping a static file that is also global changes nothing, as the comment in the source has it:
  `Layers.SkippingExactly`, `Layers.SkippingCanDiffer`.
- Params files win in the order of declaration: `Layers.DeclaredOrderExactly`. The base is merged
  first, so a file with a placeholder beats a static one declared after it
  (`Layers.PlaceholderBeatsLaterStatic`).
- `drain` waits for the work submitted: `Pool.DrainedHasFinishedExactly`,
  `Pool.DrainMissesQueuedJobs`; after a panic it never returns (`Pool.PanicBlocksDrain`).
- A route that passes the startup check is served: `Reload.BareRouteAnswersExactly`,
  `Reload.CheckedRouteCanAnswer404`.
- A request is answered from the state it started with: `Reload.HeldTemplateRendersExactly`,
  `Reload.ReloadCanFailARequest`.
- A response states one length: `Responder.HeadReads`, `Responder.LineEndInValueAddsALength`. Field
  texts go out as the caller gave them.
- A response is read as it was sent: `Client.ResponseReadsExactly`. Methods are compared without regard
  to case, so `head` is answered without a body (`Client.LowerCaseHeadDiffers`).
- A configured route answers only the methods it lists: `Reload.ListedMethodsExactly`,
  `Reload.TwoMethodsTakeAll`.
- `format_timestamp` prints the time of its timestamp: `Calendar.FieldsRecover`,
  `Calendar.NegativeIsFarFuture`.

## Model

| member | source | states |
|---|---|---|
| Chunked.HexBound | m6-core/src/h1.rs:244-258 | Hex digits stay below a power of 16 of their number |
| Chunked.Pow16Sixteen | m6-core/src/h1.rs:241-258 | Sixteen digits fit a 64-bit size, so the overflow branch of the accumulator is dead |
| Chunked.HexExactly | m6-core/src/h1.rs:245-253 | Digits read as a number exactly when they are that number written with the alphabets `0123456789abcdef` and `0123456789ABCDEF`, in any mix of cases and with any leading zeros |
| Chunked.SizeExactly | m6-core/src/h1.rs:241-258 | A size field is read as every number that fits from each of its written forms of one to sixteen digits, and refused exactly when it is empty, longer, or holds a byte of neither alphabet |
| Chunked.ParseSize | m6-core/src/h1.rs:241-258 | The accumulating loop with its overflow test reads exactly the value of 1 to 16 hex digits of either case, and refuses everything else |
| Chunked.SkipTrailer | m6-core/src/h1.rs:261-272 | The inner loop ends after the first empty line, or reports that it has not arrived |
| Chunked.NextItem | m6-core/src/h1.rs:231-286 | One round of the loop finds a data chunk, the end, a malformation or the need for more bytes, in the code's order of tests |
| Chunked.DecodeChunked | m6-core/src/h1.rs:226-288 | The loop terminates on every buffer and computes the decoder function |
| Chunked.DecodeStable | m6-core/src/h1.rs:226-288 | A success or a refusal is unchanged by any appended bytes |
| Chunked.DecodeLocal | m6-core/src/h1.rs:226-288 | A success is already decided by the bytes it consumed |
| Chunked.DecodeIsIncremental | m6-core/src/h1.rs:200-288 | Prefix stability, the body cap, and that every proper prefix of what a success consumed is incomplete |
| Chunked.DecodeOfWire | m6-core/src/h1.rs:226-292 | Round trip: any split into chunks, any hex case, leading zeros, extensions and trailers, followed by anything, decodes to exactly the body |
| Chunked.DoneIsWireFrom | m6-core/src/h1.rs:226-292 | What was consumed by a success is an encoding in the grammar, with that body |
| Chunked.AcceptsExactlyEncodings | m6-core/src/h1.rs:226-292 | The decoder answers with a body and a length exactly when the input starts with an encoding of that body of that length |
| Chunked.RefusesExactly | m6-core/src/h1.rs:226-288 | The decoder refuses exactly what starts, after some whole chunks within the cap, with a line that is no size, a chunk beyond the cap, or chunk data that no line end follows |
| Framing.DecimalReads | m6-core/src/h1.rs:508-518 | The length the parser writes for a decoded body is the length it reads back |
| Framing.FoldExactly | m6-core/src/h1.rs:412-446 | Header names are compared as spelled in any mix of cases |
| Framing.TrimExactly | m6-core/src/h1.rs:420-448 | Trimming leaves what stands between the outer white space |
| Framing.UsizeExactly | m6-core/src/h1.rs:508-518 | A length is read as a number exactly from its decimal digits, with leading zeros and before those one plus sign allowed, if it fits 64 bits |
| Framing.AbsoluteFormReduced | m6-core/src/h1.rs:294-315 | An absolute-form target is reduced to its path, whatever the authority, and to `/` without one |
| Framing.OtherFormsKept | m6-core/src/h1.rs:294-308 | A target that does not start with a scheme and `://` is left alone |
| Framing.SchemeExactly | m6-core/src/h1.rs:298-308 | A scheme is a letter and then letters, digits, `+`, `-` and `.` |
| Framing.StripReduces | m6-core/src/h1.rs:294-315 | Every target is reduced by dropping a scheme and an authority if it starts with them, and kept otherwise |
| Framing.SplitQueryExactly | m6-core/src/h1.rs:387-390 | Path and query are the parts before and after the first question mark, and only those |
| Framing.HasBareLf | m6-core/src/h1.rs:356-366 | The scan finds a line feed not preceded by a carriage return exactly when there is one |
| Framing.ChunkedOnlyExactly | m6-core/src/h1.rs:413-430 | The one transfer coding taken is `chunked`, in any mix of cases with white space around it |
| Framing.ScanHeaders | m6-core/src/h1.rs:405-465 | The loop over the field lines computes the scan, stopping at the first refusal |
| Framing.ScanMeaning | m6-core/src/h1.rs:405-465 | The scan refuses exactly when some line is bad or two lengths disagree; otherwise its flags, counts and forwarded lines are those of the whole list |
| Framing.ForwardExactly | m6-core/src/h1.rs:412-465 | The lines handed on are, in order, exactly the readable ones that are no transfer coding, with name and value as they were |
| Framing.AcceptedExactly | m6-core/src/h1.rs:467-518 | A field list is accepted if and only if nothing about its framing or host is in doubt; with a transfer coding the body is chunked, otherwise its length is what every `Content-Length` line reads as, or zero |
| Framing.OrderFree | m6-core/src/h1.rs:405-518 | The verdict is the same for every order of the field lines |
| Framing.CompleteIsUnambiguous | m6-core/src/h1.rs:400-571 | A complete request carries no transfer coding, every length line reads as the body's length, no length line means no body, and at most one host, exactly one for HTTP/1.1 |
| Framing.CompleteExactly | m6-core/src/h1.rs:325-571 | A request is complete with a given body if and only if the head is parsed without a bare line feed, its fields are accepted, and the bytes after it are that many bytes or an encoding of that body |
| Framing.RequestIsHeads | m6-core/src/h1.rs:325-571 | A complete request has the method and the version of its head, a path without question mark that with its query is the reduced target, and the head's lines, with the length of a decoded body added |
| Framing.RefusedExactly | m6-core/src/h1.rs:325-526 | A request is refused exactly by the head parser, for a bare line feed, for its field lines, or for its chunks |
| Framing.ParseStable | m6-core/src/h1.rs:325-571 | Acceptance and refusal are unchanged by any appended bytes |
| Framing.ParseRequest | m6-core/src/h1.rs:325-571 | The code with its loops computes the parse function |
| Expect.ReadLine | m6-core/src/h1.rs:156-177 | The loop over one line's members finds what they ask for together, keeping an earlier answer when there are none |
| Expect.ReadExpectation | m6-core/src/h1.rs:143-180 | The nested loops compute: one member not understood spoils the request, any other member asks to continue, HTTP/1.0 asks for nothing |
| Expect.ExpectedStable | m6-core/src/h1.rs:134-146 | Once the head is in, later bytes do not change the answer |
| Expect.FoldExactly | m6-core/src/h1.rs:160-170 | Texts are compared as spelled in any mix of cases |
| Expect.UnderstoodExactly | m6-core/src/h1.rs:166-176 | The one member understood is `100-continue`, in any mix of cases |
| Interim.ExpectedOfWritten | m6-core/src/h1.rs:143-180 | For every written head: nothing is asked unless its request line ends in `HTTP/1.1`; otherwise something unsupported if any `Expect` member is another text than `100-continue`, and to continue if there is a member at all |
| ReadLoop.ReadRequest | m6-core/src/parse.rs:76-165 | The loop terminates against every peer and computes the run function: result, reads made, bytes held, interim responses |
| ReadLoop.Settle | m6-core/src/parse.rs:90-128 | One turn up to the read: the parser's answer, refusal over the cap in force, refusal of an unsupported expectation, or the interim response written once when asked for |
| ReadLoop.Bounded | m6-core/src/parse.rs:86-163 | Boundedly many reads, and a buffer never more than one read past the cap in force |
| ReadLoop.InterimOnce | m6-core/src/parse.rs:111-128 | `100 Continue` at most once, only after the blank line, only for an HTTP/1.1 request line, never once the message is complete |
| ReadLoop.SilentExactlyWhenIdle | m6-core/src/parse.rs:130-163 | Against every peer, the connection is closed without an answer if and only if it ends or times out before its first byte |
| Interim.WrittenAfterHead | m6-core/src/parse.rs:111-128 | When a head that asks to continue is in, the interim response is written once, then, and whatever the peer does next |
| Interim.ContinueServed | m6-core/src/parse.rs:76-165 | A client of HTTP/1.1 that asks to continue, in any spelling, spacing and number of lines, and sends its body only after the interim response, gets exactly one after its head and then has its request returned |
| Cuts.BrokenOff | m6-core/src/parse.rs:130-163 | A stream that nothing stops is answered by how it ends: closed or timed out, after some bytes or none, or broken |
| ReadLoop.AnyCut | m6-core/src/parse.rs:76-165 | From any point on, if no prefix trips, the loop answers as for the whole stream |
| ReadLoop.OneByteTrips | m6-core/src/parse.rs:97-128 | If a prefix trips, a peer sending single bytes gets a refusal |
| ReadLoop.AnswersAsWholeExactly | m6-core/src/parse.rs:76-165 | Every cutting of the stream gets the answer for the stream taken whole if and only if no prefix trips a cap or an unsupported expectation before the parser decides |
| ReadLoop.AcceptedHeadHasBlankLine | m6-core/src/h1.rs:325-366 | A complete request's head ends in the blank line the read loop looks for |
| ReadLoop.SameRequestForEveryCut | m6-core/src/parse.rs:76-165 | A request with a head of at most 8192 bytes, within the caps and without an unsupported expectation is parsed the same for every cutting |
| Cuts.WallStops | m6-core/src/parse.rs:76-165 | A stretch of prefixes as long as one read that stops the loop with one answer gives every cutting that answer, if nothing before it stops otherwise |
| Cuts.PathAnswers | m6-core/src/parse.rs:76-165 | A cutting that follows a path of prefixes at which the loop goes on gets the answer at the end of the path |
| Cuts.ReachedIsAnswer | m6-core/src/parse.rs:76-165 | What stops the loop at a prefix that some path reaches is the answer of some cutting |
| Cuts.CutsAgreeExactly | m6-core/src/parse.rs:90-139 | Any two cuttings of a stream get the same answer if and only if nothing stops the loop before the stream ends, or some stretch of prefixes that no read of 1024 bytes steps over stops it with one answer and nothing before stops it with another |
| CutSamples.HeadBeyondOneRead | m6-core/src/parse.rs:97-109 | A head still without its blank line one read past the header cap is too large for every cutting |
| CutSamples.LongHeadDiffers | m6-core/src/parse.rs:97-109 | For every message whose blank line lies beyond the header cap but within one read of it, one cutting is accepted and another refused as too large |
| CutSamples.ExpectDiffers | m6-core/src/parse.rs:111-128 | For every message of at most one read with an unsupported expectation and a body, one cutting is accepted and another refused |
| CutSamples.LongHeadSample | m6-core/src/parse.rs:97-109 | A request of 8232 bytes for which two cuttings differ |
| CutSamples.ExpectSample | m6-core/src/parse.rs:111-128 | A request of 58 bytes with `Expect: x` for which two cuttings differ |
| CutSamples.ContinueSample | m6-core/src/parse.rs:111-128 | A request of 69 bytes with `Expect: 100-Continue`, byte by byte: one interim response after its head, and the request |
| Responder.Sink.WriteAll | m6-core/src/h1.rs:727-728 | A writer that fails has taken a prefix of what it was given |
| Responder.Responder.constructor | m6-core/src/h1.rs:672-680 | A responder suppresses bodies exactly when its method spells HEAD, and starts with no body bytes written |
| Responder.Responder.BuildHead | m6-core/src/h1.rs:806-831 | The loop writes the status line, the caller's fields except `Content-Length` and `Connection`, then its own two |
| Responder.Responder.WriteHead | m6-core/src/h1.rs:798-838 | The head goes out whole or the call fails, and the answer says whether a body may follow |
| Responder.Responder.SendWithLength | m6-core/src/h1.rs:713-732 | Head with the given length, then the body exactly where one may follow, counted as written |
| Responder.Responder.Send | m6-core/src/h1.rs:697-704 | As above with the body's own length |
| Responder.Responder.CopyBody | m6-core/src/h1.rs:767-790 | The copy loop sends exactly what the reader yields up to the promised length, and says how it ended |
| Responder.Responder.SendStream | m6-core/src/h1.rs:734-791 | Success means the promised number of bytes follows the head; a short reader is an error after exactly its bytes; no more than promised in any case; without a body the reader is never called |
| Responder.ReadHeadOfLines | m6-core/src/h1.rs:798-832 | A reader of heads gets back the lines that were written and where the body starts |
| Responder.OwnExactly | m6-core/src/h1.rs:808-815 | The fields dropped are those named `Content-Length` or `Connection`, in any mix of cases |
| Responder.HarmlessReads | m6-core/src/h1.rs:798-832 | With fields that meet the condition below a peer reads the lines that are on the wire |
| Responder.OthersKept | m6-core/src/h1.rs:808-820 | Of the caller's fields exactly those that are not `Content-Length` or `Connection` go out, as the subsequence of their lines |
| Responder.HeadReads | m6-core/src/h1.rs:798-832 | For all fields and reasons: a peer finds the body right after the head and exactly one length field with the given length, if and only if no line that they put on the wire is empty or states a length |
| Responder.LinesReadBackExactly | m6-core/src/h1.rs:798-832 | A peer reads back exactly the lines written if and only if none of them holds a line end |
| Responder.PlainIsHarmless | m6-core/src/h1.rs:808-820 | Reasons and fields without line ends, with names without a colon, meet that condition |
| Responder.LineEndInValueAddsALength | m6-core/src/h1.rs:808-820 | With a value that holds a line end and a length line a peer reads two lengths |
| Client.StatusReads | m6-core/src/h1.rs:798-807 | The status that a client reads from a status line is the one written, whatever the reason |
| Client.ResponseReadsExactly | m6-core/src/h1.rs:697-838 | A client that decides from method and status whether a body follows reads exactly the response sent and stops where it ends, if and only if both sides agree on the method |
| Client.ResponsesRead | m6-core/src/h1.rs:697-838 | Any number of responses sent one after the other on a connection are read as exactly those |
| Client.LowerCaseHeadDiffers | m6-core/src/h1.rs:672-680 | A method spelled `head` is answered without the body its head announces, and a client waits for it |
| Client.FieldReads | m6-core/src/h1.rs:808-820 | A field line gives a client back the name and the value |
| Client.PersistenceReads | m6-core/src/h1.rs:808-830 | The head says once, and rightly, whether the connection stays |
| Responder.FramedByItsLength | m6-core/src/h1.rs:734-791 | For every reader, and fields that meet that condition, the bytes after the head never exceed the length in the head and equal it exactly when the reader delivered |
| Responder.StreamedSlice | m6-core/src/h1.rs:755-791 | A reader that hands out a slice in pieces of any size gives the bytes that sending the slice would |
| Responder.PulledExactly | m6-core/src/h1.rs:767-790 | Whatever the reader does: what it hands out goes out, and the copy ends whole, short or failed as the reader stopped |
| LogReopen.StepInv | m6-core/src/log.rs:128-182 | Every step of every thread and of the rotation tool keeps the invariant: one lock holder, the handle on the newest file, every file its old contents and whole writes |
| LogReopen.RunInv | m6-core/src/log.rs:128-182 | So does every run |
| LogReopen.LogIsLanded | m6-core/src/log.rs:164-182 | The writes recorded are the writes made, in order |
| LogReopen.EveryLineLandsOnce | m6-core/src/log.rs:128-182 | In every interleaving each line lands once, in one file, in write order: the files read in the order they went live give exactly the writes made |
| LogReopen.RenamedFileIsFinished | m6-core/src/log.rs:149-161 | Once the live path exists, no run adds a byte to any other file |
| LogReopen.NoSwapInsideALine | m6-core/src/log.rs:173-177 | While a line is being written no reopen and no other line begins, and the handle stays |
| LogReopen.RenameAloneDoesNotFinish | m6-core/src/log.rs:149-161 | After a rename alone, lines still go to the renamed file |
| LogFile.ReopenableFile.constructor | m6-core/src/log.rs:133-141 | Opening the live path establishes the invariant |
| LogFile.ReopenableFile.Take | m6-core/src/log.rs:143-161 | One step of the protocol by this process |
| LogFile.ReopenableFile.WriteAll | m6-core/src/log.rs:173-177 | One line under one lock is a run of the protocol: the bytes that got out are at the end of the handle's file, everything else is unchanged |
| LogFile.ReopenableFile.Reopen | m6-core/src/log.rs:149-161 | A reopen is a run of the protocol; success leaves the handle on the live path, failure leaves everything as it was |
| LogFile.ReopenRecord.constructor | m6-core/src/log.rs:198-207 | Counts start at zero |
| LogFile.ReopenIn | m6-core/src/log.rs:277-291 | What is answered is what happened and what is counted; without a file nothing happens |
| Routing.SegmentsOfJoin | m6-core/src/app.rs:430-435 | Joining segments and splitting again loses nothing |
| Routing.AllowsExactly | m6-core/src/app.rs:237-248 | A route takes the method it is named after, GET takes HEAD as well, and any takes everything |
| Routing.SegmentsConcat | m6-core/src/app.rs:447-450 | A path is split piece by piece at its slashes, empty pieces dropped |
| Routing.JoinConcat | m6-core/src/app.rs:430-435 | Joining puts one slash between two parts |
| Routing.CompilePatternCompiled | m6-core/src/app.rs:341-367 | A compiled pattern has proper literals, and a wildcard only in last place |
| Routing.CompileRoundTrip | m6-core/src/app.rs:341-367 | Compiling a pattern written from literals, parameters and a last wildcard gives back exactly those segments |
| Routing.StarInTheMiddle | m6-core/src/app.rs:346-361 | A star anywhere but last names an ordinary parameter |
| Routing.RouteSpecificity | m6-core/src/app.rs:375-385 | The loop computes the score |
| Routing.MatchSegments | m6-core/src/app.rs:405-439 | The loop computes the match and its captures |
| Routing.MatchMeaning | m6-core/src/app.rs:405-439 | A path matches exactly when its length fits and every literal is equal |
| Routing.MatchIsDerived | m6-core/src/app.rs:405-439 | A pattern matches exactly the paths that can be written out from it: literals, any segment for a parameter, any rest for a last wildcard |
| Routing.MatchCaptures | m6-core/src/app.rs:419-438 | The captures are, in order, one for each segment that is no literal, under its name: the path segment in its place, or the rest of the path joined |
| Routing.MatchRoundTrip | m6-core/src/app.rs:419-438 | Putting the captures back into the pattern gives the path |
| Routing.WithinIsCovers | m6-core/src/app.rs:405-439 | If every path of one pattern is matched by another, the second binds no more at any position |
| Routing.CoversIsWithin | m6-core/src/app.rs:405-439 | And conversely |
| Routing.MoreSpecific | m6-core/src/app.rs:369-385 | A pattern whose paths are among another's scores at least as high, and equally only when they match the same paths |
| Routing.Best | m6-core/src/app.rs:452-464 | The winner has the highest score of the candidates and is the earliest with it; none exactly when there is no candidate |
| Routing.FindRoute | m6-core/src/app.rs:443-466 | The loop returns that winner with its captures |
| Routing.WinnerIsMostSpecific | m6-core/src/app.rs:443-466 | The winner is never strictly more general than another route matching the same path and method, and comes first among equals |
| Routing.CatchAllCanOutscoreFixed | m6-core/src/app.rs:369-385 | `/a/b/{*r}` scores 7, `/{x}/{y}/{z}` scores 6, and for `/a/b/c` the catch-all is chosen in either order |
| Routing.FixedBeatsCatchAllExactly | m6-core/src/app.rs:369-385 | A fixed pattern outscores a catch-all if and only if its literals and twice its extra length make up for the catch-all's literals |
| Layers.Dict.constructor | m6-core/src/dict.rs:45-61 | A dictionary starts as its base |
| Layers.Dict.Insert | m6-core/src/dict.rs:63-68 | An insert writes one key of the flat dictionary |
| Layers.Dict.Get | m6-core/src/dict.rs:70-76 | A lookup through two layers is a lookup in the flat dictionary |
| Layers.Dict.Len | m6-core/src/dict.rs:82-89 | The count over both layers is the number of keys of the flat dictionary |
| Layers.Dict.Iter | m6-core/src/dict.rs:95-105 | The iteration yields every entry of the flat dictionary, each key once |
| Layers.Dict.ToMap | m6-core/src/dict.rs:107-122 | Flattening gives the flat dictionary |
| Layers.MergeStatics | m6-core/src/app.rs:779-788 | The loop merges the listed files in order, leaving out those already global |
| Layers.BuildBases | m6-core/src/app.rs:696-792 | The memo gives each route the base made for the first route with its key, a file named in both lists counting as it was read as a global one |
| Layers.MergeFilesAt | m6-core/src/app.rs:762-790 | At each key the merge leaves the value of the last file that writes it |
| Layers.SharingExactly | m6-core/src/app.rs:749-792 | Sharing changes no route's base, whatever the files hold, if and only if lists with one key merge the same files in the same order |
| Layers.JoinKeyInjective | m6-core/src/app.rs:756-760 | Lists of plain names have one key only if they are equal |
| Layers.PlainNamesShareSafely | m6-core/src/app.rs:738-792 | With plain file names sharing is invisible |
| Layers.SeparatorInNameCollides | m6-core/src/app.rs:756-760 | A name holding the separator can be taken for two files |
| Layers.SkippingExactly | m6-core/src/app.rs:772-788 | Skipping already global files equals merging them again, whatever the files hold, if and only if both ways name the same files last in the same order: a condition on the two lists |
| Layers.SkippingCanDiffer | m6-core/src/app.rs:772-788 | With globals `a`, `b` and a route naming `a`, both writing one key, skipping gives another base |
| Layers.SkippingUndisturbed | m6-core/src/app.rs:772-788 | It does when no later global and no earlier static file writes one of its keys |
| Layers.SameMerge | m6-core/src/app.rs:762-790 | Lists that name the same files last in the same order merge to the same layer |
| Layers.OtherMerge | m6-core/src/app.rs:762-790 | Any other two lists merge to different layers for some files |
| Layers.ResolveStatic | m6-core/src/app.rs:1049-1055 | Resolving a name without a placeholder leaves it as it is |
| Layers.ReplaceExactly | m6-core/src/app.rs:1049-1055 | A placeholder is replaced where it stands first, and the rest is treated alike |
| Layers.ReplaceNone | m6-core/src/app.rs:1049-1055 | A text without it is kept |
| Layers.StaticExactly | m6-core/src/app.rs:751-755 | The static files of a route are, in order, those declared without a placeholder |
| Layers.DynamicExactly | m6-core/src/app.rs:853-857 | The files read per request are the others, in order, as resolved |
| Layers.DeclaredOrderExactly | m6-core/src/app.rs:749-890 | The base with the placeholder files over it equals one merge in the order of declaration, whatever the files hold, if and only if both orders name the same files last in the same order |
| Layers.PlaceholderBeatsLaterStatic | m6-core/src/app.rs:849-890 | A placeholder file beats a static one declared after it that shares a key |
| Layers.InsertFiles | m6-core/src/app.rs:853-890 | The loop inserts the files whose declared name holds a placeholder, as resolved, in order, and passes over the others |
| Layers.BuildDict | m6-core/src/app.rs:841-1013 | The layered dictionary of a request stands for one flat last-writer-wins merge of all sources in order |
| Layers.DictAt | m6-core/src/app.rs:841-1013 | At every key the dictionary holds what the first of these has: flash, claims, built-in keys, cookies, form, query, path, params files; and at the token's key otherwise the token |
| Layers.BuiltInsHold | m6-core/src/app.rs:955-968 | No params file, path parameter, query, form field or cookie changes a built-in key |
| Layers.SubmittedTokenKept | m6-core/src/app.rs:988-1010 | A submitted token is kept; the generated one is only a default |
| Pool.StepInv | m6-core/src/app.rs:1472-1539 | Every step of every submitter and worker keeps the invariant |
| Pool.RunInv | m6-core/src/app.rs:1472-1539 | So does every run |
| Pool.EachJobOnce | m6-core/src/app.rs:1472-1539 | In every interleaving each submitted job is in exactly one place and run or returned at most once, the queue keeps to its size, and `in_flight` counts the workers between its two updates and those lost to a panic |
| Pool.FirstInFirstOut | m6-core/src/app.rs:1487-1539 | In every interleaving jobs are received in the order in which they were accepted |
| Pool.NothingLeftBehind | m6-core/src/app.rs:1486-1495 | In every run a worker that leaves, panics aside, leaves a closed and empty queue |
| Pool.UnwrapsNeverFail | m6-core/src/app.rs:1527-1537 | Both `take().unwrap()` calls find the resource |
| Pool.UncountHasSomething | m6-core/src/app.rs:1490-1492 | Lowering `in_flight` never passes zero |
| Pool.DrainedExactly | m6-core/src/app.rs:1541-1546 | `drain` can return exactly when no worker is between the two updates and none has panicked |
| Pool.DrainedHasFinishedExactly | m6-core/src/app.rs:1541-1546 | A drained pool has run or returned every job submitted if and only if none is queued, none refused and not yet taken back, and none just received |
| Pool.DrainMissesQueuedJobs | m6-core/src/app.rs:1541-1546 | Right after a submit the pool counts as drained with the job still queued |
| Pool.PanicBlocksDrain | m6-core/src/app.rs:1488-1492 | After a panic no run ever lets `drain` return |
| Pool.ThreadPool.TrySubmit | m6-core/src/app.rs:1518-1539 | The resource comes back exactly when the queue is full or closed, with nothing else changed; otherwise it waits in the pool |
| Reload.BuildTable | m6-core/src/app.rs:557-630 | The two loops build the code routes and then the configured ones |
| Reload.ListedMethodsExactly | m6-core/src/app.rs:599-614 | A configured route answers no method but those it lists if and only if it lists exactly one, of five |
| Reload.TwoMethodsTakeAll | m6-core/src/app.rs:599-614 | A route that lists GET and POST answers DELETE |
| Reload.TableExactly | m6-core/src/app.rs:557-630 | First a route per registration, then one per configured route, each with the pattern, verb, template, handler and params files it was given |
| Reload.UnknownHandlers | m6-core/src/app.rs:2323-2359 | The list names exactly the routes for which nothing can answer, and is empty exactly when there is none |
| Reload.CheckedExactly | m6-core/src/app.rs:2323-2359 | A configuration passes the check if and only if every handler it names is registered and every route of it with neither handler nor template has the pattern of a registered route |
| Reload.HandlerKeyInjective | m6-core/src/app.rs:387-398 | Two signatures have one key only if they are equal |
| Reload.CodeHandlersMeaning | m6-core/src/app.rs:2768-2776 | A handler is found exactly under the registered signatures, the last of each |
| Reload.WinnerDispatches | m6-core/src/app.rs:3115-3151 | In an installed table a winning code route finds a handler of its own pattern and method, and a winning configured route is answered by the handler it names, else by its template, else 404 |
| Reload.BareRouteAnswersExactly | m6-core/src/app.rs:2336-2355 | A configuration route with neither template nor handler answers 404 if and only if it matches the path, allows the method, no code route of its pattern takes the method, and no other route is ahead of it |
| Reload.TakenForEveryMethodExactly | m6-core/src/app.rs:2345-2355 | Code routes take every method of such a route if and only if one of its pattern has its method or takes all methods |
| Reload.CheckedRouteCanAnswer404 | m6-core/src/app.rs:2336-2355 | A code route for GET and its pattern configured for any method pass the check; a POST is answered 404 |
| Reload.Service.constructor | m6-core/src/app.rs:2734-2741 | A service that starts has an installed table |
| Reload.Service.TryReload | m6-core/src/app.rs:2834-2909 | A reload installs table, renderer and level exactly when every check and the hook pass, otherwise all are unchanged; either way it is a run of the service's steps |
| Reload.StepInv | m6-core/src/app.rs:2834-2909 | Every arrival, answer and reload keeps every held table installed |
| Reload.RunInv | m6-core/src/app.rs:2834-2909 | So does every run |
| Reload.EveryRequestDispatches | m6-core/src/app.rs:3056-3151 | Over every run, whichever table a request still holds, its winner is served by the handler it names or registers |
| Reload.HeldTemplateRendersExactly | m6-core/src/app.rs:3084-3174 | Whatever happens between a request's arrival and its answer, it is routed by the table it took, and its template is rendered if and only if the last reload accepted in between still knows it |
| Reload.RendersUnlessOvertaken | m6-core/src/app.rs:3084-3174 | With renderers that know their own table's templates, a request that no accepted reload overtakes is never failed by the renderer |
| Reload.ReloadCanFailARequest | m6-core/src/app.rs:3084-3174 | A run in which a reload between arrival and answer takes the template away and the request fails |
| Reload.RefusedReloadsChangeNothing | m6-core/src/app.rs:2834-2909 | Runs in which every reload fails leave routes, renderer and level as they were |
| Throttle.RateLimiter.constructor | m6-auth-server/src/rate_limit.rs:51-57 | Nothing is counted at the start |
| Throttle.RateLimiter.IsBlocked | m6-auth-server/src/rate_limit.rs:63-74 | Blocked exactly when the address has used up its failures in a window that is not over |
| Throttle.RateLimiter.RecordFailure | m6-auth-server/src/rate_limit.rs:77-85 | With its two clock readings: one more failure in the window, or the first of a new one; other addresses unchanged |
| Throttle.RateLimiter.Clear | m6-auth-server/src/rate_limit.rs:88-90 | The address is forgotten |
| Throttle.StepBudget | m6-auth-server/src/handlers.rs:55-165 | Every step keeps: what is counted and what may still be counted by logins past the check stay in the budget until the window is over |
| Throttle.StepInv | m6-auth-server/src/handlers.rs:55-165 | Every step keeps the budget, and the table agrees with the history of failures and clears |
| Throttle.RunInv | m6-auth-server/src/handlers.rs:55-165 | So does every run |
| Throttle.CountIsWrongs | m6-auth-server/src/rate_limit.rs:77-90 | The count is the number of wrong passwords since the window opened, with no clear in between |
| Throttle.WindowBound | m6-auth-server/src/handlers.rs:55-165 | With N workers the count kept for one address never exceeds max(max_attempts, 1) + N - 1, in every interleaving |
| Throttle.WindowWrongs | m6-auth-server/src/handlers.rs:55-165 | Nor does the number of its wrong passwords counted in one window of any run |
| Throttle.BudgetReached | m6-auth-server/src/handlers.rs:55-165 | Some run counts exactly that many, for every limit and number of workers |
| Throttle.SlidingBound | m6-auth-server/src/rate_limit.rs:63-90 | Over any stretch shorter than the window without a clear, at most one less than twice that |
| Throttle.BurstReached | m6-auth-server/src/rate_limit.rs:63-90 | Some run reaches that number, for every limit and number of workers |
| Calendar.YearOfEraIs | m6-auth-cli/src/main.rs:143-147 | The formula finds the year of the era whose span holds the day |
| Calendar.NextDayCounts | m6-auth-cli/src/main.rs:140-153 | Stepping a valid date by a day adds one to its day count |
| Calendar.CivilRoundTrip | m6-auth-cli/src/main.rs:140-153 | A valid date from the epoch on is found again from its day count |
| Calendar.YmdRoundTrip | m6-auth-cli/src/main.rs:140-153 | The date found for a day count is valid and has that day count |
| Calendar.SteppedIsYmd | m6-auth-cli/src/main.rs:140-153 | For every day count the formula is the calendar stepped day by day from 1970-01-01 |
| Calendar.YmdIncreases | m6-auth-cli/src/main.rs:140-153 | More days, later date |
| Calendar.FieldsRecover | m6-auth-cli/src/main.rs:121-138 | The printed fields are a valid time and give the timestamp back exactly when it is not negative |
| Calendar.NegativeIsFarFuture | m6-auth-cli/src/main.rs:121-138 | The timestamp -1 is printed as the last second of the 64-bit range |
| Pages.NewLimits | m6-core/src/ndjson.rs:178-186 | Each limit is kept if usable and otherwise set to the nearest usable one |
| Pages.Page.constructor | m6-core/src/ndjson.rs:215-222 | A page starts empty |
| Pages.PushExactly | m6-core/src/ndjson.rs:231-263 | When a row is answered as full, as no object, as invalid, or added |
| Pages.Page.Push | m6-core/src/ndjson.rs:231-263 | The answer by how full the page is; a row not added leaves the page as it was |
| Pages.FillPage | m6-core/src/ndjson.rs:21-31 | Pushing until a row does not fit leaves exactly those rows in the page, in order |
| Pages.TakenStops | m6-core/src/ndjson.rs:231-263 | The row at which filling stops was answered as full |
| Pages.TakenWithin | m6-core/src/ndjson.rs:231-263 | A filled page keeps to its rows, and to the larger of its byte limit and its first row, and to the maximum page |
| Pages.PagesPartition | m6-core/src/ndjson.rs:21-31 | Page after page gives all rows back in order, no page empty or over its limits, none ended early, at most one page per row |
| NextLink.QuerySafeExactly | m6-core/src/ndjson.rs:295-320 | The bytes left as they are, as an alphabet |
| NextLink.CursorExactly | m6-core/src/ndjson.rs:375-388 | A cursor is 1 to 128 bytes of letters, digits and `-._~` |
| NextLink.PairExactly | m6-core/src/ndjson.rs:326-329 | A pair is cut at its first equals sign; one without is all key |
| NextLink.OthersExactly | m6-core/src/ndjson.rs:326-329 | The parameters kept are, in order, those whose key is not `cursor` |
| NextLink.EscapedExactly | m6-core/src/ndjson.rs:323-338 | Any other byte becomes a percent sign and its two digits in capitals |
| NextLink.AppendEscaped | m6-core/src/ndjson.rs:330-338 | The inner loop appends the pair with unsafe bytes escaped |
| NextLink.MakeLink | m6-core/src/ndjson.rs:322-346 | The nested loops write the link of the next query |
| NextLink.LinkReads | m6-core/src/ndjson.rs:322-346 | A client reads from the field the next query as target, and the relation `next` |
| NextLink.NextPairs | m6-core/src/ndjson.rs:322-346 | The next query, read back, is the other parameters escaped and then one cursor |
| NextLink.NextOthers | m6-core/src/ndjson.rs:326-340 | Its other parameters are the old ones escaped |
| NextLink.HopForgetsCursor | m6-core/src/ndjson.rs:326-345 | A second hop is the first with its own cursor |
| NextLink.FollowIsOneHop | m6-core/src/ndjson.rs:322-346 | Any number of hops is one hop with the last cursor: the other parameters are at a fixed point and there is exactly one cursor |
| NextLink.NextQuerySafe | m6-core/src/ndjson.rs:295-346 | Only query-safe bytes and separators are written |
| NextLink.KeyOfEscape | m6-core/src/ndjson.rs:326-340 | Escaping a pair escapes its key and its value |
| NextLink.EscapeMakesNoCursor | m6-core/src/ndjson.rs:327-329 | Escaping never turns another key into the cursor |
| NextLink.EscapeKeepsMeaning | m6-core/src/ndjson.rs:330-338 | Escaping does not change what a text decodes to, a malformed `%` being literal and `+` read either way |
| NextLink.NextKeepsMeaning | m6-core/src/ndjson.rs:322-346 | Every other parameter of the next request decodes, key and value, as before |
| ConfigMerge.FindKeyClashes | m6-core/src/config.rs:315-339 | The list names exactly the clashing paths below the prefix, dotted, after what it held |
| ConfigMerge.ClashMeaning | m6-core/src/config.rs:306-339 | A clash is a path that is a value in one tree and present in the other |
| ConfigMerge.DottedExactly | m6-core/src/config.rs:326-330 | A path is named by its keys with dots between them; empty keys at its beginning leave no trace |
| ConfigMerge.CheckClashes | m6-core/src/config.rs:306-339 | The list is empty if and only if no path is a value in one tree and present in the other |
| ConfigMerge.MergeToml | m6-core/src/config.rs:347-359 | The recursive loop computes the deep merge |
| ConfigMerge.MergeIntoEmpty | m6-core/src/config.rs:350-355 | Merging into the inserted empty table copies |
| ConfigMerge.MergeKeepsBoth | m6-core/src/config.rs:341-359 | After an empty clash list the merge holds every value of both trees and no other, and overwrites none |
| ConfigMerge.MergeCommutes | m6-core/src/config.rs:341-359 | And gives the same tree in either order |
| ConfigMerge.SecondWins | m6-core/src/config.rs:341-359 | Without the check, a value of the second tree always stands |

## Left out

- `httparse`, UTF-8 decoding and `host_is_valid` are parameters; brotli, gzip, Tera, JWT, bcrypt, SQLite and JSON are not modelled.
- Sockets, signals, file watching, and the debounce and retry of reloads.
- The sums at m6-core/src/h1.rs:274 and 277 and the failure count of the throttle are mathematical integers here; they do not wrap.
- `append_tail` and `newest_rotated` of the log, and the times kept beside the reopen counts: they would only add easy members.
- Rotation tools that do more than rename the live path to a fresh name: removing a file, or creating the live path themselves.
- Mutexes poisoned by a panic.
- `status_reason` is a parameter of the responder; `keep_alive` and the other small tables are left out.
- The error paths of `build_dict` (refused path parameters, unreadable files), the cache of params files, which may answer with an older content, and the parsing of queries, forms, cookies and claims: their results are the inputs of `Layers.BuildDict`. Values are opaque.
- What a renderer knows is a parameter of each reload; rendering itself is not modelled.
- Route fields that dispatch does not look at: status, cache, headers, settings, modification times.
- ConfigMerge.MergeToml: works on values; that the destination is updated in place is not captured.
- Pages.FillPage: the loop over rows is the documented use of a page; each service has its own.
- `Cursor::from_query`, which reads the cursor back through code that is not part of this model.
- Fairness and progress of threads: the results are about what every run keeps, not about what must eventually happen.
