# Verified core of the web server and its clients

A Dafny model of the parts of this file-management server in which something can go
wrong quietly: parsers fed in pieces, clients and sockets shared between threads,
downloads that are interrupted and resumed, and the byte arithmetic of HTTP and FTP.
Stateful code is modelled by classes, loops by methods with invariants, concurrent code
by state machines whose steps are the locked sections and single statements of the code.
Each of them is tied to a function or a predicate that says what it is for, and the
results are stated for every input, every cut of the input or every run.

| file | subject |
|---|---|
| `Text.dfy`, `Streams.dfy` | searching, splitting and trimming; the two ends of a connection |
| `Url.dfy`, `QueryKeys.dfy` | percent coding and query strings (section 2.1 of RFC 3986), and which keys they carry |
| `MultipartSpec.dfy` | what a multipart body means: a reader of whole texts, and the serializer (section 5.1.1 of RFC 2046, section 4 of RFC 7578) |
| `MultipartParser.dfy`, `MultipartRoundTrip.dfy`, `MultipartBody.dfy` | the push parser on values: every cut, the round trip, conservation of content |
| `MultipartHeaders.dfy` | header lines of any writer: letter case, order, unknown fields, extended filenames |
| `MultipartNames.dfy`, `MultipartLimits.dfy`, `MultipartOpening.dfy` | exactly which names survive, which bodies come through under every cut, and which cuts lose the opening line |
| `MultipartClass.dfy` | the parser object with its sliding buffer, proved to be the parser on values |
| `SocketOwnership.dfy` | who may close the socket of an HTTP client |
| `Redirect.dfy` | sends nested by redirects, challenges and resending |
| `ClientPool.dfy`, `PoolUse.dfy` | the pool of remote clients, and which of them are kept and handed out |
| `Downloads.dfy`, `DownloadRuns.dfy`, `DownloadStates.dfy` | the background download queue and its thread; runs that go wrong, and exactly when none does; the life of a row |
| `Transfer.dfy` | downloading by seeking, and serving a range |
| `Chunked.dfy` | chunked coding (section 7.1 of RFC 9112) |
| `RangeHeader.dfy`, `ByteRanges.dfy` | range requests (sections 14.1.2, 14.4 and 14.6 of RFC 9110) |
| `Base64.dfy` | two encoders and a decoder (section 4 of RFC 4648) |
| `FtpControl.dfy` | lines and replies of the FTP control connection (section 4.2 of RFC 959), text transfer |
| `ThreadPool.dfy` | the worker threads of the server |

## What the code does not do

Where a property one would expect does not hold, the code is modelled as it is, a lemma
shows the failure from the start of a run, and another states exactly when the property
does hold.

- An opening boundary line cut in two is thrown away (`OpeningMustBeWhole`), and the
  written parts come back exactly if the first non-empty piece is long enough to hold it
  (`ComesBackIff`).
- A header line of exactly 8192 bytes is refused under some cuts and taken under others
  (`LimitDependsOnCut`), and bytes after the closing delimiter are ignored in the same
  piece but may open a new part in a later one (`LateEpilogueOpensPart`).
  `EveryCutDeliversIff` says exactly which bodies come through under every cut.
- Names and filenames are not escaped; they survive exactly if free of `;`, `=`, CR and
  LF, while quotes are harmless (`NamesSurviveIffPlain`). Keys of a query are not escaped
  either, and come back exactly if they are plain (`PairComesBackIff`).
- A send nested in another resets the mark that `stop` has set (`NestedSendForgetsStop`);
  the mark is kept exactly if no request begins (`StopKeptIff`).
- A nested send that fails because the peer had closed makes every send around it send
  again as well, so the number of requests doubles with each redirect before it
  (`ResendsMultiply`); without credentials that is the most there can be
  (`PlainRequestsBounded`, `PlainRequestsAttained`), and likewise for challenges when
  redirects are not followed (`ChallengesBounded`, `ChallengesAttained`).
- A resumed download that fails while the console goes to rest is never taken up again
  (`StrandedRun`, `StrandedForever`); nothing else strands a download (`RunStrandsIff`).
- A temporary file left over by something else, or by another unfinished download with
  the same destination, is continued on resume, or taken for the whole file if it is as
  long (`StaleTempIsContinued`, `SharedDestinationMixes`). A download is right in every
  run exactly if what is there already is a beginning of its source
  (`OneDownloadExactIff`), and two to one destination exactly if their sources have the
  same bytes (`SharedDestinationExactIff`).
- A range that reaches beyond the end is not cut back: Content-Range is right, and the
  length sent with it agrees exactly for ranges within the content
  (`RangeHeader.LengthAgreesIff`, `ByteRanges.LengthAgreesIff`). One that starts beyond
  the end and names no last position is even served, as nothing, under a length that has
  wrapped around (`OpenBeyondEnd`, `AnnouncedIff`).
- A range request for no bytes prints a header that the server refuses
  (`GetRangeAnsweredIff`).
- A provider call that ends with an empty write ends a chunked stream without its end
  marker (`ChunkedRoundTrip`).
- Two text writes that part a CR from its LF send CR CR LF (`WritesJoinIffNotSplit`).
- The thread pool accepts jobs when every worker has left (`LateJobIsLost`); all accepted
  jobs are run exactly if that does not happen (`CompleteIff`).

## Model

| member | source | states |
|---|---|---|
| `Text.SplitScan` | source/http/httplib.cpp:292-321 | The cutting loop gives the trimmed, non-empty pieces between separators, in order. |
| `Text.FindStable` | source/http/httplib.cpp:2306-2327 | A delimiter found in the bytes at hand stays the first one whatever arrives later. |
| `Text.FindLate` | source/http/httplib.cpp:2224-2234 | Without a match, no later match can start before the last bytes that are held back. |
| `Url.EncodeQueryParamLoop` | source/http/httplib.cpp:165-184 | The escaping loop computes the percent coding of every byte string. |
| `Url.DecodeUrlLoop` | source/http/httplib.cpp:218-253 | The index loop computes the step-by-step decoding, malformed escapes and `%uXXXX` included. |
| `Text.QuotesTaken` | source/http/httplib.cpp:289-294 | Quotes are taken off only in pairs, and only one pair. |
| `Text.LastValueCounts` | source/http/httplib.cpp:2045-2067 | With more than one sign in a parameter the last value counts. |
| `Url.DecodeEncode` | source/http/httplib.cpp:178-254 | Decoding inverts encoding on every byte string, whether or not a plus sign means a blank. |
| `Url.SpellingsDecode` | source/http/httplib.cpp:217-254 | However each character is written (as itself, as a plus sign, by two hexadecimal digits or by four after u, in either case), decoding finds what was meant; a plus sign is a blank exactly in query strings. |
| `Url.Utf8Reads` | source/http/httplib.cpp:51-83 | A four-digit code is decoded to its UTF-8 form in as few bytes as can hold it, a surrogate to nothing. |
| `Url.EncodedChars` | source/http/httplib.cpp:165-184 | Encoded text holds no separator and no blank. |
| `Url.ParamsToQueryStr` | source/http/httplib.cpp:1999-2009 | The printing loop gives the query string of the parameter list. |
| `Url.ParseQueryText` | source/http/httplib.cpp:2011-2032 | The parsing loop with its cache of seen pieces computes the pairs of the text. |
| `Url.PairRoundTrip` | source/http/httplib.cpp:1999-2032 | A printed pair is read back as that pair. |
| `Url.QueryRoundTrip` | source/http/httplib.cpp:1999-2032 | Parsing a printed query gives every pair with a plain key back, in order and once, for arbitrary byte values. |
| `QueryKeys.PairComesBackIff` | source/http/httplib.cpp:1999-2032 | A printed pair comes back if and only if its key is plain: not empty, no separator, no trimming, unchanged by decoding. |
| `MultipartParser.StepMeaning` | source/http/httplib.cpp:2128-2255 | Every round of the parser's loop, in each of its five states, keeps what the reference reader finds in the whole text. |
| `MultipartParser.DrainKeeps` | source/http/httplib.cpp:2121-2258 | One call keeps that meaning or finishes the body. |
| `MultipartParser.WaitingIsIncomplete` | source/http/httplib.cpp:2121-2258 | More input is asked for only when the bytes at hand do not complete the body. |
| `MultipartParser.OpeningMustBeWhole` | source/http/httplib.cpp:2130-2137 | A piece without the whole opening line is thrown away. |
| `MultipartParser.PiecesSkipped` | source/http/httplib.cpp:2130-2137 | All pieces before the first one with a whole opening line are lost, and nothing else. |
| `MultipartParser.EveryCutDelivers` | source/http/httplib.cpp:2111-2352 | Under every cut, from the first piece with a whole opening line on, the callbacks see exactly the reference parts and the parser ends valid, if header lines are below the limit and the epilogue is tolerable. |
| `MultipartParser.RestingRun` | source/http/httplib.cpp:2237-2253 | After the end, a tolerable epilogue reports nothing and leaves the parser valid, however it arrives. |
| `MultipartParser.ValidOnlyOnBodies` | source/http/httplib.cpp:2111-2352 | The parser becomes valid only on a text that the reference reader accepts with the parts reported. |
| `MultipartRoundTrip.DispositionRead` | source/http/httplib.cpp:2171-2206 | The printed disposition line is read back as name and filename. |
| `MultipartRoundTrip.TypeRead` | source/http/httplib.cpp:2160-2170 | The printed content type line is read back as the trimmed type. |
| `MultipartRoundTrip.ReadSerialized` | source/http/httplib.cpp:2402-2445 | The reference reader finds in a serialized body exactly the parts that were serialized. |
| `MultipartRoundTrip.MultipartRoundTrip` | source/http/httplib.cpp:2111-2445 | Serialized parts, fed in any cut whose first non-empty piece holds the opening line, are reported with the same names, filenames, types and contents in order, and the parser ends valid. |
| `MultipartHeaders.StartsIff` | source/http/httplib.cpp:2267-2276 | A line starts with a field name exactly if that name, with letters in either case, stands there. |
| `MultipartHeaders.HeaderIff` | source/http/httplib.cpp:1489-1523 | A line with a colon is a header exactly if it has a name before the first colon and something other than blanks after it. |
| `MultipartHeaders.NoColonRejected` | source/http/httplib.cpp:1489-1500 | A line without a colon makes the body invalid. |
| `MultipartHeaders.DispositionSpelt` | source/http/httplib.cpp:2171-2192 | In any letter case and with any space between, a disposition line gives the part its name and filename. |
| `MultipartHeaders.TypeSpelt` | source/http/httplib.cpp:2166-2170 | In any letter case and with blanks around the value, a type line gives the part its type. |
| `MultipartHeaders.OtherLine` | source/http/httplib.cpp:2166-2176 | A header of any other name leaves the part as it is. |
| `MultipartHeaders.ExtendedRead` | source/http/httplib.cpp:2194-2209 | An extended filename, percent coded, takes the place of a plain one, with its character set in any letter case. |
| `MultipartHeaders.ReadAnyBody` | source/http/httplib.cpp:2110-2257 | The reference reader finds what the header lines of every part say together, for bodies of any writer. |
| `MultipartHeaders.AnyBodyDelivers` | source/http/httplib.cpp:2110-2257 | And the parser reports those parts under every cut that leaves the opening line whole. |
| `MultipartHeaders.RespeltDelivers` | source/http/httplib.cpp:2160-2214 | Letter case, order of the header lines, unknown fields between them and space after names do not matter: every such cut reports the parts that were spelt. |
| `MultipartHeaders.OwnLinesRespelt` | source/http/httplib.cpp:2166-2176 | The two lines of the library's own writer with their fixed parts respelt are such lines. |
| `MultipartOpening.BehindRun` | source/http/httplib.cpp:2128-2255 | A parser that has missed the start of a written body stays short of it over every run and never reports what was written. |
| `MultipartOpening.DelimiterClear` | source/http/httplib.cpp:2402-2445 | No delimiter in a written body ends in a header section or behind the last part. |
| `MultipartOpening.ComesBackIff` | source/http/httplib.cpp:2111-2445 | Under every cut of every written body the parts come back exactly if the first non-empty piece is at least as long as the opening line. |
| `MultipartClass.MultipartFormDataParser.BufAppend` | source/http/httplib.cpp:2329-2345 | Appending moves the live bytes to the front and adds the new ones behind them. |
| `MultipartClass.MultipartFormDataParser.BufErase` | source/http/httplib.cpp:2347-2347 | Erasing drops that many live bytes. |
| `MultipartClass.MultipartFormDataParser.StartWith` | source/http/httplib.cpp:2287-2304 | Comparing in place decides whether the text occurs at that place of the window. |
| `MultipartClass.MultipartFormDataParser.BufFind` | source/http/httplib.cpp:2306-2327 | The search in place returns the first match in the live bytes, or their number. |
| `MultipartClass.MultipartFormDataParser.ParseOpening` | source/http/httplib.cpp:2130-2137 | The opening state on the buffer is the opening step on values. |
| `MultipartClass.MultipartFormDataParser.ParseHeaders` | source/http/httplib.cpp:2143-2212 | The header loop on the buffer is the header step on values, limit and rejections included. |
| `MultipartClass.MultipartFormDataParser.ParseBody` | source/http/httplib.cpp:2214-2236 | The content state on the buffer is the content step on values. |
| `MultipartClass.MultipartFormDataParser.ParseBoundary` | source/http/httplib.cpp:2237-2253 | The delimiter state on the buffer is the delimiter step on values. |
| `MultipartClass.MultipartFormDataParser.Parse` | source/http/httplib.cpp:2121-2258 | A call of the object is exactly one feed of the value model, so all results about feeds hold of the object. |
| `MultipartBody.FinishedPartsStay` | source/http/httplib.cpp:2214-2252 | Over every run a part whose delimiter was seen stays as it was reported. |
| `MultipartBody.ContentConserved` | source/http/httplib.cpp:2214-2236 | Without a delimiter, under every cut, bytes handed on followed by bytes held back are the bytes received. |
| `MultipartBody.ContentEndsAtDelimiter` | source/http/httplib.cpp:2214-2236 | With a delimiter, under every cut, the part holds exactly the bytes before its first occurrence. |
| `MultipartNames.NameSurvivesIffPlain` | source/http/httplib.cpp:2171-2206 | A name comes back exactly when it is free of `;`, `=`, CR and LF. |
| `MultipartNames.FilenameSurvivesIffPlain` | source/http/httplib.cpp:2189-2205 | A filename comes back exactly when it is free of them too, the extended form included. |
| `MultipartNames.NamesSurviveIffPlain` | source/http/httplib.cpp:2171-2206 | Name and filename both come back exactly when both are plain. |
| `MultipartNames.ReadNamesArePlain` | source/http/httplib.cpp:2158-2207 | No header line whatever yields a name with a separator or line end in it. |
| `MultipartLimits.TokenCut` | source/http/httplib.cpp:2128-2255 | Fed token by token, every body without a header line above the limit comes through. |
| `MultipartLimits.RefusingCut` | source/http/httplib.cpp:2144-2146 | Every body with a header line at or above the limit has a cut that is refused. |
| `MultipartLimits.SpoilingCut` | source/http/httplib.cpp:2237-2253 | Every text that the header state cannot go on taking has a cut that is refused or reports a part. |
| `MultipartLimits.EveryCutDeliversIff` | source/http/httplib.cpp:2111-2352 | A body comes through under every cut with a whole opening line first, if and only if its header lines are below the limit and its epilogue is tolerable. |
| `MultipartLimits.LimitDependsOnCut` | source/http/httplib.cpp:2144-2146 | A body whose longest header line has exactly 8192 bytes has, from the start, a cut that delivers it and one that is refused. |
| `MultipartLimits.LateEpilogueOpensPart` | source/http/httplib.cpp:2237-2253 | After any written body, two line ends in a piece of their own open another part. |
| `SocketOwnership.ClientImpl.ShutdownSsl` | source/http/httplib.cpp:4541-4547 | Shutting TLS down meets its assertions and leaves no session. |
| `SocketOwnership.ClientImpl.CloseSocket` | source/http/httplib.cpp:4554-4571 | Closing is done only under both in-code assertions, on the caller and on the TLS session, and leaves no socket. |
| `SocketOwnership.ClientImpl.BeginRequest` | source/http/httplib.cpp:4619-4673 | The locked beginning of a request is the begin step, failed connections, tunnels and TLS sessions included, every assertion met. |
| `SocketOwnership.ClientImpl.EndRequest` | source/http/httplib.cpp:4685-4701 | The locked end of a request is the end step, both assertions met. |
| `SocketOwnership.ClientImpl.StopAll` | source/http/httplib.cpp:5706-5727 | Stop shuts the socket down and marks it while a request is in flight, and closes it otherwise. |
| `SocketOwnership.StepKeeps` | source/http/httplib.cpp:4609-4706 | Every step keeps: the count is the holder's requests in flight, and the owner is the holder while it is positive. |
| `SocketOwnership.StepSafe` | source/http/httplib.cpp:4541-4571 | Every step meets every assertion of the code, those on TLS included, and none closes the socket under another thread's request. |
| `SocketOwnership.EveryRunSafe` | source/http/httplib.cpp:4609-4706 | Both hold at every step of every interleaving of any number of threads, nested sends included. |
| `SocketOwnership.EveryRunFromStartSafe` | source/http/httplib.cpp:4744-4757 | The same from the initial state, with the close made while a response is handled. |
| `SocketOwnership.OnlyDropsClose` | source/http/httplib.cpp:4554-4571 | The steps counted as closing are exactly those that take an open socket away. |
| `SocketOwnership.StopHonoured` | source/http/httplib.cpp:5706-5727 | After stop, while no request begins, the socket stays marked and is closed when the last request ends. |
| `SocketOwnership.MarkStaysIff` | source/http/httplib.cpp:4620-4625 | Between two stops the mark stays set exactly as long as no request begins. |
| `SocketOwnership.StopKeptIff` | source/http/httplib.cpp:5706-5727 | A stop made during a request is still on record exactly if no request has begun since, and then the socket is closed at the end. |
| `SocketOwnership.ConnectionAfter` | source/http/httplib.cpp:4619-4695 | Only a begin makes a connection, and only a stop during a request shuts one down without closing it; the mark, the session and the shutdown follow step by step. |
| `SocketOwnership.InFlightAfter` | source/http/httplib.cpp:4619-4669 | A begin puts its request in flight exactly if it found a live socket or made a connection, and then on an open socket. |
| `SocketOwnership.StopEndsUse` | source/http/httplib.cpp:5706-5727 | After a stop no request of any thread begins on the old connection, in any run. |
| `SocketOwnership.NestedSendForgetsStop` | source/http/httplib.cpp:4620-4625 | A nested send resets the mark: a run in which a stop is forgotten and a socket left open. |
| `ClientPool.SharedPool.TakeIdle` | source/server/http_server.cpp:214-247 | The locked loop takes the newest idle client that is not too old and collects the expired ones. |
| `ClientPool.SharedPool.PutBack` | source/server/http_server.cpp:273-297 | The locked part of a release is the release of the pool model; which clients it keeps is stated by PoolUse.ReleasedIffWelcome. |
| `ClientPool.SharedPool.Clear` | source/server/http_server.cpp:305-324 | Clearing hands out every idle client and empties all three maps. |
| `ClientPool.StepKeeps` | source/server/http_server.cpp:130-344 | Every step keeps: idle clients are live, distinct, filed under their key, at most 12 per key, exactly those with an idle time, and with no user; no two users share one. |
| `ClientPool.EveryRunSafe` | source/server/http_server.cpp:130-344 | The same after every interleaving of any number of users, addresses reused after destruction. |
| `ClientPool.EveryRunFromStartSafe` | source/server/http_server.cpp:130-344 | And so from the empty pool on. |
| `ClientPool.DestroyedOnce` | source/server/http_server.cpp:205-212 | A destroyed client was live, and afterwards its address is in no map and with no user. |
| `ClientPool.ClearOrphans` | source/server/http_server.cpp:305-330 | A client out when the pool is cleared is no longer known to the pool. |
| `ClientPool.ClearedIsDestroyedOnRelease` | source/server/http_server.cpp:318-330 | Over every run it stays so, and its release destroys it. |
| `PoolUse.AcquireFinds` | source/server/http_server.cpp:217-247 | An acquire finds the newest client of the key asked for that is within its timeout; all those behind it have expired, those before it stay, and no other list, time or key changes. |
| `PoolUse.ReleasedIffWelcome` | source/server/http_server.cpp:273-303 | A released client goes to the back of the idle list of its key exactly if its use went well, the pool still knows it and fewer than 12 are idle there; otherwise its user destroys it and the pool forgets it. |
| `PoolUse.UnfitNeverHandedOut` | source/server/http_server.cpp:273-303 | A client that was released and not kept is handed out by no run, until a new client is made at its address. |
| `PoolUse.NeverHandedOutAgain` | source/server/http_server.cpp:205-303 | The same for every client that only those about to destroy it still have. |
| `PoolUse.DestroyedIsDoomed` | source/server/http_server.cpp:205-209 | A destroyed client is one of them. |
| `PoolUse.AcquireRemembers` | source/server/http_server.cpp:214-247 | An acquire remembers the key and whether the client may be pooled; a client that it found is known under that key. |
| `PoolUse.HandedOver` | source/server/http_server.cpp:249-267 | A client made for a reusable acquire becomes known under the key asked for, one made for another stays unknown to the pool. |
| `PoolUse.ReturnsToItsKey` | source/server/http_server.cpp:214-303 | Through every run of the others without a clear, a client in use stays known under its key, and its release files it there if it is fit and there is room. |
| `PoolUse.NoneLostEver` | source/server/http_server.cpp:130-344 | Over every run each live client is idle in the pool or in the hands of a user: none is lost. |
| `PoolUse.NobodyStuck` | source/server/http_server.cpp:130-344 | In every state that can be reached, a user in the middle of something can go on. |
| `Downloads.DownloadList.Sweep` | source/server/http_server.cpp:366-380 | The erasing walk leaves exactly the rows not flagged, in order, and reports whether any was. |
| `Downloads.DownloadList.ClearHistory` | source/server/http_server.cpp:644-656 | Clearing the history flags exactly the finished rows, erases none and reports how many they are. |
| `DownloadStates.ClearHistoryIsARun` | source/server/http_server.cpp:644-656 | The loop is a run of single flagging steps of the machine, and an unflagged row is flagged by it exactly if it is finished. |
| `Downloads.StepKeeps` | source/server/http_server.cpp:366-497 | Every step keeps: a flagged row is finished, ids are distinct, and the row in work is the one the progress pointer denotes. |
| `Downloads.RowsEvolve` | source/server/http_server.cpp:382-497 | A row only moves forward: attempts never fall, success is never left, a finished row stays as it is, and only flagged rows are erased. |
| `DownloadStates.StepTables` | source/server/http_server.cpp:395-492 | A row enters success exactly when its transfer ends well and failure exactly when it ends badly outside rest; attempts grow by one exactly when a resumed transfer fails outside rest, Get calls exactly when Get is called for it. |
| `DownloadStates.TakenUpIff` | source/server/http_server.cpp:382-438 | With a client at hand a row is taken up exactly if it is pending (from the start), or interrupted or failed less than five times (resumed). |
| `DownloadStates.FinishedIffPassedOver` | source/server/http_server.cpp:382-438 | A row is finished exactly if the thread passes it over though it is not stranded. |
| `DownloadStates.SuccessIsFinal` | source/server/http_server.cpp:422-432 | A finished transfer is recorded as success exactly if it went through; then no continuation calls Get for its row again, and the row stays so until it is erased. |
| `DownloadStates.GivenUpIsFinal` | source/server/http_server.cpp:472-487 | The fifth failure of a resumed transfer is the end: no continuation tries again. |
| `DownloadStates.SixGetsAttained` | source/server/http_server.cpp:382-487 | The bound of six Get calls is attained from the start of the process. |
| `DownloadStates.NoRowSkipped` | source/server/http_server.cpp:382-497 | Within a pass no row between where the thread was and where it is has been left out. |
| `DownloadStates.PassIsComplete` | source/server/http_server.cpp:382-497 | A pass that comes to its end without a failure has looked at every row, rows appended meanwhile included. |
| `Downloads.EveryRunSafe` | source/server/http_server.cpp:346-497 | Over every run at most six Get calls per row, at most five attempts, and at most one failed transfer per pass. |
| `Downloads.ContentsStep` | source/server/http_server.cpp:408-494 | Every step keeps the temporary file a beginning of the remote file and the counter its length. |
| `Downloads.RenamedIsComplete` | source/server/http_server.cpp:408-432 | A destination gets its file only when it equals the whole remote file. |
| `Downloads.EveryRunExact` | source/server/http_server.cpp:408-494 | The contents stay right over every pattern of short reads, errors, rests and retries. |
| `Downloads.CleanRunExact` | source/server/http_server.cpp:408-494 | Every run with clean appends completes downloads only with the whole remote file. |
| `Downloads.EveryDownloadExact` | source/server/http_server.cpp:346-497 | The same from the start of the process: rows may share a destination with finished rows, or with rows that ask for the same bytes. |
| `DownloadRuns.SharedDestinationMixes` | source/server/http_server.cpp:384-494 | From the start of the process, the first of two rows with one destination is completed with n bytes of the second in front, right exactly if they are a beginning of its own source. |
| `Downloads.StrandsIff` | source/server/http_server.cpp:472-487 | From a state without stranded rows, a step of any thread strands one exactly if it ends a resumed transfer without success during rest. |
| `Downloads.RunStrandsIff` | source/server/http_server.cpp:346-497 | Over whole runs: a row is stranded at the end exactly if that happened on the way. |
| `DownloadRuns.StrandedRun` | source/server/http_server.cpp:434-487 | It happens: a run from the start of the process that strands its only row. |
| `Downloads.StrandedForever` | source/server/http_server.cpp:382-440 | No continuation takes such a row up again or finishes it. |
| `DownloadRuns.OneDownloadExactIff` | source/server/http_server.cpp:384-497 | A single download is right in every run if and only if nothing but a beginning of its source is there under its temporary name. |
| `DownloadRuns.SharedDestinationExactIff` | source/server/http_server.cpp:384-497 | Two downloads to one destination are right in every run if and only if their sources have the same bytes. |
| `DownloadRuns.StaleTempIsContinued` | source/server/http_server.cpp:384-470 | From the start of the process, a file left over under the temporary name, of whatever length, is continued or taken for the whole, and the result is the remote file exactly if the leftover was a beginning of it. |
| `Transfer.Get` | source/clients/smbclient.cpp:102-145 | The download loop moves the remote bytes from the offset on, the counter in step; it succeeds exactly if both files opened and no read failed, and then it has reached the end. |
| `Transfer.ResumeExactIffPrefix` | source/clients/nfsclient.cpp:102-146 | A completed resume gives the remote file exactly when it continued a beginning of it. |
| `Transfer.WriteData` | source/http/httplib.cpp:1767-1775 | The write loop sends a beginning of the data; it succeeds exactly if no write failed, which is exactly if all of it went out. |
| `Transfer.DataSink.Write` | source/http/httplib.cpp:1785-1794 | The sink advances by exactly what was sent; it is good after a write exactly if it was before and nothing failed. |
| `Transfer.GetRange` | source/clients/smbclient.cpp:177-251 | Reading a range succeeds exactly if nothing failed on either side and the file has the whole range; it sends a beginning of the slice, all of it on success, and never asks for more than was negotiated. |
| `Transfer.WriteContent` | source/http/httplib.cpp:1778-1813 | Serving a range succeeds exactly if the server was seen going down first, or nothing failed and the file has what is to be sent (nothing, if the 64-bit end wraps around); all of it goes out with one provider call, and the error tells which side failed. |
| `Chunked.FromIToHex` | source/http/httplib.cpp:41-49 | The digit loop prints a length in hexadecimal. |
| `Chunked.LengthRoundTrip` | source/http/httplib.cpp:41-49 | A printed chunk length is parsed back, for every length below the overflow value. |
| `Chunked.LineReader.Append` | source/http/httplib.cpp:375-386 | The fixed buffer with its spill-over holds the line read so far. |
| `Chunked.LineReader.Getline` | source/http/httplib.cpp:349-373 | However the stream is fragmented, the next line is read and nothing beyond it. |
| `Chunked.ReadContentWithLength` | source/http/httplib.cpp:1564-1584 | Reads exactly the length asked for, however fragmented. |
| `Chunked.ReadContentChunked` | source/http/httplib.cpp:1612-1665 | The reader computes the decoding of the stream: payload, completeness and what follows. |
| `Chunked.WriteContentChunked` | source/http/httplib.cpp:1858-1961 | The writer puts out one chunk for every non-empty write and the end marker after done. |
| `Chunked.FrameRead` | source/http/httplib.cpp:1612-1645 | A printed chunk is read back as its payload. |
| `Chunked.ChunkedRoundTrip` | source/http/httplib.cpp:1612-1961 | The payload is read back whole exactly when the provider says done before a call ends with an empty write; otherwise the reader reports a truncated stream. |
| `Chunked.LengthRead` | source/http/httplib.cpp:1612-1631 | A length line of any sender (digits in either case, zeros before them, an extension after them) is read as its number. |
| `Chunked.TrailerSkippedIff` | source/http/httplib.cpp:1645-1661 | A trailer section with any fields is skipped exactly if none of its lines is too long. |
| `Chunked.AnySenderRead` | source/http/httplib.cpp:1612-1661 | Frames of any sender and a trailer with fields: the payload is read whole and what follows is left alone exactly if no field is too long. |
| `Base64.EncodeBlocks` | source/base64.h:9-50 | The block encoder computes the encoding for two bytes or more. |
| `Base64.EncodeBits` | source/http/httplib.cpp:85-111 | The bit accumulator with 32-bit wrap-around computes the same encoding for every input. |
| `Base64.DecodeText` | source/base64.h:57-107 | The decoder refuses lengths not divisible by four and otherwise drops the padding. |
| `Base64.EncodedLength` | source/base64.h:9-50 | The encoding has four characters for every started group of three bytes. |
| `Base64.StandardKnown` | source/base64.h:57-80 | The decoding table inverts the alphabet. |
| `Base64.StandardOnly` | source/base64.h:57-80 | And it has an entry for nothing else but the padding. |
| `Base64.DecodeEncode` | source/base64.h:9-107 | Decoding inverts the encoding on every non-empty input. |
| `Base64.EncodersAgree` | source/base64.h:9-107 | For every alphabet that the decoder knows, the two encoders agree and the decoder gives the input back. |
| `Base64.StandardEncodersAgree` | source/http/httplib.cpp:85-111 | So with the alphabet of the standard. |
| `FtpControl.FtpHandle.Receive` | source/clients/ftpclient.cpp:296-308 | Called only with an empty buffer at full capacity, it keeps what is pending. |
| `FtpControl.FtpHandle.Readline` | source/clients/ftpclient.cpp:240-311 | However the stream is fragmented, a line that fits is taken whole with CR LF turned into LF; one that does not is cut to an empty text, and the terminator falls beyond the buffer exactly if as many bytes have arrived as it holds; -1 only at the end or on an error. |
| `FtpControl.FtpHandle.ReadResponse` | source/clients/ftpclient.cpp:207-233 | However fragmented, exactly one single- or multi-line reply is consumed and its last line judged. |
| `FtpControl.StartsLike` | source/clients/ftpclient.cpp:217-229 | The comparison with the code is right whatever an earlier line left in the buffer. |
| `FtpControl.DataHandle.Writeline` | source/clients/ftpclient.cpp:947-988 | All of the text goes out with CR before every bare LF, or a beginning of it, whatever the buffer size; it fails exactly if a write failed or took a part only. |
| `FtpControl.WritesJoinIffNotSplit` | source/clients/ftpclient.cpp:947-988 | Two writes send the same as one exactly if they do not part a CR from its LF. |
| `FtpControl.TextRoundTripIff` | source/clients/ftpclient.cpp:947-988 | A text sent and read back by lines is the same exactly if it has no CR LF in it. |
| `Redirect.DepthBound` | source/http/httplib.cpp:4609-4617 | Whatever the servers answer, sends nest no deeper than redirects and authorizations left. |
| `Redirect.NewRequestDepth` | source/http/httplib.h:576-580 | For a new request that is 25. |
| `Redirect.DepthAttained` | source/http/httplib.cpp:4720-4852 | The bound is attained by a run that succeeds, whatever statuses from 301 to 399 and whatever challenges come. |
| `Redirect.NewRequestAttained` | source/http/httplib.h:576-580 | For a new request: 26 requests, nested 25 deep. |
| `Redirect.EveryRedirectFollowed` | source/http/httplib.cpp:4759-4762 | While redirects are left, every status from 301 to 399 with a location that can be followed leads to the end of the redirected request: its response, or a failure that keeps the redirecting answer. |
| `Redirect.RedirectRefused` | source/http/httplib.cpp:4797-4811 | With no redirect left, or to a location that cannot be followed, the call fails and keeps that answer. |
| `Redirect.GivenBack` | source/http/httplib.cpp:4759-4795 | Any other answer, and any answer when redirects are not followed and the challenge cannot be answered, is given back as it is. |
| `Redirect.ChallengeAnswered` | source/http/httplib.cpp:4764-4794 | A 401 with credentials and a 407 with proxy credentials is answered while fewer than five authorizations were tried, and given back otherwise. |
| `Redirect.ClosedPeerResent` | source/http/httplib.cpp:4609-4617 | A closed peer makes it send once more and only once; any other loss is final. |
| `Redirect.NoConnection` | source/http/httplib.cpp:4619-4659 | When no connection can be made, at first or for the second try, the call fails without a response. |
| `Redirect.Redirected` | source/http/httplib.cpp:1972-1997 | A followed redirect takes one from the measure; the count never underflows. |
| `Redirect.Authorized` | source/http/httplib.cpp:4763-4792 | An authorized retry takes one from the measure. |
| `Redirect.AssertionHolds` | source/http/httplib.cpp:4609-4617 | The assertion in send holds in every run: the error of a nested send never outlives its success. |
| `Redirect.RequestsBounded` | source/http/httplib.cpp:4609-4852 | Every call puts a bounded number of requests on the wire. |
| `Redirect.PlainRequestsBounded` | source/http/httplib.cpp:4609-4852 | Without credentials at most 4 times 2 to the power of the redirects left, less 2. |
| `Redirect.PlainRequestsAttained` | source/http/httplib.cpp:4609-4617 | And that number is attained. |
| `Redirect.ChallengesBounded` | source/http/httplib.cpp:4763-4792 | Without following redirects at most 4 times 2 to the power of the authorizations left, less 2. |
| `Redirect.ChallengesAttained` | source/http/httplib.cpp:4763-4792 | And that number is attained. |
| `Redirect.ResendsMultiply` | source/http/httplib.cpp:4609-4617 | A failed nested send makes the outer one send again: a place d redirects away that keeps closing uses up the whole doubling script. |
| `Redirect.UnluckyLength` | source/http/httplib.cpp:4609-4617 | That script has 4 times 2 to the power of d, less 2, requests. |
| `RangeHeader.MakeRangeHeader` | source/http/httplib.cpp:2925-2936 | The printing loop gives the header field of the list. |
| `RangeHeader.ParseRangeHeader` | source/http/httplib.cpp:2072-2108 | The parser's loop computes the ranges of the field, refusing bad order and numbers that do not fit. |
| `RangeHeader.RangeHeaderRoundTripIff` | source/http/httplib.cpp:2072-2108 | Parsing undoes printing exactly on the non-empty lists of valid ranges. |
| `RangeHeader.SliceIsSelection` | source/http/httplib.cpp:2447-2463 | Offset and length hold exactly the positions asked for, and stay within the content exactly if the range does. |
| `RangeHeader.ContentRangeNames` | source/http/httplib.cpp:2471-2486 | Content-Range names the first and last position asked for. |
| `RangeHeader.LengthAgreesIff` | source/http/httplib.cpp:2447-2486 | The length agrees with Content-Range exactly if the range stays within the content. |
| `RangeHeader.GetRangeAnsweredIff` | source/clients/baseclient.cpp:117-121 | A range request comes back as exactly that offset and size, if and only if the size is at least one. |
| `RangeHeader.ResumeAnswered` | source/clients/baseclient.cpp:91-96 | An open-ended request comes back as the rest of the content. |
| `ByteRanges.DataLength` | source/http/httplib.cpp:2541-2558 | The counting walk gives the announced length in 64-bit arithmetic. |
| `ByteRanges.LengthAgreesIff` | source/http/httplib.cpp:2488-2558 | The length counted is the length of the body exactly if every range stays within the content. |
| `ByteRanges.AnnouncedIff` | source/http/httplib.cpp:2541-2558 | In 64-bit arithmetic the announced length is that of the body exactly if what the ranges miss adds up to nothing. |
| `ByteRanges.OpenBeyondEnd` | source/http/httplib.cpp:2448-2463 | A range that starts beyond the end and names no last position is served all the same, under a wrong length. |
| `ByteRanges.BodyIsMultipart` | source/http/httplib.cpp:2488-2521 | The body has the form of a multipart body, with a type line if there is a type and a Content-Range line in every part. |
| `ByteRanges.BodyReads` | source/http/httplib.cpp:2488-2521 | Read by the multipart reader it gives one part a range, in order, each with the type of the content and its slice. |
| `ByteRanges.WritePart` | source/http/httplib.cpp:2494-2515 | A part goes out as its head, the slice its range means, and a line end; it succeeds exactly if the content did not fail and the range can be served. |
| `ByteRanges.WriteRanges` | source/http/httplib.cpp:2560-2573 | While the server is up it succeeds exactly if the content did not fail and every range can be served; if no token was cut short, the body went out. |
| `ThreadPool.Pool.Enqueue` | source/http/httplib.h:677-689 | A job is appended unless the queue is full. |
| `ThreadPool.Pool.WorkerTurn` | source/http/httplib.h:714-725 | A worker takes the oldest job, waits, or leaves. |
| `ThreadPool.StepKeeps` | source/http/httplib.h:663-740 | Every step keeps the accounts, the order of leaving, and that queued jobs have somebody awake or about to be woken. |
| `ThreadPool.EveryRunExact` | source/http/httplib.h:663-740 | In every interleaving jobs are taken in the order of acceptance, and those taken are running or finished. |
| `ThreadPool.OnceOnly` | source/http/httplib.h:714-730 | No job is run twice. |
| `ThreadPool.NoDeadlock` | source/http/httplib.h:686-725 | No wakeup is lost: while there is work, or a worker still to leave, some thread can move. |
| `ThreadPool.CompleteIff` | source/http/httplib.h:663-740 | In every run that ends with all workers gone, all accepted jobs have been run exactly if none was accepted after the last worker had left. |
| `ThreadPool.ShutdownCompletes` | source/http/httplib.h:691-705 | If none was, what is left after shutdown takes a bounded number of steps, and it can stop only with every worker gone and every accepted job finished. |
| `ThreadPool.LeftForever` | source/http/httplib.h:677-725 | Once every worker has left, a queued job stays queued for good. |
| `ThreadPool.AcceptedIff` | source/http/httplib.h:677-689 | A job is accepted exactly if there is no limit or fewer jobs than the limit are queued. |
| `ThreadPool.QueueBounded` | source/http/httplib.h:677-689 | Over every run the queue stays within its limit. |
| `ThreadPool.OneNoticeAJob` | source/http/httplib.h:677-689 | Every accepted job is followed by exactly one notification: over every run those given and those still due add up to the jobs accepted. |
| `ThreadPool.LateJobIsLost` | source/http/httplib.h:677-696 | The queue accepts such a job: a run in which an accepted job is never run. |

## Left out

- Sockets, DNS, TLS handshakes, proxies and file-system calls: a read gives any number of bytes up to what was asked for, the end, or an error; a write accepts any number from one; local file writes are complete and seeks succeed or fail as a whole.
- libsmb2, libnfs, libssh2, OpenSSL, json-c and MD5: a remote file is an unchanging byte sequence.
- Bytes are modelled as characters; regular expressions are replaced by direct recognizers of the languages they accept.
- A multimap of parameters is a list in iteration order, and a lookup in it returns the first entry.
- Memory-model races on unlocked globals: every statement or locked section is one step.
- Contents of FTP, WebDAV and HTTP downloads on resume: `BaseClient::Get` does not look at the status, so `Downloads` lets such clients write anything and claims contents for SMB, NFS and SFTP only.
- Saving and reloading the download list, and the cutting of an over-long temporary path: the queue is modelled for one run of the process.
- The client pool's key does not contain the kind of HTTP server; pool results are stated in terms of the key as it is.
- Compression, MIME types, status texts, JSON interface, HTML pages, notifications and settings: plumbing with easy claims only.
- Multi-range responses built from an in-memory body: that path takes lengths from a field which is not set there.
- Chunked.ReadContentChunked: receivers that refuse data are not modelled, and trailer fields are skipped over but not stored.
- Chunked.WriteContentChunked: models a connection that takes every write and the identity compressor; a failing write only ends the stream earlier.
- Base64.EncodeBlocks: two bytes or more, because the source's unsigned loop bound wraps around below that.
- Base64.DecodeText: a non-empty text; for an empty one the source reads before its beginning.
- FtpControl.FtpHandle.Readline: what the source does after its terminator has been put beyond the caller's buffer is not modelled; for a lone LF the byte before the buffer, which the source compares, is taken not to be a CR.
- FtpControl.FtpHandle.ReadResponse: lines of a reply fit the response buffer, the code of a multi-line reply has no NUL, and before a first line of one character nothing harmful is left in the buffer, as every complete reply ensures.
- Redirect.RequestsBounded: with credentials and redirects both in use the bound is not shown to be attained.
- Transfer.Get: that a seek before the first read works is taken for granted, as the source does not look at its result; the same loop serves SMB, NFS and SFTP, which differ in the library calls and the size of a chunk.
- ByteRanges.WriteRanges: the source does not look at the writes of its tokens; the model records whether one of them was cut short or failed, and claims the body for the case that none was.
- MultipartRoundTrip.MultipartRoundTrip: parts without an early delimiter in their contents and types that need no trimming.
- MultipartOpening.ComesBackIff: boundaries without CR and LF, as a header field demands; a part counts as reported when its delimiter has been seen.
- The FTP data connection apart from text conversion, archive.org login, `inifile.c` and the encryption in `config.cpp`.
