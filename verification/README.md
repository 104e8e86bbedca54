# Brotli filter module: verification model

A Dafny model of the nginx Brotli filter module and proofs about it. `dafny verify dfyconfig.toml`
checks everything. The parts, one module per file:

- **Header text.** `Text`, `Quoted`: whitespace, caseless names, quoted strings as an automaton.
  `AcceptEncoding` is the one-pass Accept-Encoding walker (sections 12.5.3, 12.4.2 and 5.6.4 of
  RFC 9110) against a specification of single parameters and elements; `TwoPhase` proves it equal to
  splitting first and judging then; `Locality`, `FieldLines`, `Continuation` and `JoinExactly` relate
  elements and lines to the joined field; `RoundTrip` prints and reads back; `Reference` models the fuzz
  harness's independent parser and proves agreement, `PrintedReference` says when that parser answers.
  `CacheControl` shares the split.
- **Body filter.** `Encoder` is the contract of the compressor and of the world around the filter,
  `Links` the buffer chain, `FilterState` the state machine with its invariant over whole runs,
  `BodyFilter` the context object that takes those steps in place, `Responses` any number of calls of
  it, `Runs` concrete runs at the limits, `Report` the ratio variable.
- **Arithmetic and hashing.** `Ratio` on 64-bit counters; `Sha256Spec` is FIPS 180-4, `Sha256Known`
  checks its tables and steps on their own terms, and `Sha256` is the streaming implementation over a
  mutable block. `Arith` holds division facts.
- **Decisions.** `Headers` and `Negotiation`: the variant chosen and the Vary set sent with it; `Offers`
  goes from the text of Accept-Encoding to the coding served.
- **Configuration.** `Os` is the operating system with failing calls and a world that changes between
  them; `ReadDict`, `StrictPaths`, `StrictWalk`, `StrictChain` the dictionary reader and the strict
  path walk; `DictLines` and `DictConfig` the directive sequence.

Functions give the meaning, methods are the program's loops and in-place updates proved equal to it,
lemmas say what that meaning amounts to.

## Conventions

- Header text is a `string`; the theorems hold for every character, hence for every octet.
- Octets are integers 0..255; 32-bit words are integers below 2^32 with addition modulo 2^32; the
  64-bit counters of the body filter and of the ratio wrap explicitly.
- The calls the body filter makes to the world (allocations, the compressor, the next filter) are
  numbered, and a script says which of them fail; the header filter's allocations likewise. When the
  compressor is set up by several allocations they count as one call.
- The next filter may read any part of a buffer and answer anything. The compressor is any state
  machine that honours the contract in `Encoder`: it changes only when called, finishes only under
  FINISH with all input consumed and output left, its finished output is not empty and decodes to what
  was fed, and FINISH without input makes progress. No progress is assumed for PROCESS or FLUSH.
- What the next filter has read is recorded for the compressor's output; the dcb header has a buffer
  of its own, which is never used again.
- Parameters: the base64 decoder, the bypass predicate and the header names it reads, the content
  type test, TLS, the completion of relative file names.

## Where the code differs from its comments, or a promise has a limit

The model follows the code.

- The strict walk's comment says a trailing separator means no leaf. In the code `/a/b/` opens the leaf
  `b` just as `/a/b` does (`StrictChain.TrailingSlashIgnored`); only a path of slashes names no file
  (`StrictPaths.OnlySlashes`).
- The component is copied so that no other name is opened, yet a component holding a NUL byte is opened
  under the part before it (`StrictPaths.SeenWhole` gives the exact condition).
- The dcb header is that of section 4 of RFC 9842; the code's comment says 2.1.
- When a parameter name holds a DQUOTE, evaluation can run past its element; element boundaries stay
  right (`AcceptEncoding.ReadElement`) but the weight is then no function of the element alone.
  `Locality.LocalityExactly` says for which elements, `JoinExactly.JoinsExactly` for which lines
  reading in turn still is reading the join.
- `no_transform` checks line by line; this differs from the joined field exactly as
  `CacheControl.ChecksInTurnExactly` says.
- A success always has output, but the 64-bit counter of a response of a multiple of 2^64 bytes is zero
  (`FilterState.CounterNonzero`, `Runs.CounterWraps`), and the ratio divides by it (`Report.RatioOf`).
- A closed stream passes later chains on untouched, also after a success: `Responses.Respond` says
  when the response stays whole, `Runs.BytesAfterSuccess` shows an input for which it does not.
- The input cap is tested on the counter as a signed number: `FilterState.CapTest` says when it fires,
  `Runs.CapMissed` shows a run that passes it unseen.

## Model

| member | source | states |
|---|---|---|
| Text.CaseEqualIsPointwise | fuzz/ngx_shim.h:47-71 | ngx_strncasecmp() finds two strings equal exactly when at every place up to the first shared NUL they have the same character or the two cases of one ASCII letter |
| Text.NamesAlike | fuzz/ngx_shim.h:47-71 | without NULs: at every place, and of one length |
| Quoted.SkipQuoted | ngx_http_brotli_common.h:62-83 | from a DQUOTE it ends just past the closing DQUOTE that the quote automaton finds (backslash pairs included), or at the end of the value; elsewhere it does not move |
| Quoted.SkipTo | ngx_http_brotli_common.h:372-383 | the element skip ends at the first comma (or other stop) outside quotes |
| Quoted.CutIsFirstStop | ngx_http_brotli_common.h:372-383 | the cut is characterised independently: nothing before it is a stop outside quotes, and it is itself one or the end |
| Quoted.ElementEndIsNextTopComma | ngx_http_brotli_common.h:297-401 | from a position outside quotes the end of an element is the next comma that is outside quotes counted from the start of the field |
| Quoted.StartsAreTopCommas | ngx_http_brotli_common.h:297-401 | the element starts are exactly the start of the field and the positions after its quote-aware commas |
| AcceptEncoding.ReadQvalue | ngx_http_brotli_common.h:166-218 | the qvalue reader accepts exactly the strings of section 12.4.2 of RFC 9110 and returns their thousandths |
| AcceptEncoding.ReadParamName | ngx_http_brotli_common.h:115-126 | a parameter name runs to its delimiter and is flagged when it holds a DQUOTE |
| AcceptEncoding.ReadParamValue | ngx_http_brotli_common.h:146-241 | value of one parameter: weight, second q, quoted value and malformed q each as the one-parameter specification says, cursor included |
| AcceptEncoding.EvalParam | ngx_http_brotli_common.h:104-256 | one parameter of the loop equals the specification of one parameter, cursor and verdict, what may follow it included (RoundTrip.ReadPiece on printed text) |
| AcceptEncoding.EvalQvalue | ngx_http_brotli_common.h:95-271 | the weight of an element is what the parameter-by-parameter specification says; the cursor stays put when a name holds a DQUOTE, and wherever it is left, malformed or not, the element still ends where it ended before |
| AcceptEncoding.ReadElement | ngx_http_brotli_common.h:306-384 | whatever path the evaluation takes, the cursor ends at the quote-aware end of the element and the weights change by that element's verdict alone |
| AcceptEncoding.CodingWeightEx | ngx_http_brotli_common.h:297-401 | the one-pass walker returns the fold of element verdicts over the field, the stated precedence between them, all in -1..1000 |
| AcceptEncoding.CodingWeight | ngx_http_brotli_common.h:409-418 | the effective weight alone, with the same value and range |
| AcceptEncoding.AcceptsBr | ngx_http_brotli_common.h:553-561 | br is accepted exactly when its weight, or in its absence that of "*", is positive |
| AcceptEncoding.FoldInRange | ngx_http_brotli_common.h:296-401 | both accumulated weights stay in -1..1000 over every field |
| TwoPhase.FoldIsTwoPhase | ngx_http_brotli_common.h:297-401 | the one-pass fold equals splitting at the quote-aware commas first and then judging each element |
| TwoPhase.LastSpeakerWins | ngx_http_brotli_common.h:286-401 | each of the two weights is that of the last well-formed element of its kind, and unchanged if there is none |
| TwoPhase.QvalueGrammar | ngx_http_brotli_common.h:166-218 | a qvalue is 0 or 1, alone or with a point and up to three digits, zeros only after a one |
| TwoPhase.MilliIsExact | ngx_http_brotli_common.h:166-202 | the weight in thousandths is exactly 1000 times the decimal number the qvalue spells, each digit read by its face |
| Locality.JudgeEmbedded | ngx_http_brotli_common.h:96-271 | an element whose evaluation is not left open inside quotes has the same verdict wherever its text is embedded |
| Locality.OpenJudgeSpoiled | ngx_http_brotli_common.h:96-271 | an element whose evaluation is left open gets a different verdict from what may follow it |
| Locality.LocalityExactly | ngx_http_brotli_common.h:96-271 | the verdict is a function of the element's own bytes if and only if its evaluation does not run off the end inside a quoted value |
| FieldLines.FoldLineWeight | ngx_http_brotli_common.h:448-467 | one line folded into the accumulators: its explicit weight replaces the earlier one, else its "*" weight does when wildcards count |
| FieldLines.RequestCodingWeight | ngx_http_brotli_common.h:484-541 | the whole-request weight is the fold of all lines under the field precedence |
| FieldLines.FieldValueOfPair | ngx_http_brotli_common.h:448-541 | walking two lines joined by a comma is walking the second from where the first left the weights |
| FieldLines.LinesAgree | ngx_http_brotli_common.h:448-541 | the accumulators over lines agree with those of the joined field at every line, though the program drops "*" weights of lines that name the coding |
| FieldLines.FoldedIsJoined | ngx_http_brotli_common.h:420-541 | any number of lines, either wildcard setting: folding the lines equals walking the comma-joined field, when every line but the last closes its quotes and leaves no evaluation open |
| FieldLines.UnquotedIsSelfContained | ngx_http_brotli_common.h:96-271 | a line that closes its quotes and has no DQUOTE in a parameter name leaves no evaluation open |
| FieldLines.UnquotedNamesJoin | ngx_http_brotli_common.h:420-541 | the same under the plain condition: closed quotes and no DQUOTE in a parameter name on every line but the last |
| Continuation.JudgeAcross | ngx_http_brotli_common.h:96-271 | the verdict of any element once any text is joined to its line: unchanged if not left open, else finished by what that text does from inside the quote, the same for all open elements: nothing, malformed, or one stated weight |
| Continuation.FoldAcross | ngx_http_brotli_common.h:297-401 | a closed line joined with any text: its elements, the open ones finished so, and then the text |
| Continuation.SteadyUnderAll | ngx_http_brotli_common.h:297-401 | a line whose weights survive dropping its open elements and giving those without a stated weight 0 or 1000 keeps them under any following text |
| JoinExactly.OpenLineSwallows | ngx_http_brotli_common.h:484-541 | any line that ends inside quotes keeps the meaning it has alone when quote-free text is joined to it, evaluations left open included |
| JoinExactly.UnclosedFails | ngx_http_brotli_common.h:484-541 | for every line that ends inside quotes some further line makes the two readings differ |
| JoinExactly.JoinsExactly | ngx_http_brotli_common.h:484-541 | for every line x: folding x with any second line equals walking their join if and only if x closes its quotes and its weights, as far as precedence looks, do not change when its open elements are dropped or, if they state no weight, take 0 or 1000 |
| JoinExactly.JoinableLines | ngx_http_brotli_common.h:420-541 | any number of lines: folding them equals walking the joined field when every line but the last meets that condition |
| JoinExactly.JoinsExactlyWhenClosed | ngx_http_brotli_common.h:484-541 | with nothing left open the condition is closed quotes alone |
| JoinExactly.OpenParamJoins | ngx_http_brotli_common.h:484-541 | a name followed by ;a"=" closes its quotes and leaves its element open: it may be joined with any line exactly when that name does not bear on the coding |
| JoinExactly.OpenParamExamples | ngx_http_brotli_common.h:484-541 | br;a"=" fails for br (1000 in turn, 0 joined with ";q=0;",), gzip;a"=" joins with every line |
| RoundTrip.ReadPiece | ngx_http_brotli_common.h:104-256 | a printed parameter, with any whitespace, token, escaped quoted text, malformed q, junk after a weight or after a bare name, or a value of several parts, is read back as what was printed |
| RoundTrip.MeaningIsStated | ngx_http_brotli_common.h:95-271 | the evaluation of printed parameters is the weight they state: the one well-formed q, 1000 without any, nothing when a parameter is empty, q is repeated, q is no qvalue, or junk follows a weight or a bare name |
| RoundTrip.WalkOfPrinted | ngx_http_brotli_common.h:96-401 | walking any printed list gives back exactly the weights it was printed from |
| RoundTrip.LastMentionDecides | ngx_http_brotli_common.h:286-401 | the last well-formed mention of the coding decides the weight of a printed list |
| RoundTrip.LastStarDecides | ngx_http_brotli_common.h:286-401 | with no well-formed mention of the coding the last well-formed "*" decides, where wildcards count |
| RoundTrip.UnlistedIsUnlisted | ngx_http_brotli_common.h:286-401 | a printed list that names neither the coding nor "*" in a well-formed way leaves it unlisted |
| RoundTrip.StrayElementSaysNothing | ngx_http_brotli_common.h:344-355 | a name followed by anything but ";", "," or the end makes an element that changes no weight, whatever stands before and after it |
| RoundTrip.MalformedNeverContributes | ngx_http_brotli_common.h:95-271 | with only malformed mentions, trailing junk as in br;q=1 garbage included, the coding counts as not listed |
| RoundTrip.EveryWeightHasASpelling | ngx_http_brotli_common.h:166-218 | every weight 0..1000 has a spelling the reader accepts |
| Reference.ReadRefQvalue | fuzz/fuzz_accept_encoding.c:183-206 | the reference parser's number reader equals its specification |
| Reference.TokenCharacters | fuzz/fuzz_accept_encoding.c:91-96 | the characters of a name, one by one |
| Reference.ReadRefParams | fuzz/fuzz_accept_encoding.c:130-229 | its parameter loop equals its specification: weight, refusal to answer, or malformed |
| Reference.ReadRefElement | fuzz/fuzz_accept_encoding.c:56-242 | one turn of its element loop equals its specification, next position included |
| Reference.RefAccepts | fuzz/fuzz_accept_encoding.c:49-247 | the whole reference parser computes the verdict of its specification: accept, refuse or unsure |
| Reference.ParamsAgree | ngx_http_brotli_common.h:96-271 | wherever the reference is sure of an element's parameters, the shipped evaluation finds the same weight and the same end |
| Reference.ElementAgrees | ngx_http_brotli_common.h:297-401 | on every element the reference is sure of, both parsers end at the same place with the same weights |
| Reference.FoldAgrees | ngx_http_brotli_common.h:297-401 | on every field the reference is sure of, both parsers end with the same two weights |
| Reference.ReferenceAgrees | fuzz/fuzz_accept_encoding.c:49-247 | for every string on which the reference answers, it answers accept exactly when the shipped walker's weight for br is positive |
| Reference.ConfidentOnBareTokens | fuzz/fuzz_accept_encoding.c:49-247 | the reference does answer on every list of bare tokens |
| PrintedReference.ConfidentExactly | fuzz/fuzz_accept_encoding.c:49-247 | on every printed list the reference answers if and only if each element is one it understands: a token with at most one weight, that one well formed, values of one token or one unescaped quoted string, no junk after them, and no quotes after an empty parameter; or a name only starting as a token, without quotes |
| PrintedReference.ConfidentOnWellFormed | fuzz/fuzz_accept_encoding.c:49-247 | in particular on well-formed lists of tokens with token parameters and unescaped quoted ones |
| PrintedReference.AnswersWhatWasPrinted | fuzz/fuzz_accept_encoding.c:49-247 | and it then accepts exactly when the weights the list was printed from do |
| CacheControl.SegmentEnd | filter/ngx_http_brotli_filter_module.c:446-468 | the walker's inline quote loop finds the same segment end as the shared quote skipper |
| CacheControl.ReadSegment | filter/ngx_http_brotli_filter_module.c:440-487 | one segment: its end, and whether its text cut at the first ";" or "=" and trimmed is no-transform |
| CacheControl.CcValueNoTransform | filter/ngx_http_brotli_filter_module.c:429-490 | the walker says yes exactly when some segment between quote-aware commas is the directive |
| CacheControl.NoTransform | filter/ngx_http_brotli_filter_module.c:498-529 | the response is left alone exactly when some live, non-empty Cache-Control line holds the directive |
| CacheControl.AnyIsSomeSegment | filter/ngx_http_brotli_filter_module.c:429-490 | the one-pass search equals splitting first and testing each segment |
| CacheControl.DirectiveExactly | filter/ngx_http_brotli_filter_module.c:440-487 | a segment is the directive exactly when it is blanks, then the word no-transform in any case, then blanks up to its end, a ";" or a "=" |
| CacheControl.LinesJoin | filter/ngx_http_brotli_filter_module.c:492-529 | checking lines one by one equals checking the joined field when every line but the last closes its quotes |
| CacheControl.ChecksInTurnExactly | filter/ngx_http_brotli_filter_module.c:492-529 | for a line x: checking x and then any second line equals checking their join if and only if x closes its quotes or already holds the directive |
| BodyFilter.Ctx.constructor | filter/ngx_http_brotli_filter_module.c:693-701 | a new context is the fresh stream and satisfies the run invariant |
| BodyFilter.Ctx.Close | filter/ngx_http_brotli_filter_module.c:1128-1142 | closing changes nothing but the closed flag |
| BodyFilter.Ctx.HandOn | filter/ngx_http_brotli_filter_module.c:790-805 | one call of the next filter: the buffer is handed on once, later calls hand on nothing new; what is read moves the position only, is recorded, and the buffer stays busy until it is all read |
| BodyFilter.Ctx.PushOutput | filter/ngx_http_brotli_filter_module.c:790-828 | the answer is heeded: ERROR closes, exactly when the call failed; AGAIN is returned only while unread bytes remain |
| BodyFilter.Ctx.StageOutput | filter/ngx_http_brotli_filter_module.c:830-863 | output is taken, when all earlier output has been read, in order into the buffer; the last mark is set exactly when the stream is finished, all input given and nothing pending; else the flush mark is set exactly when a flush is due; it gives up exactly when the compressor hands nothing out |
| BodyFilter.Ctx.FinishStream | filter/ngx_http_brotli_filter_module.c:873-886 | after the last input only FINISH with empty input is issued, and it makes progress; it gives up exactly when the compressor refuses |
| BodyFilter.Ctx.Press | filter/ngx_http_brotli_filter_module.c:902-916 | one compression call, recorded with its operation, the bytes offered and those taken; a refused call changes nothing |
| BodyFilter.Ctx.FeedMarked | filter/ngx_http_brotli_filter_module.c:902-970 | one link is given to the compressor under the operation its marks ask for; a flush becomes due exactly when a flush link that is not last leaves the chain |
| BodyFilter.Ctx.FeedLink | filter/ngx_http_brotli_filter_module.c:888-970 | one link is given to the compressor, or dropped when it has neither bytes nor marks; the input left shrinks and a flush becomes due exactly when a flush link that is not last leaves the chain, or the stream closes for a cause |
| BodyFilter.Ctx.Account | filter/ngx_http_brotli_filter_module.c:918-970 | the consumed bytes are counted, the cap applied, the link dropped when empty, a flush noted exactly when it was a flush link and not last, and an unproductive call closes the stream |
| BodyFilter.Ctx.EmitDcbHeader | filter/ngx_http_brotli_filter_module.c:1316-1346 | the 36-byte header is handed on first and once, counted only when it was not refused; it fails exactly when the allocation or the hand-over did |
| BodyFilter.Ctx.Turn | filter/ngx_http_brotli_filter_module.c:830-970 | each turn without output in flight makes the stream smaller, ends it, or finds nothing left to do |
| BodyFilter.Ctx.Round | filter/ngx_http_brotli_filter_module.c:789-970 | one round of the main loop makes the stream smaller or ends it, and its answer says why |
| BodyFilter.Ctx.Loop | filter/ngx_http_brotli_filter_module.c:789-971 | the main loop ends, by a lexicographic measure; OK on an open stream means nothing is left to do, AGAIN means unread output is held and never occurs when the next filter reads all it is offered, ERROR has a cause |
| BodyFilter.Ctx.Prepare | filter/ngx_http_brotli_filter_module.c:756-781 | set-up, header and input chain before the loop, each at most once; it fails exactly when one of its calls did |
| BodyFilter.Ctx.Filter | filter/ngx_http_brotli_filter_module.c:732-976 | one call of the body filter keeps the invariant over all runs; a closed or header-only stream passes the chain on untouched; the return code says what is left, and OK with the body complete is success; ERROR means the stream is given up, because a call it made failed, the input passed the cap, or the compressor took nothing of a link, and every failed call or overrun is answered so |
| Responses.Respond | filter/ngx_http_brotli_filter_module.c:732-976 | any sequence of calls with any chunking: every flush link that has left the chain of the stream was taken to its end by a FLUSH call, empty or not, every last one by a FINISH call, FINISH is issued exactly on last links and with no input after them, PROCESS exactly on links without marks, and OK on an open stream means every link given has left the chain; what the open stream hands on is at all times a prefix of header plus compressor output, and the next filter has read that output without a gap up to what waits in the buffer; on success all of it is handed on and read, decodes to the body up to and including the last buffer, and its last mark is on the final chunk only; the chains of exactly the calls after the closing one follow untouched, so all that goes downstream is header plus output if and only if those calls bring no bytes; OK to an open call with the body complete is success; the stream fails only for a cause, never in a world where nothing fails or stalls and the input is below the cap, and there every complete body succeeds if the next filter reads what it is offered |
| Responses.KindHasNoCause | filter/ngx_http_brotli_filter_module.c:806-970 | in such a world no cause to give up arises |
| Runs.KindWorldIsKind | filter/ngx_http_brotli_filter_module.c:880-914 | such a world exists: a compressor that honours its contract, with nothing failing |
| FilterState.PushedKeeps | filter/ngx_http_brotli_filter_module.c:790-828 | the run invariant survives a hand-over, whatever part is read |
| FilterState.PushedRead | filter/ngx_http_brotli_filter_module.c:797-805 | what was read and what the buffer still holds stay the output taken so far |
| FilterState.TakenKeeps | filter/ngx_http_brotli_filter_module.c:830-863 | the run invariant survives taking output: order, counters and the last mark |
| FilterState.TakenRead | filter/ngx_http_brotli_filter_module.c:830-858 | the buffer is all read when it is loaded again: no byte is overwritten unread |
| FilterState.AfterCompressKeeps | filter/ngx_http_brotli_filter_module.c:903-970 | the run invariant survives a compression call and its bookkeeping, at the cap and below it |
| FilterState.AppendedKeeps | filter/ngx_http_brotli_filter_module.c:774-781 | the run invariant survives new input, also after the last buffer |
| FilterState.HeaderedKeeps | filter/ngx_http_brotli_filter_module.c:1316-1346 | the run invariant survives the dcb header, accepted or refused |
| FilterState.SucceededKeeps | filter/ngx_http_brotli_filter_module.c:865-871 | success is reached only when everything is drained and the last chunk was handed on |
| FilterState.SuccessDelivers | filter/ngx_http_brotli_filter_module.c:732-976 | in every successful state the bytes the stream handed on are the header and then exactly the compressor's output, which decodes to the payload, and the next filter has read exactly that output |
| FilterState.FlushesAreGiven | filter/ngx_http_brotli_filter_module.c:893-914 | in every reachable state each flush link that has left the chain was the subject of a FLUSH call that took all of it, and each last link of a FINISH call |
| FilterState.AllOperationsFit | filter/ngx_http_brotli_filter_module.c:873-914 | in every reachable state FINISH was issued exactly on last links and, with no input, right after another FINISH; FLUSH exactly on flush links that are not last |
| FilterState.AlwaysInOrder | filter/ngx_http_brotli_filter_module.c:789-971 | in every reachable state the bytes the open stream handed on are a prefix of header plus output; chains passed on after the close come on top (Responses.Respond) |
| FilterState.ReadInOrder | filter/ngx_http_brotli_filter_module.c:789-971 | in every reachable state what was read is a prefix of the output, and the rest of what was taken waits in the buffer |
| FilterState.SuccessHasOutput | filter/ngx_http_brotli_filter_module.c:865-871 | in every successful state the output is not empty and both counters are the true sizes modulo 2^64 |
| Runs.EmptyBodySucceeds | filter/ngx_http_brotli_filter_module.c:732-976 | a run to success exists, step by step: an empty body, compressed by two calls into two chunks of any output that decodes to it |
| Runs.BytesAfterSuccess | filter/ngx_http_brotli_filter_module.c:752-754 | the failing input: bytes in a call after that success follow the finished stream, with a second last buffer |
| FilterState.CounterNonzero | filter/ngx_http_brotli_filter_module.c:841 | the counter a success divides by is nonzero exactly when the response is no multiple of 2^64 bytes |
| Runs.CounterWraps | filter/ngx_http_brotli_filter_module.c:841 | a successful run with a zero counter: 2^64 bytes of output, in two chunks whose sizes fit size_t |
| FilterState.CapHolds | filter/ngx_http_brotli_filter_module.c:918-964 | bytes in plus bytes left equals bytes appended; the cap is never passed while open, and by at most one buffer at the abort, when the cap plus the biggest buffer, or all input, is below 2^63 |
| FilterState.CapTest | filter/ngx_http_brotli_filter_module.c:931-932 | the test fires exactly when the size modulo 2^64 lies above the cap and below 2^63 |
| Runs.CapMissed | filter/ngx_http_brotli_filter_module.c:931-932 | for every cap above zero, two buffers whose sizes fit off_t take the total to 2^63 bytes, and the cap is passed unseen |
| Runs.ZeroCapHolds | filter/ngx_http_brotli_filter_module.c:931-932 | a cap of zero is kept for all buffers whose sizes fit off_t |
| FilterState.TakenIsSmaller | filter/ngx_http_brotli_filter_module.c:789-971 | taking output decreases the loop's measure |
| FilterState.PushedIsSmaller | filter/ngx_http_brotli_filter_module.c:789-971 | handing output on decreases the loop's measure unless the next filter stalls |
| Encoder.CompressStream | filter/ngx_http_brotli_filter_module.c:873-916 | the filter calls the compressor only when no output is pending and every byte handed out has been read, never after it finished, and with FINISH only once FINISH was given |
| Encoder.TakeOutput | filter/ngx_http_brotli_filter_module.c:830-836 | the filter takes output only when every byte handed out before has been read |
| Ratio.AddModulo | filter/ngx_http_brotli_filter_module.c:1442-1450 | one addition modulo the divisor is exact even when the 64-bit sum wraps |
| Ratio.PeelDigit | filter/ngx_http_brotli_filter_module.c:1436-1454 | ten times the remainder is divided exactly by nine wrapping additions |
| Ratio.ScaleDigit | filter/ngx_http_brotli_filter_module.c:1422-1454 | each decimal digit and its remainder are exact on both branches |
| Ratio.RatioParts | filter/ngx_http_brotli_filter_module.c:1411-1458 | for all 64-bit inputs with a nonzero divisor: integer part floor(in/out), three digits floor(1000 in/out) mod 1000, no other intermediate overflowing |
| Ratio.ThirdDigitDecides | filter/ngx_http_brotli_filter_module.c:1487-1497 | rounding on the exact third digit is half-up rounding of the exact quotient |
| Ratio.RatioVariable | filter/ngx_http_brotli_filter_module.c:1484-1497 | what is printed is floor((200 in + out) / (2 out)) hundredths |
| Ratio.CarryFits | filter/ngx_http_brotli_filter_module.c:1489-1497 | the carry into the integer part cannot overflow |
| Ratio.PrintedFits | filter/ngx_http_brotli_filter_module.c:1479-1499 | the text always fits the buffer allocated for it |
| Ratio.DecimalReads | filter/ngx_http_brotli_filter_module.c:1499 | a printed numeral, read digit by digit, is the number, and starts with 0 only when it is 0 |
| Ratio.PrintedReads | filter/ngx_http_brotli_filter_module.c:1499 | the printed text is a numeral, a point and exactly two digits, and both parts read back |
| Report.RatioOf | filter/ngx_http_brotli_filter_module.c:1460-1502 | the variable exists exactly after a success; its text is a numeral without leading zeros, a point and two digits, which read from left to right give the half-up rounded hundredths of body size over response size; the division is undefined exactly for a response of a multiple of 2^64 bytes |
| Sha256.Context.Init | ngx_http_brotli_sha256.h:133-146 | a context set up anew holds the initial value of section 5.3.3 of FIPS 180-4 and no message |
| Sha256.Context.Compress | ngx_http_brotli_sha256.h:71-130 | compressing a block in place is the computation of section 6.2.2 |
| Sha256.RunRounds | ngx_http_brotli_sha256.h:92-118 | the loop over rotating variables computes the 64 rounds of the standard |
| Sha256.ExpandSchedule | ngx_http_brotli_sha256.h:79-90 | the schedule array is the message schedule of the standard |
| Sha256.SumsAreRotations | ngx_http_brotli_sha256.h:77-107 | the shift-and-or forms are the rotations of the standard |
| Sha256.RoundIs | ngx_http_brotli_sha256.h:101-118 | the order of additions used is that of the standard modulo 2^32 |
| Sha256.Context.Update | ngx_http_brotli_sha256.h:149-186 | after any update the state covers all full blocks of the message so far and the block holds its tail, shorter than 64 |
| Sha256.Context.Mark | ngx_http_brotli_sha256.h:196-211 | the padding of section 5.1.1 is laid out in one or two blocks as the tail requires |
| Sha256.Context.Final | ngx_http_brotli_sha256.h:189-221 | the digest written is that of the whole message |
| Sha256.HashChunks | ngx_http_brotli_sha256.h:133-221 | however the message is cut into updates, the digest is that of the concatenation |
| Sha256.Hash | ngx_http_brotli_sha256.h:233-261 | the one-shot form computes the digest of the standard |
| Sha256.PadTail | ngx_http_brotli_sha256.h:189-221 | what is appended to the tail is the end of the padded message of the standard |
| Sha256Spec.ZeroPadIsLeast | ngx_http_brotli_sha256.h:198-207 | the number of zero bytes is the least that fills the block, as section 5.1.1 demands |
| Sha256Spec.BigEndianStands | ngx_http_brotli_sha256.h:196-211 | the eight length bytes, read back, are the length |
| Sha256Spec.WordRoundTrip | ngx_http_brotli_sha256.h:215-220 | words written big-endian are read back unchanged |
| Sha256Known.CubeRoots0 | ngx_http_brotli_sha256.h:51-68 | the first four round constants are the first 32 bits of the fractions of the cube roots of 2, 3, 5 and 7; the fifteen lemmas after it go on to the cube root of 311 |
| Sha256Known.SquareRoots | ngx_http_brotli_sha256.h:133-146 | the initial value is the same of the square roots of the first eight primes |
| Sha256Known.Choice | ngx_http_brotli_sha256.h:104 | choice takes the bits of its second word where the first has ones, of its third elsewhere |
| Sha256Known.Majority | ngx_http_brotli_sha256.h:108 | majority is the vote of the three bits |
| Sha256Known.SumsByShifts | ngx_http_brotli_sha256.h:71-107 | the four sums of the standard in shifts, amounts written out |
| Sha256Known.ScheduleEquations | ngx_http_brotli_sha256.h:79-90 | a schedule word is four bytes of the block, most significant first, or the sum modulo 2^32 of the words 2, 7, 15 and 16 before it under their functions |
| Sha256Known.PublishedRound | ngx_http_brotli_sha256.h:92-118 | the first round of the published example "abc" gives the published variables |
| Sha256Known.FeedForward | ngx_http_brotli_sha256.h:120-130 | after 64 rounds each variable is added to the hash word of its place, modulo 2^32 |
| Sha256Known.Padding | ngx_http_brotli_sha256.h:189-221 | a one bit, as few zeros as reach a full block, and the length in bits as eight bytes |
| Sha256Known.DigestBytes | ngx_http_brotli_sha256.h:215-220 | the digest is the final hash value, each word most significant byte first |
| Headers.FindRequestHeader | filter/ngx_http_brotli_filter_module.c:1154-1180 | the value of the first field whose name is that one without case: all before it have other names; nothing exactly when all have |
| Headers.ValuesInOrder | ngx_http_brotli_common.h:484-541 | the values of a name are those of its fields, one for each, in order |
| Headers.TokenBounds | ngx_http_brotli_common.h:693-702 | one token of a Vary value: up to the comma, without trailing whitespace |
| Headers.ValueNames | ngx_http_brotli_common.h:680-713 | the scan finds a token exactly when it is among the comma-separated tokens of the value |
| Headers.NamedByToken | ngx_http_brotli_common.h:680-713 | a value names a header exactly when somewhere between two commas that name, without case, stands with nothing but blanks around it |
| Headers.FindVary | ngx_http_brotli_common.h:651-715 | the scan over all live Vary lines finds a token exactly when some line lists it |
| Negotiation.Exchange.VaryAcceptEncoding | ngx_http_brotli_common.h:635-728 | one Vary: Accept-Encoding line is added unless nginx will add it or a line already lists it, and nothing else changes; it fails exactly when the line cannot be allocated |
| Negotiation.Exchange.CheckRequest | ngx_http_brotli_common.h:576-612 | br is taken exactly on a main request whose whole-request weight is positive, and only then is gzip turned off |
| Negotiation.Exchange.IsEligible | filter/ngx_http_brotli_filter_module.c:540-594 | the gates on configuration and response, no-transform included |
| Negotiation.DcbNegotiate | filter/ngx_http_brotli_filter_module.c:1182-1310 | the dictionary chosen is the one whose hash the request names, on a main, secure, same-site request that lists dcb explicitly |
| Negotiation.Exchange.HeaderFilter | filter/ngx_http_brotli_filter_module.c:532-729 | the outcome the request and the response call for: br exactly when the response may be compressed, is not bypassed, is on the main request, br has a positive weight and no dictionary fits; dcb with the first dictionary the client holds exactly when one fits on a trusted request that gives dcb a positive weight; the Vary and Content-Encoding lines added, written out; the request flags; it fails exactly when one of the allocations it takes does |
| Negotiation.DecisionIsJustified | filter/ngx_http_brotli_filter_module.c:532-729 | the decision is the one outcome that those conditions, stated without it, leave |
| Negotiation.NegotiatedFits | filter/ngx_http_brotli_filter_module.c:1182-1310 | dictionary negotiation finds a dictionary exactly when one fits, and then the first with the hash whose base64 the request sends between colons |
| Negotiation.HeadersAreLabelled | filter/ngx_http_brotli_filter_module.c:596-729 | the header lines added, in order and to the letter: the bypass line, the negotiation line unless present or delegated, and Content-Encoding br or dcb exactly with that outcome |
| Offers.AskedIsGranted | ngx_http_brotli_common.h:484-541 | a request whose lines were printed from a list of codings gives a coding a positive weight exactly when its last well-formed mention, or failing any the last "*" where it counts, does |
| Offers.ServedIsGranted | filter/ngx_http_brotli_filter_module.c:679-691 | br and dcb are served only if the list grants them, and a response open to compression on a main request whose list grants br is not sent as identity |
| Offers.RefusedNeverServed | filter/ngx_http_brotli_filter_module.c:689-691 | a list whose last well-formed mention of br has weight 0, or that names neither br nor "*", never gets br |
| Negotiation.NegotiationListed | filter/ngx_http_brotli_filter_module.c:629-677 | every response that is negotiated lists in Vary each request header the negotiation reads |
| Negotiation.BypassLineListed | filter/ngx_http_brotli_filter_module.c:596-627 | every header of brotli_bypass_vary is listed in Vary on both sides of the bypass |
| Negotiation.CacheCorrect | filter/ngx_http_brotli_filter_module.c:532-729 | two requests that agree on every header in the Vary set emitted for the first get the same outcome: identity, br, or dcb with the same dictionary |
| Negotiation.FindDictFinds | filter/ngx_http_brotli_filter_module.c:1297-1309 | with distinct hashes the search finds exactly the dictionary with the named hash |
| Negotiation.OrderIrrelevant | filter/ngx_http_brotli_filter_module.c:1297-1309 | with distinct hashes the order of the dictionary list makes no difference |
| Negotiation.DcbIsGuarded | filter/ngx_http_brotli_filter_module.c:1201-1310 | dcb implies a listed dictionary of the named hash, a main request, a secure connection, no foreign Sec-Fetch-Site and an explicit positive weight |
| ReadDict.ReadDictFile | filter/ngx_http_brotli_filter_module.c:1637-1662 | for every pattern of short reads and interrupts: the buffer gets the first size bytes of the file or the whole shorter file, -1 exactly on a hard error, no byte lost or repeated, termination |
| StrictWalk.CheckStrictDir | filter/ngx_http_brotli_filter_module.c:1710-1747 | a directory passes exactly when fstat works, root or the loading user owns it, and neither group nor others may write (Os.VettedExactly) |
| Os.VettedExactly | filter/ngx_http_brotli_filter_module.c:1710-1747 | vetting in numbers: user 0 or the loading user, and both mode bits 020 and 002 clear |
| StrictWalk.NextComponent | filter/ngx_http_brotli_filter_module.c:1792-1842 | the next component, its end and whether it is the last |
| StrictWalk.OpenComponent | filter/ngx_http_brotli_filter_module.c:1817-1896 | one component: the calls made, the descriptor traded, nothing leaked on any exit |
| StrictWalk.OpenDictStrict | filter/ngx_http_brotli_filter_module.c:1749-1901 | the calls made are those of the walk, and at every exit the only descriptor added is that of the leaf |
| StrictPaths.ComponentsAreNonEmptyPieces | filter/ngx_http_brotli_filter_module.c:1791-1807 | the components are exactly the non-empty pieces between slashes |
| StrictPaths.OnlySlashes | filter/ngx_http_brotli_filter_module.c:1792-1804 | a path is refused as naming a directory exactly when nothing but slashes is left |
| StrictPaths.SeenWhole | filter/ngx_http_brotli_filter_module.c:1833-1867 | openat() is given the component itself exactly when it holds no NUL |
| StrictPaths.NulCuts | filter/ngx_http_brotli_filter_module.c:1833-1867 | a component with a NUL is seen up to the NUL |
| StrictChain.LookupIsDirect | filter/ngx_http_brotli_filter_module.c:1861-1867 | with the flags of the walk openat() gives the directory's very entry of that name, and only if it is no link, a directory before the last component |
| StrictChain.WalkExactly | filter/ngx_http_brotli_filter_module.c:1749-1901 | a leaf is returned if and only if a chain of entries leads to it from a vetted root, each the very entry its directory has under that name, the name shorter than 4096 and neither "." nor "..", none a link, each directory vetted before use |
| StrictChain.NoLinkFollowed | filter/ngx_http_brotli_filter_module.c:1861-1880 | nothing on the chain is a symbolic link, and all but the leaf are directories |
| StrictChain.NeverFollows | filter/ngx_http_brotli_filter_module.c:1861-1867 | however the walk ends, every openat() it made refuses symbolic links |
| StrictChain.VettedBeforeUse | filter/ngx_http_brotli_filter_module.c:1779-1898 | however the walk ends, no entry was ever opened below a directory that the call just before had not vetted |
| StrictChain.NamesInOrder | filter/ngx_http_brotli_filter_module.c:1791-1898 | the names opened are the components in order: a prefix of them, all of them on success |
| StrictChain.NeverAsksForDots | filter/ngx_http_brotli_filter_module.c:1844-1858 | however the walk ends, it never asked for ".", ".." or a name of 4096 bytes or more |
| StrictChain.DotsAreRefused | filter/ngx_http_brotli_filter_module.c:1844-1858 | a path with a piece that is "." or "..", or reads so up to its first NUL, leads nowhere |
| StrictChain.TrailingSlashIgnored | filter/ngx_http_brotli_filter_module.c:1792-1842 | a trailing slash changes nothing: the last component is still opened as the file |
| DictConfig.ParseLiteral | filter/ngx_http_brotli_filter_module.c:2066-2102 | a literal is accepted exactly when it is 64 hex digits of either case, and gives their bytes |
| DictLines.LiteralReadsDump | filter/ngx_http_brotli_filter_module.c:2309-2327 | the digest printed in the mismatch message is accepted as a literal and means the same bytes |
| DictLines.LiteralExactly | filter/ngx_http_brotli_filter_module.c:2066-2102 | a literal means 32 bytes exactly when it is 64 characters, two hex digits of either case for each byte, the high one first |
| DictConfig.Config.LoadFile | filter/ngx_http_brotli_filter_module.c:2180-2290 | on success a regular, non-empty file of at most 10 MB, vetted under strict mode, read whole; each refusal names a fault the file has; the descriptor is closed on every path |
| DictConfig.Config.Enroll | filter/ngx_http_brotli_filter_module.c:2263-2347 | refused for mismatch or for a hash the location already has, exactly when that is so; else listed under the trusted literal or the computed digest, counting only computed ones |
| DictConfig.Config.LoadLine | filter/ngx_http_brotli_filter_module.c:2137-2347 | open, check, read, hash and list one dictionary: a sound line, or a refusal with a true reason; no descriptor left |
| DictConfig.RefusalIsTrue | filter/ngx_http_brotli_filter_module.c:2066-2347 | what each refusal says is so: of the literal, of the walk, or of the file, its owner, its mode bits, its size against 10485760, its digest |
| DictConfig.Config.DcbDictFile | filter/ngx_http_brotli_filter_module.c:2012-2360 | one dictionary line keeps the invariant between fields and the lines loaded; a malformed literal is reported before any file is opened; every refusal is truthful |
| DictConfig.Config.SetFlag | filter/ngx_http_brotli_filter_module.c:364-376 | a policy directive is refused exactly when it was given before |
| DictConfig.Config.InitMainConf | filter/ngx_http_brotli_filter_module.c:1921-1971 | the configuration is refused exactly when a dictionary line stands above strict_path on, or a line with a literal above trust_hashes on |
| DictLines.UncheckedLate | filter/ngx_http_brotli_filter_module.c:1926-1943 | the strict latch says exactly that: when strict is on, it is set if and only if some dictionary line precedes the directive |
| DictLines.VerifiedLate | filter/ngx_http_brotli_filter_module.c:1950-1968 | the same for the trust latch and lines with a literal |
| DictLines.LineOfDirective | filter/ngx_http_brotli_filter_module.c:2012-2360 | each dictionary directive has its own line, in order, with its location, file and literal, loaded under the policies declared above it |
| DictLines.SoundIsReliable | filter/ngx_http_brotli_filter_module.c:2137-2347 | a sound line in full: regular, 1 to 10485760 bytes read whole, hash the literal or the SHA-256 of the bytes, and under strict the leaf of the walk with safe owner and mode bits |
| DictLines.LineByLine | filter/ngx_http_brotli_filter_module.c:2263-2347 | the list of a location and the two counts grow line by line |
| DictLines.AcceptedMeans | filter/ngx_http_brotli_filter_module.c:1921-2360 | accepted with strict on: every dictionary went through the strict walk and was vetted; with trust on: only lines without a literal were hashed; without: every hash is the SHA-256 of its bytes; a literal, if given, is the hash |
| DictConfig.Parse | filter/ngx_http_brotli_filter_module.c:1921-2360 | the same outright for every directive sequence, every line in full (DictLines.SoundIsReliable), with each location's list in order and its hashes pairwise distinct |
| DictLines.ServedIsWhatWasNamed | filter/ngx_http_brotli_filter_module.c:1201-1310 | without trusted literals, a dcb response uses the very bytes whose SHA-256 the request named |

## Left out

- The static module: file lookup and response plumbing around the same weight walker.
- Brotli's internals, dictionary preparation, window bits and size hint: the compressor is its contract.
- The buffered bit and the moment a flush mark reaches the client: they depend on compressor detail.
- Buffer and chain aliasing, pools, `ngx_buf_t` flags: chains are sequences of links, the output buffer is its bytes and a position.
- Header list parts are flattened to one sequence; the walk over the raw list of nginx before 1.23 is not modelled apart.
- Clearing of content length, ranges and the strong ETag.
- Directive defaults, inheritance of settings and of dictionary lists between levels, the any_enabled switch.
- The libcrypto path of the hash: the portable one is modelled.
- A platform without openat(), where strict mode refuses every dictionary; clearing O_NONBLOCK before the read, whose effect (short reads) the reader is proved against.
- 32-bit builds, where the printed ratio passes through a narrower integer.
- Log messages; the file name in the two ordering messages is kept as the latch's value.
- Registration of the hashed-dictionaries variable; its counter is modelled.
- ReadDict.ReadDictFile: the bytes of one file are taken not to change while it is read; its size, owner and mode may.
- ReadDict.ReadDictFile: ends because interrupts stop at some point; the program would retry for ever otherwise.
- JoinExactly.JoinsExactly: for coding names that are not empty and hold no delimiter, as "br" and "dcb"; no other name can be listed.
- RoundTrip.WalkOfPrinted: parameter names are printed without DQUOTE; quoted values hold any text.
- FilterState.CapHolds: for sizes at which the counter cannot reach its sign bit, the cap plus the biggest buffer or all input being below 2^63; beyond, the code does not keep the cap (Runs.CapMissed).
- DictConfig.Config.DcbDictFile: the array slot of a dictionary is filled after its file is read, not before; this shows only in a configuration already refused.
