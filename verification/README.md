# Verified model of the plugin SDK's core

This project models four parts of the SDK and proves what they promise.

**The resident session lane** (`pkg/aiiosdk/session.go`). One bounded outbound queue, one writer
goroutine, any number of senders, admission answers with a reserved share of the queue, host calls
that a caller may take back by winning a compare-and-swap, a written watermark for `Flush`, and a
two-stage shutdown. Every critical section under the lane's mutex, every compare-and-swap, and the
start and the end of a transport write is one atomic action of `SessionLane`; actions of different
goroutines interleave freely, and timers, cancelled contexts and transport failures are actions that
may happen at any time. `SessionInvariants` holds the inductive invariant, `SessionTheorems` what it
means over whole runs, and `SessionObject.Session` the object whose methods are proved to be exactly
those actions.

**The strict JSON domain and the dispatcher** (`strictjson.go`, `arrays.go`, `plugin.go`). `JsonScan` says
what a scan takes as a function of the bytes that remain; `StrictScanner.Scanner` is the scanner that
advances its index, proved against those functions. `JsonGrammar` writes the grammar out as trees, and
`StrictSpelling` proves that exactly its texts within the domain's bounds are accepted, and cut where the
grammar cuts them; `Utf8Exact` does the same for UTF-8. `JsonLocality` proves that a scan depends only on
the bytes it takes and the byte that ends them, and everything else rests on it: spans cut from a payload
(`JsonSpans`, `JsonReaders`), the brace-counting shortcut (`JsonBraces`), the quoting round trip
(`JsonQuote`) and every response the dispatcher builds (`Dispatcher`, `Responses`, `Requests`, `Envelopes`).
`NumberDomain` and `NumberExact` treat the digit arithmetic behind the 2^53-1 bound, with the program's
64-bit wrap-around, and `NumberEdges` the inputs on which it wraps. `CanonStrings`, `CanonNumbers`,
`CanonJson`, `CanonReads` and `CanonTheorems` treat the packaging side's canonical encoding; `CanonSpelling`
says in how many ways a document may spell a value, and `CanonDocuments` that exactly those canonicalise,
and alike; `CanonOutput` says what comes out. The grammar is RFC 8259 (section 6 for numbers, section 7 for
strings); the shape of a response is section 5 of the JSON-RPC 2.0 specification.

**The canonical package archive** (`tree.go`, `tar.go`, `runtime.go`, `publish_manifest.go`). `Paths` and
`PackageTree` give the member list, `TarHeader` and `PackageTar` the stream and an independent reader for
it, `TarBytes` its bytes at their offsets (the "ustar Interchange Format" and "pax Extended Header" parts of
the pax utility in IEEE Std 1003.1), `Catalog` the publisher's member loop over what was packed,
`RuntimeLimits` the budgets.

**State kept across calls.** `Mailbox`, `MailboxWalk` and `MailboxRuns` treat the Gmail channel's cursor and
pending batch over a store whose writes can be cut short, expired histories included, `SendWindows` the
sliding send window, and `FreeTime` the calendar's free slots under a listing that may be cut short.

## What the proofs turned up

- The number test is exact except where its exponent arithmetic wraps. `0.05e-9223372036854775808` is no
  integer and is refused, because its scale wraps to 2^63-2 (`NumberEdges.WrappedTokenIsRefused`, on the
  token's own bytes); `0.5e-9223372036854775808` sends the test into padding a text with 2^63-1 zeros
  (`NumberEdges.WrappedTokenIsPadded`). `NumberExact.NumberTestIsExact` gives the exact condition for the
  test to be right, `NumberEdges.ExhaustedExactly` the exact numbers that reach the padding.
- `memberAllowance` wraps for a budget above four fifths of the largest int, and such a budget then
  admits nothing: exactly those budgets refuse every tree (`RuntimeLimits.AdmitsNothingExactly`), and the
  largest int refuses a tree of one file, for which a budget of one is enough
  (`RuntimeLimits.LargestBudgetAdmitsNothing`). `RuntimeLimits.CeilingIsExact` shows the files ceiling is
  the exact threshold for a budget if and only if the allowance of that budget fits an int.
- A response can hold both a result and an error. A handler's raw JSON is pasted as it stands
  (`pkg/aiiosdk/marshal.go:39-43`), and the last check asks only for a strict payload, which
  `true},"error":{` passes (`Envelopes.BothInOneResponse`). `Envelopes.SuccessExactly` gives the exact
  condition on what a handler returns for the response to be the intended envelope, that its braces close
  inside it; with it `Envelopes.RespondHoldsOne` proves exactly one of the two keys for every frame, and
  `Envelopes.PayloadHoldsOneExactly` says for all payloads which of them break the rule.
- The canonical profile refuses a NUL in a string value but not in an object key: the check stands in the
  value branch only (`pkg/aiiospkg/canonjson.go:57-68` beside `95-97`). The model follows the code.
  `CanonDocuments.NulKeyIsAccepted` and `CanonDocuments.NulValueIsRefused` show a document of each kind, and
  `CanonDocuments.NulOnlyInKeys` that an accepted document holds a NUL exactly when one of its keys does.
- The mailbox cursor can move back, after a save was cut short between its first two writes and the older
  batch it left behind is acknowledged. `MailboxRuns.CursorMayGoBack` is a run from the empty store that
  does it, `MailboxRuns.GoesBackExactlyFromStale` shows that it can happen exactly when the stored batch
  leads to a place before the stored cursor, `MailboxRuns.CursorIsMonotone` that it never happens in a run
  without such a cut, and `MailboxRuns.NoMessageIsLost` that it loses nothing.

## Model

| member | source | states |
|---|---|---|
| SessionObject.Session.constructor | pkg/aiiosdk/session.go:177-180 | a new lane satisfies the invariant |
| SessionObject.Session.TryEnqueue | pkg/aiiosdk/session.go:403-427 | one critical section: refused exactly on a settled or faulted lane, and for an ordinary frame on a closed one; else accepted exactly while fewer than 64 frames, for an answer 128, are queued, and then appended with the next sequence number; else full |
| SessionObject.Session.RespondAdmission | pkg/aiiosdk/session.go:324-341 | an answer is queued exactly on an unsettled, unfaulted lane and refused otherwise, never for room; the invariant is kept |
| SessionObject.Session.EnqueueCall | pkg/aiiosdk/session.go:446-468 | one turn of the enqueue loop: on an open, unfaulted lane the call is queued below 64 frames and goes on waiting at 64; else it is not sent |
| SessionObject.Session.BeginCall | pkg/aiiosdk/session.go:529-538 | the id handed out is the next one, pending, and was never a call's id before |
| SessionObject.Session.WithdrawCall | pkg/aiiosdk/session.go:568-578 | the swap is won exactly when nobody claimed the frame; then the call is not sent and the frame was never begun, else its outcome is unknown |
| SessionObject.Session.ClaimForWriter | pkg/aiiosdk/session.go:429-432 | the writer's swap is won exactly when nobody claimed the frame; a lost one owes nothing |
| SessionObject.Session.MoveWatermark | pkg/aiiosdk/session.go:390-395 | the watermark moves only over the frame right after it |
| SessionObject.Session.FlushCheck | pkg/aiiosdk/session.go:483-496 | a flush is done exactly when the watermark reached its target, and then every frame up to the target was written or withdrawn |
| SessionObject.Session.EndLane | pkg/aiiosdk/session.go:94-103 | closing is one action and keeps the invariant |
| SessionObject.Session.SettleLane | pkg/aiiosdk/session.go:230-236 | settling is one action and keeps the invariant |
| SessionObject.Session.EmitEvent | pkg/aiiosdk/session.go:470-481 | an event is queued exactly below 64 frames of an open, unfaulted lane |
| SessionObject.Session.BeginFlush | pkg/aiiosdk/session.go:483-486 | a flush waits for every frame accepted so far |
| SessionObject.Session.TakeFrame | pkg/aiiosdk/session.go:354-360 | the writer takes the oldest frame |
| SessionObject.Session.ReleaseSlot | pkg/aiiosdk/session.go:381-385 | an answer, and only an answer, gives its admission slot back before it is written |
| SessionObject.Session.LookAtFault | pkg/aiiosdk/session.go:433-436 | a claimed frame is given up unsent on a faulted lane and begun on any other |
| SessionObject.Session.FinishWrite | pkg/aiiosdk/session.go:442-443 | a whole write is reported, and owes nothing |
| SessionObject.Session.FailWrite | pkg/aiiosdk/session.go:437-438 | a failed write is the writer's next concern |
| SessionObject.Session.RaiseFault | pkg/aiiosdk/session.go:105-110 | the fault is recorded before the lane ends |
| SessionObject.Session.EndAfterFault | pkg/aiiosdk/session.go:111 | the lane closes after its fault |
| SessionObject.Session.ReportFailure | pkg/aiiosdk/session.go:439-440 | the failure is reported, and the frame still owed |
| SessionObject.Session.AbandonQueue | pkg/aiiosdk/session.go:449-466 | a call that stops waiting for room was not sent |
| SessionObject.Session.HearReport | pkg/aiiosdk/session.go:559-567 | the writer's report makes the call not sent, of unknown outcome, or sent and waiting |
| SessionObject.Session.TakeReply | pkg/aiiosdk/session.go:584-588 | a sent call returns the reply in its channel |
| SessionObject.Session.StopWaiting | pkg/aiiosdk/session.go:579-583 | a sent call that stops waiting has an unknown outcome |
| SessionObject.Session.ForgetCall | pkg/aiiosdk/session.go:539-543 | a returned call's id leaves the pending |
| SessionObject.Session.HearReply | pkg/aiiosdk/session.go:612-619 | a reply is delivered exactly when its id is pending |
| SessionObject.Session.DeliverReply | pkg/aiiosdk/session.go:620-625 | the first reply to a call stays |
| SessionObject.Session.AdmitControl | pkg/aiiosdk/session.go:313-317 | a control takes one of 64 slots, or none is left |
| SessionObject.Session.WinAnswer | pkg/aiiosdk/session.go:158-161 | only the first answer to a control goes on |
| SessionObject.Session.GiveSlotBack | pkg/aiiosdk/session.go:336-338 | a refused answer gives its slot back itself |
| SessionObject.Session.SetFault | pkg/aiiosdk/session.go:105-110 | a fault may be set at any time |
| SessionObject.Session.SeeClosed | pkg/aiiosdk/session.go:360 | the writer learns that the lane closed |
| SessionObject.Session.SeeSettled | pkg/aiiosdk/session.go:366 | and then that it settled |
| SessionObject.Session.Retire | pkg/aiiosdk/session.go:367-373 | the writer returns when the lane settled and the queue is empty |
| SessionTheorems.Keeps | pkg/aiiosdk/session.go:94-112 | every enabled action of every goroutine keeps the whole invariant |
| SessionTheorems.RunKeeps | pkg/aiiosdk/session.go:354-444 | the invariant holds in every state of every run |
| SessionTheorems.RunGrows | pkg/aiiosdk/session.go:381-444 | along a run acceptances, claims, reports, the transport log, the watermark, released slots and returned results are never taken back |
| SessionTheorems.NotSentWasNeverBegun | pkg/aiiosdk/session.go:446-468 | a host call that reported ErrNotSent never has a byte of its frame handed to the transport, then or later |
| SessionTheorems.RepliedWasWrittenWhole | pkg/aiiosdk/session.go:518-590 | a host call that returned a reply had its one frame written whole, and the reply was sent under its own id |
| SessionTheorems.IdsAreNeverReused | pkg/aiiosdk/session.go:529-543 | no two calls of a run get the same id |
| SessionTheorems.CallIsQueuedExactly | pkg/aiiosdk/session.go:403-468 | in every run a call waiting for room is queued exactly below 64 frames of an open, unfaulted lane, not sent on a closed or faulted one, and waiting otherwise |
| SessionTheorems.AnswerIsNeverRefusedForRoom | pkg/aiiosdk/session.go:302-341 | an admission answer always finds room; it is accepted exactly while the lane is unsettled and unfaulted |
| SessionTheorems.SlotsCoverWhatIsOwed | pkg/aiiosdk/session.go:29-33 | slots held cover unanswered controls and queued answers; ordinary frames occupy at most the 64 unreserved places |
| SessionTheorems.GivesBackOnce | pkg/aiiosdk/session.go:334-338 | a slot given back is held, by a control that gave none back before |
| SessionTheorems.EachSlotIsReleasedOnce | pkg/aiiosdk/session.go:381-385 | no control's slot is released twice in a run, and the slot count moves by exactly what is released and admitted |
| SessionTheorems.FlushedMeansWrittenOrWithdrawn | pkg/aiiosdk/session.go:483-512 | when Flush returns nil, every frame accepted before it began was written whole or withdrawn by its caller and never begun |
| SessionTheorems.WatermarkStopsAtFirstFailure | pkg/aiiosdk/session.go:386-396 | the watermark never passes a frame that failed or was not sent |
| SessionTheorems.TransportKeepsOrder | pkg/aiiosdk/session.go:429-444 | frames reach the transport in acceptance order, each at most once, none after a failed write |
| SessionTheorems.ClosedAcceptsOnlyAnswers | pkg/aiiosdk/session.go:94-103 | once closed only admission answers are accepted, once settled nothing is |
| SessionTheorems.RetiredMeansDone | pkg/aiiosdk/session.go:354-379 | when the writer retires the queue is empty, every accepted frame is finished, and nothing is accepted or begun afterwards |
| NumberDomain.SplitNumber | pkg/aiiosdk/strictjson.go:367-397 | the index loops read sign, integer digits, fraction digits and exponent as the token's text has them |
| NumberDomain.NormalizeDecimal | pkg/aiiosdk/strictjson.go:399-411 | leading and trailing zeros go, and the scale grows by the trailing ones, wrapping at 64 bits |
| NumberDomain.NumberDomainOK | pkg/aiiosdk/strictjson.go:329-365 | the whole test, loops included, is the function the exactness theorem is about |
| NumberExact.NumberTestIsExact | pkg/aiiosdk/strictjson.go:329-365 | for finite numbers, acceptance means "no integer, or of magnitude at most 2^53-1" if and only if the exponent arithmetic stays within 64 bits |
| NumberExact.AcceptsExactly | pkg/aiiosdk/strictjson.go:329-411 | the same for every token of the grammar, read from its text; numbers that parse as infinite are refused |
| NumberEdges.WrappedTokenIsRefused | pkg/aiiosdk/strictjson.go:346-356 | the token 0.05e-9223372036854775808, as the scanner receives it, is finite and no integer, and is refused, alone as a document too |
| NumberEdges.ExhaustedExactly | pkg/aiiosdk/strictjson.go:354-360 | a finite number reaches the loop that pads about 2^63 zeros exactly when its scale lies below the least int by at most its count of significant digits |
| NumberEdges.WrappedTokenIsPadded | pkg/aiiosdk/strictjson.go:354-360 | the token 0.5e-9223372036854775808 is such a number |
| StrictScanner.Scanner.Ws | pkg/aiiosdk/strictjson.go:55-64 | skips exactly the white space at the index |
| StrictScanner.Scanner.Lit | pkg/aiiosdk/strictjson.go:91-97 | takes a literal exactly when it stands at the index |
| StrictScanner.Scanner.Hex | pkg/aiiosdk/strictjson.go:264-284 | four hexadecimal digits and their value, or refusal |
| StrictScanner.Scanner.ScanEscape | pkg/aiiosdk/strictjson.go:200-262 | short escapes, paired surrogates joined; NUL and lone surrogates refused |
| StrictScanner.Scanner.ScanString | pkg/aiiosdk/strictjson.go:171-198 | decodes a string and stops right after its closing quote |
| StrictScanner.Scanner.ScanNumber | pkg/aiiosdk/strictjson.go:286-327 | the longest number of the grammar, in the number domain |
| StrictScanner.Scanner.ScanValue | pkg/aiiosdk/strictjson.go:66-89 | one value, nesting bounded, depth restored |
| StrictScanner.Scanner.ScanObject | pkg/aiiosdk/strictjson.go:99-141 | an object with no repeated key |
| StrictScanner.Scanner.ScanArray | pkg/aiiosdk/strictjson.go:143-169 | an array |
| StrictScanner.ValidateStrict | pkg/aiiosdk/strictjson.go:15-35 | accepts exactly the strict domain |
| StrictSpelling.StrictExactly | pkg/aiiosdk/strictjson.go:15-327 | a payload is accepted if and only if it is UTF-8 and is white space about a text of the RFC 8259 grammar with distinct decoded keys, no NUL, paired surrogates, numbers in the domain and at most 64 levels |
| StrictSpelling.NumbersExactly | pkg/aiiosdk/strictjson.go:286-411 | which numbers of the grammar are in the domain, by their digits, their exponent and the bound 9007199254740991 |
| StrictSpelling.MembersExactly | pkg/aiiosdk/strictjson.go:418-460 | objectMembers cuts a strict object into its keys, decoded, and the texts of their values, in order |
| StrictSpelling.ElementsExactly | pkg/aiiosdk/arrays.go:7-39 | arrayElements cuts a strict array into the texts of its items, in order |
| StrictSpelling.DecodeExactly | pkg/aiiosdk/strictjson.go:471-478 | decodeJSONString reads exactly the quoted texts of the grammar, as what their pieces stand for |
| JsonGrammar.JoinedInverse | pkg/aiiosdk/strictjson.go:237-262 | the halves of a surrogate pair are the upper and the lower ten bits of their code point, and of no other |
| Utf8Exact.Utf8Exactly | pkg/aiiosdk/strictjson.go:15-24 | a text passes the UTF-8 check if and only if it is a sequence of code points, none a surrogate, each written in its fewest bytes |
| Utf8Exact.EncodeExactly | pkg/aiiosdk/strictjson.go:200-262 | the bytes of a code point read back to it, and are as few as hold it |
| JsonLocality.ValueLocal | pkg/aiiosdk/strictjson.go:66-89 | a value scans alike on any bytes that agree on what it takes and do not prolong it |
| JsonLocality.NumeralLocal | pkg/aiiosdk/strictjson.go:286-327 | locality of numbers, with the byte that ends them |
| JsonLocality.StringLocal | pkg/aiiosdk/strictjson.go:171-198 | locality of strings |
| JsonLocality.MembersLocal | pkg/aiiosdk/strictjson.go:99-141 | locality of an object's member list |
| JsonLocality.ElementsLocal | pkg/aiiosdk/strictjson.go:143-169 | locality of an array's element list |
| JsonReaders.ReadObjectMembers | pkg/aiiosdk/strictjson.go:418-460 | the loop returns exactly the keys and value spans of the object, in order |
| JsonReaders.ReadArrayElements | pkg/aiiosdk/arrays.go:7-39 | the loop returns exactly the element spans, in order |
| JsonReaders.DecodeJSONString | pkg/aiiosdk/strictjson.go:471-478 | one string and nothing after it |
| JsonSpans.MembersOfStrict | pkg/aiiosdk/strictjson.go:418-460 | on a strict object objectMembers succeeds, keys are distinct, and every member span is itself strict |
| JsonSpans.ElementsOfStrict | pkg/aiiosdk/arrays.go:7-39 | on a strict array arrayElements succeeds and every span is itself strict |
| JsonBraces.SkipSpace | pkg/aiiosdk/arrays.go:169-174 | skips exactly the white space at the index |
| JsonBraces.ReadObjectArray | pkg/aiiosdk/arrays.go:116-167 | the brace-counting loops compute the automaton's spans, malformed input included |
| JsonBraces.ObjectArrayAgrees | pkg/aiiosdk/arrays.go:116-167 | on every strict array the brace counter returns exactly the full scanner's spans when all items are objects, and refuses it otherwise |
| JsonQuote.AppendJSONString | pkg/aiiosdk/plugin.go:309-335 | the loop appends the quoted text and nothing else |
| JsonQuote.QuoteReads | pkg/aiiosdk/plugin.go:309-335 | a quoted string scans back to itself whatever follows it |
| JsonQuote.DecodeUndoesQuote | pkg/aiiosdk/strictjson.go:471-478 | decoding undoes quoting on every text without a NUL and refuses the rest |
| JsonQuote.DecodedIsUtf8 | pkg/aiiosdk/strictjson.go:171-198 | what decodes from well-formed bytes is well formed and holds no NUL |
| Responses.RespondAnswers | pkg/aiiosdk/plugin.go:106-205 | for every frame, plugin and handler outcome the response is strict, has version 2.0, and carries the request's id bytes verbatim when they are a string, number or null, and null otherwise |
| Responses.UnregisteredAnswers | pkg/aiiosdk/plugin.go:99-104 | the same when no plugin is registered |
| Requests.CallReaches | pkg/aiiosdk/plugin.go:156-183 | a request reaches the handler registered for its operation, or else the dynamic one, and is answered with what that makes of the operation and the very bytes of its target, arguments and work session |
| Requests.MalformedIsParseError | pkg/aiiosdk/plugin.go:106-110 | a frame outside the strict domain is answered -32700 under a null id |
| Requests.NoRequestIsInvalid | pkg/aiiosdk/plugin.go:111-128 | a frame that is no object, or whose id is no string, number or null, is answered -32600 under a null id |
| Requests.WrongVersionIsInvalid | pkg/aiiosdk/plugin.go:130-136 | another version than 2.0, or a method that is no string, is answered -32600 |
| Requests.OtherMethodIsNotFound | pkg/aiiosdk/plugin.go:138-140 | another method than invoke.call is answered -32601 |
| Requests.ParamsMustBeAnObject | pkg/aiiosdk/plugin.go:142-149 | params that are no object are answered -32602 |
| Requests.OperationIsRequired | pkg/aiiosdk/plugin.go:150-154 | no operation, an empty one, or one that is no string is answered -32602 |
| Requests.WrongKindIsDenied | pkg/aiiosdk/plugin.go:156-165 | a target that is no object, and then arguments that are none, are denied with their reason codes |
| Requests.UnknownOperationFails | pkg/aiiosdk/plugin.go:167-175 | an operation nobody handles fails with OPERATION_NOT_FOUND and its name |
| Requests.UnregisteredIsSaid | pkg/aiiosdk/plugin.go:99-104 | without a plugin every frame is answered -32603 under the request's id where it has one |
| Requests.ValueIsSaid | pkg/aiiosdk/plugin.go:193-204 | a payload that is one strict value reads back from the response byte for byte, unless the response would be longer than 2^20 bytes, which is an internal error |
| Requests.UnclassifiedIsInternal | pkg/aiiosdk/plugin.go:188-196 | a value that does not encode, or an error that wraps no operation error or denial, is answered -32603 |
| Requests.RefusalIsSaid | pkg/aiiosdk/plugin.go:185-187 | the first operation error or denial down the chain reads back from the response, a status other than denied as failed |
| Requests.UnstrictIsInternal | pkg/aiiosdk/plugin.go:201-203 | a response outside the strict domain is answered -32603 instead |
| Responses.OutcomeAnswers | pkg/aiiosdk/plugin.go:183-204 | whatever a handler returns, the checked response is strict and carries the id |
| Responses.ErrorReadsBack | pkg/aiiosdk/plugin.go:254-270 | an error response reads back to its code, message and reason code, with no result member |
| Responses.FailureReadsBack | pkg/aiiosdk/plugin.go:290-307 | a failure result reads back to its status, reason and both spellings of its reason code |
| Envelopes.SuccessReadsBack | pkg/aiiosdk/plugin.go:272-288 | a success reads back to its status and to the handler's bytes unchanged, with no error member, for every strict value with room for the two objects around it |
| Envelopes.EnvelopeExactly | pkg/aiiosdk/plugin.go:272-280 | a strict response built around a result text has exactly the members version, id and that text if and only if the text's outer brace closes at its end |
| Envelopes.SuccessExactly | pkg/aiiosdk/plugin.go:196-203 | a strict response to a handler's payload is the envelope of its success result if and only if the payload's braces close inside it |
| Envelopes.ValueIsClosed | pkg/aiiosdk/plugin.go:282-288 | a payload that is one value of the strict grammar, at any depth, closes inside itself |
| Envelopes.RefusalStands | pkg/aiiosdk/plugin.go:290-307 | a failure result's brace closes at its end, whatever bytes its strings hold |
| Envelopes.OutcomeHoldsOne | pkg/aiiosdk/plugin.go:183-204 | any error, refusal or closed payload leaves as a response with exactly one of result and error |
| Envelopes.PayloadHoldsOneExactly | pkg/aiiosdk/plugin.go:196-204 | a payload leaves as a response with exactly one of the two unless the response around it passes the last check and the payload adds an error member after the result's outer brace has closed |
| Envelopes.RespondHoldsOne | pkg/aiiosdk/plugin.go:106-205 | for every frame the response holds exactly one of result and error, when the handlers' payloads are closed |
| Envelopes.UnregisteredHoldsOne | pkg/aiiosdk/plugin.go:99-104 | the same when no plugin is registered |
| Envelopes.BothInOneResponse | pkg/aiiosdk/marshal.go:39-43 | a frame and a plugin whose strict response holds both, its payload not being closed |
| CanonNumbers.CanonicalNumberOK | pkg/aiiospkg/canonjson.go:115-165 | the index loop accepts exactly the numbers of the grammar without exponent, closing fraction zeros or negative zero |
| CanonNumbers.CanonHasShape | pkg/aiiospkg/canonjson.go:115-165 | an accepted number is a sign, integer digits without a leading zero, and a fraction that does not end in zero |
| CanonNumbers.OneSpelling | pkg/aiiospkg/canonjson.go:115-165 | two accepted numbers that name the same decimal are the same text |
| CanonStrings.ParseU16 | pkg/aiiospkg/canonjson.go:179-192 | four hexadecimal digits and their value, or refusal |
| CanonStrings.ValidateUnicodeEscapes | pkg/aiiospkg/canonjson.go:194-238 | the index loop accepts exactly the inputs whose in-string escapes are well formed and paired |
| CanonStrings.EscapeReads | pkg/aiiospkg/canonjson.go:243-262 | what the switch writes for a character scans back to that character, whatever follows |
| CanonSpelling.NoShorterPiece | pkg/aiiospkg/canonjson.go:243-262 | what it writes is legal, means that character, and no legal spelling of it is shorter |
| CanonStrings.EmitCanonString | pkg/aiiospkg/canonjson.go:240-267 | writes the one canonical spelling, rune by rune, malformed bytes replaced |
| CanonStrings.TextReads | pkg/aiiospkg/canonjson.go:240-267 | a written string reads back, whatever follows |
| CanonStrings.CheckedText | pkg/aiiospkg/canonjson.go:194-238 | past the check no half of a surrogate pair is ever replaced in a string |
| CanonJson.SortKeys | pkg/aiiospkg/canonjson.go:276 | the keys come out rising byte by byte, and complete |
| CanonJson.EmitCanonValue | pkg/aiiospkg/canonjson.go:269-316 | the recursive writer, its loops and its sort produce the canonical bytes |
| CanonJson.CanonicalizeV1 | pkg/aiiospkg/canonjson.go:16-40 | succeeds exactly when the input is well-formed UTF-8 with paired escapes and one value, and returns that value's canonical bytes |
| CanonJson.AscendingUnique | pkg/aiiospkg/canonjson.go:271-276 | a set of keys has one ascending order |
| CanonReads.ValueReads | pkg/aiiospkg/canonjson.go:47-113 | canonical bytes parse back to the value they were written from, whatever may follow |
| CanonReads.ObjectReads | pkg/aiiospkg/canonjson.go:55-77 | an object parses back whatever order its members are written in |
| CanonReads.SameMembersSameObject | pkg/aiiospkg/canonjson.go:55-77 | two duplicate-free lists of the same members make one object |
| CanonTheorems.PrecheckIsExact | pkg/aiiospkg/canonjson.go:16-27 | a document passes the escape check and the replacing tokenizer exactly when it is read with no replacement, and then both readings are one value |
| CanonTheorems.DocumentWell | pkg/aiiospkg/canonjson.go:47-113 | what is parsed from UTF-8 has well-formed strings, no NUL in a string value, and canonical numbers only |
| CanonTheorems.EmitIsUtf8 | pkg/aiiospkg/canonjson.go:269-316 | canonical bytes are well-formed UTF-8 |
| CanonTheorems.EmitReadsBack | pkg/aiiospkg/canonjson.go:269-316 | canonical bytes are a document holding the value written |
| CanonTheorems.EmitIsInjective | pkg/aiiospkg/canonjson.go:269-316 | two values are written alike only if they are equal |
| CanonTheorems.CanonicalBytesDetermineTheValue | pkg/aiiospkg/canonjson.go:16-40 | inputs that canonicalise to the same bytes were read as the same value |
| CanonTheorems.CanonicalizeIsIdempotent | pkg/aiiospkg/canonjson.go:16-40 | canonicalising canonical bytes changes nothing |
| CanonTheorems.OutermostOrder | pkg/aiiospkg/canonjson.go:271-289 | a canonical object with its own members in another order canonicalises to the same bytes |
| CanonSpelling.SpellReads | pkg/aiiospkg/canonjson.go:47-113 | any spelling of a value, white space, escapes and member order free at every depth, is parsed as that value |
| CanonSpelling.ParseIsSpelled | pkg/aiiospkg/canonjson.go:47-113 | whatever the parser reads is such a spelling of what it reads |
| CanonDocuments.SpellingIsReading | pkg/aiiospkg/canonjson.go:16-40 | a document is read as a value exactly when it spells it |
| CanonDocuments.AcceptedExactly | pkg/aiiospkg/canonjson.go:16-40 | a UTF-8 document canonicalises exactly when it spells a value, and to the canonical bytes of every value it spells |
| CanonDocuments.AlikeExactly | pkg/aiiospkg/canonjson.go:16-40 | two accepted documents canonicalise to the same bytes exactly when they spell the same value |
| CanonOutput.OutputIsTight | pkg/aiiospkg/canonjson.go:240-300 | the canonical bytes spell the value the document spells, with no white space, the keys of every object at every depth rising byte by byte, and every string in its one form |
| CanonSpelling.ShortestExactly | pkg/aiiospkg/canonjson.go:115-165 | of the numbers of the grammar exactly those without exponent, closing fraction zeros or negative zero are accepted |
| CanonDocuments.MemberOrderDoesNotMatter | pkg/aiiospkg/canonjson.go:269-289 | documents that differ in the order of the members of any object at any depth, in white space and in string escapes canonicalise to the same bytes |
| CanonDocuments.NulOnlyInKeys | pkg/aiiospkg/canonjson.go:55-97 | the value of an accepted document holds a NUL in some string exactly when some object key at some depth does |
| CanonDocuments.NulKeyIsAccepted | pkg/aiiospkg/canonjson.go:57-68 | a document with a NUL in a key is accepted unchanged |
| CanonDocuments.NulValueIsRefused | pkg/aiiospkg/canonjson.go:95-97 | a document with a NUL in a string value is refused |
| Paths.FoldEqual | pkg/aiiospkg/tree.go:199-209 | compares two components up to ASCII case, and exactly |
| Paths.LessExactly | pkg/aiiospkg/tree.go:82 | the order that keys and paths are sorted by: a proper prefix first, else the smaller byte at the first difference |
| Paths.FoldsAlike | pkg/aiiospkg/tree.go:163-168 | two texts fold alike exactly when they differ at most in the case of ASCII letters |
| Paths.ComponentsExactly | pkg/aiiospkg/tree.go:132 | the components of a path are the one list of texts without a slash that joins back to it |
| Paths.CasefoldSiblingCollision | pkg/aiiospkg/tree.go:187-218 | the loop over both paths computes the collision relation |
| Paths.CollidesMeans | pkg/aiiospkg/tree.go:187-218 | two paths collide exactly when at some component they share everything before and differ there only in letter case |
| Paths.CasefoldSiblings | pkg/aiiospkg/runtime.go:547-562 | the one-pass map check finds two different paths with one folded key exactly when there are any, and names such a pair |
| Paths.OnePassIsExact | pkg/aiiospkg/runtime.go:439-441 | on an ancestor-closed path set the one-pass check finds a collision exactly when some pair collides |
| Paths.SameFoldCollides | pkg/aiiospkg/tree.go:187-218 | two different paths that fold alike collide |
| PackageTree.ValidateMembers | pkg/aiiospkg/tree.go:89-126 | accepts exactly the lists within the bounds whose paths are valid, under the root, distinct and collision-free |
| PackageTree.AcceptedExactly | pkg/aiiospkg/tree.go:89-126 | the same with every bound written out: 1024 members, 2 GiB, modes 0644 and 0755, under the root, and no two paths that agree up to letter case |
| PackageTree.ValidPathExactly | pkg/aiiospkg/tree.go:128-185 | a path is valid if and only if it has 1 to 511 bytes and joins components of 1 to 255 letters, digits and . _ + -, none ending in a dot or naming a device |
| PackageTree.CollectDirs | pkg/aiiospkg/tree.go:63-69 | adds exactly the directories a file lies in |
| PackageTree.Members | pkg/aiiospkg/tree.go:56-87 | lists exactly the files and their directories, successive paths rising byte by byte, and accepts as validateMembers does |
| PackageTree.MemberExactly | pkg/aiiospkg/tree.go:56-87 | a file is listed under the root with its content and mode 0755 where marked executable, 0644 elsewhere; a directory with mode 0755 |
| PackageTree.PayloadAdds | pkg/aiiospkg/tree.go:97-112 | the payload counts the bytes of files, however the list is divided |
| PackageTree.AcceptedListIsCanonical | pkg/aiiospkg/tree.go:56-126 | an accepted list is strictly ascending, lists every ancestor directory before its contents, and is injective under case folding of whole paths |
| PackageTree.RootComesFirst | pkg/aiiospkg/tree.go:57-85 | an accepted list begins with the root directory |
| PackageTree.DeriveDirs | pkg/aiiospkg/runtime.go:407-418 | every proper ancestor of every file, each once |
| PackageTree.DerivedIsClosed | pkg/aiiospkg/runtime.go:424-428 | derived directories and files together are closed under ancestors |
| TarHeader.TarSplitPath | pkg/aiiospkg/tar.go:97-116 | the right-to-left loop finds the rightmost usable slash, or that there is none |
| TarHeader.SplitJoins | pkg/aiiospkg/tar.go:97-116 | a split fits the name and prefix fields and joins back to the path |
| TarHeader.SplitBeforeMeans | pkg/aiiospkg/tar.go:104-115 | a split is missed only when no slash is usable |
| TarHeader.WriteOctal | pkg/aiiospkg/tar.go:122-134 | fills a field with zero-padded octal digits and NUL, or refuses a number too wide, touching nothing else |
| TarHeader.BuildTarHeader | pkg/aiiospkg/tar.go:136-180 | the array filled in place is the header block; it fails only for a path or size that does not fit, never for its checksum |
| TarHeader.SumFits | pkg/aiiospkg/tar.go:166-173 | no block's sum needs a seventh octal digit |
| TarHeader.HeaderReads | pkg/aiiospkg/tar.go:136-180 | a header reads back to its name, prefix, mode, size and type, checksum correct |
| TarBytes.HeaderExactly | pkg/aiiospkg/tar.go:136-180 | every field of a header at its offset, byte by byte, and its checksum |
| TarBytes.SplitExactly | pkg/aiiospkg/tar.go:97-116 | a path of 1 to 100 bytes is stored whole, a longer one split at its last slash that leaves at most 155 and 1 to 100 bytes, and no other |
| PackageTar.PaxBuildPathRecord | pkg/aiiospkg/tar.go:182-201 | the fixpoint loop ends, and the self-consistency error is never raised |
| PackageTar.PaxIsSelfConsistent | pkg/aiiospkg/tar.go:186-200 | the record's length is the number it begins with, and the least number that is |
| PackageTar.RecordReads | pkg/aiiospkg/tar.go:182-201 | a path record reads back to its path |
| PackageTar.WriteBlockPadding | pkg/aiiospkg/tar.go:71-75 | zero bytes up to the next block boundary |
| PackageTar.WriteMember | pkg/aiiospkg/tar.go:28-65 | one turn of the loop appends exactly that member's entry, or fails |
| TarBytes.EntryExactly | pkg/aiiospkg/tar.go:28-65 | an entry is one header and the content in whole blocks; a path that does not split comes first as a lone self-counting record behind a header of type x |
| TarBytes.StreamExactly | pkg/aiiospkg/tar.go:26-69 | the stream is the entries in order and 1024 zeros |
| PackageTar.WriteCanonicalTar | pkg/aiiospkg/tar.go:26-69 | the buffer holds the whole stream, or the packer fails |
| PackageTar.StreamReadsBack | pkg/aiiospkg/tar.go:26-69 | the stream of any packable list reads back to exactly that list |
| PackageTar.PackageReadsBack | pkg/aiiospkg/tree.go:89-126 | whatever Tree.Members accepts is packed without an error and reads back to the same paths, types, modes and contents |
| PackageTar.PackageFitsTheCatalog | cmd/aiisdk/publish_manifest.go:15 | no accepted package's stream is longer than catalogMaxTarBytes |
| Catalog.ReadMembers | cmd/aiisdk/publish_manifest.go:46-98 | the member loop accepts exactly the lists that begin with a root directory, hold distinct, well-formed members under it, at most 1024, and a manifest.json of 1 to 2^20 bytes, and returns that manifest |
| Catalog.ReadableExactly | cmd/aiisdk/publish_manifest.go:46-98 | those conditions written out |
| Catalog.PublishReadsThePackage | cmd/aiisdk/publish_manifest.go:46-98 | what an accepted package's stream reads back to passes every check of that loop exactly when the tree holds such a manifest |
| RuntimeLimits.LeastFilesCeiling | pkg/aiiospkg/runtime.go:240-249 | the loop finds the smallest budget that admits the tree |
| RuntimeLimits.CeilingIsExact | pkg/aiiospkg/runtime.go:403-421 | a budget admits exactly when it is at least the ceiling, if and only if its member allowance fits an int |
| RuntimeLimits.AdmitsNothingExactly | pkg/aiiospkg/runtime.go:238 | a positive budget refuses every tree, the empty one too, exactly when its member allowance does not fit an int |
| RuntimeLimits.LargestBudgetAdmitsNothing | pkg/aiiospkg/runtime.go:420-422 | the largest int refuses a tree of one file, whose ceiling is one |
| RuntimeLimits.RequiredCeilings | pkg/aiiospkg/runtime.go:251-270 | names only files and depth, each exactly where the host's default falls short, with the least value that suffices |
| RuntimeLimits.GrantedIsEnough | pkg/aiiospkg/runtime.go:403-421 | a host with raised defaults takes the archive exactly when it grants every ceiling required |
| RuntimeLimits.Walk | pkg/aiiospkg/runtime.go:342-377 | the walk's counters are the total, the count, the largest file and the depth |
| RuntimeLimits.LargestAndDeepest | pkg/aiiospkg/runtime.go:342-377 | the largest size and the most segments bound every file's and are some file's |
| RuntimeLimits.TotalAdds | pkg/aiiospkg/runtime.go:342-377 | the total adds up, however the files are divided |
| RuntimeLimits.PackedExtentIsValid | pkg/aiiospkg/runtime.go:128-144 | the extent reported for a packed tree of at least one byte passes validExtent, the depth bound of line 93 included |
| Mailbox.MailState.Confirm | examples/gmail/channel.go:79-93 | the cursor moves to where the batch leads exactly when every id of it was recorded |
| Mailbox.MailState.ArrivalOf | examples/gmail/channel.go:400-413 | handed over, absent, or unreadable; the newest time is kept |
| Mailbox.MailState.WalkRecords | examples/gmail/channel.go:292-325 | the walk's room, cut, notice and stop rules |
| Mailbox.Store.Save | examples/gmail/channel.go:69-77 | three writes in order, given up at the first that fails |
| Mailbox.MailState.TakeBackwards | examples/gmail/channel.go:628-641 | the newest mail is taken from its oldest end, and an unreadable message stops it |
| Mailbox.Store.Rebaseline | examples/gmail/channel.go:605-653 | at most six messages behind a gap notice are stored as a batch that leads to the present place, the cursor kept; a failure stores nothing |
| Mailbox.Store.SyncMailbox | examples/gmail/channel.go:270-346 | one call is exactly the step the run theorems are about, error paths included |
| Mailbox.Store.StartWatch | examples/gmail/channel.go:214-223 | a first cursor is set only where there is none |
| MailboxRuns.WalkSettles | examples/gmail/channel.go:296-325 | every record up to the point the walk names is settled by what was handed over or found absent |
| MailboxRuns.AbsentWasAnswered | examples/gmail/channel.go:400-406 | what a call passes over as absent was answered so by a fetch of that very call |
| MailboxWalk.WalkExactly | examples/gmail/channel.go:292-325 | the walk reads the first records whole, up to six messages each, and stops at the first it has no room for or cannot read, with what it read of that one |
| MailboxWalk.WalkNewest | examples/gmail/channel.go:409-411 | the time kept is the newest of the stored one and those of the messages handed over |
| MailboxWalk.CallExactly | examples/gmail/channel.go:270-346 | what one call hands over and stores, told from the mailbox's answers alone: nothing after a failure with nothing taken, else up to the last record read, or to the mailbox's own place when all was read |
| MailboxWalk.NeverPastAFailure | examples/gmail/channel.go:306-328 | no stored cursor and no batch leads to or past a record one of whose first six messages could not be read |
| MailboxWalk.NothingPastAFailedRecent | examples/gmail/channel.go:628-641 | after an expired history one unreadable message of the first six leaves the store as it was |
| MailboxWalk.RebaselineExactly | examples/gmail/channel.go:605-653 | else the first six hits that are there, oldest first behind the notice, are stored as a batch that leads to the present place |
| MailboxRuns.StepKeeps | examples/gmail/channel.go:270-346 | every call, watch and growth of the mailbox keeps cursor and batch good, wherever save is cut short |
| MailboxRuns.NoMessageIsLost | examples/gmail/channel.go:270-346 | in every run, each inbox message placed after the first saved cursor and at or before the present one was acknowledged, was answered absent in a fetch, is covered by an acknowledged cut notice, or lies in a stretch of an expired history that a stored rebaseline passed over and whose notice was acknowledged |
| MailboxRuns.NoMessageIsSkipped | examples/gmail/channel.go:280-346 | in a run in which no history expired, nothing is passed over: each such message was acknowledged, absent when fetched, or covered by an acknowledged cut notice |
| MailboxRuns.FreshNeverGoesBack | examples/gmail/channel.go:69-93 | from a store whose batch does not lead before its cursor no call moves the cursor back, and only a save cut after its first write leaves such a batch |
| MailboxRuns.StaleGoesBack | examples/gmail/channel.go:69-93 | from a store whose batch does, acknowledging it moves the cursor back to where the batch leads once one write succeeds and nothing is read |
| MailboxRuns.GoesBackExactlyFromStale | examples/gmail/channel.go:69-93 | some step moves the cursor back exactly when the stored batch leads before the stored cursor |
| MailboxRuns.CursorIsMonotone | examples/gmail/channel.go:69-93 | the cursor never moves back in a run in which no save is cut after exactly its first write |
| MailboxRuns.CursorMayGoBack | examples/gmail/channel.go:69-93 | a run from the empty store, with one such cut, that moves the cursor back |
| MailboxRuns.OneCallHandsOverFew | examples/gmail/channel.go:297-305 | a call hands over at most six messages and a notice, after an expired history too |
| SendWindows.SendWindow.ReadRecent | pkg/aiiosdk/sendwindow.go:64-82 | exactly the stored times later than the window's start and at most a minute ahead, ascending; none when nothing readable is stored; an error when the store does not answer |
| SendWindows.SendWindow.Admit | pkg/aiiosdk/sendwindow.go:84-102 | the verdict, its count and its retry time over those times; no verdict without settings in 1 to 1000 and 1 to 1440, a clock and a store that answers |
| SendWindows.SendWindow.Record | pkg/aiiosdk/sendwindow.go:106-124 | the store becomes the window's times and this one, the newest thousand kept; without a clock, an answer or a write it fails and the store stays |
| SendWindows.SortedKeeps | pkg/aiiosdk/sendwindow.go:80 | sorting keeps every time |
| SendWindows.NoWindowOverfull | pkg/aiiosdk/sendwindow.go:64-124 | in every run no window of the set length contains more recorded sends than the limit |
| SendWindows.AdmitIsExact | pkg/aiiosdk/sendwindow.go:84-102 | a call is admitted exactly when fewer sends than the limit were recorded in the window ending now |
| SendWindows.AdmitIsExactForSettings | pkg/aiiosdk/sendwindow.go:43-102 | the same over the settings, 20 sends in 60 minutes where they are not set |
| SendWindows.BetweenCounts | pkg/aiiosdk/sendwindow.go:64-82 | the sends of a window are those later than its start and no later than its end |
| SendWindows.RetryIsExact | pkg/aiiosdk/sendwindow.go:97-100 | from a refusal on, calls are admitted exactly from the retry time |
| SendWindows.RetryIsExactInRuns | pkg/aiiosdk/sendwindow.go:97-100 | the same in every run |
| FreeTime.Busy | examples/google-calendar/main.go:525-541 | the spans of the events that hold time, by start; fails exactly when one of them does not read |
| FreeTime.Gaps | examples/google-calendar/main.go:543-566 | slots are ordered, disjoint, inside the window, long enough and free of every event, and every stretch of the needed length that meets no event lies in one |
| FreeTime.AtMostOneSlot | examples/google-calendar/main.go:543-566 | such a stretch lies in at most one slot |
| FreeTime.FreeTimeIsUnique | examples/google-calendar/main.go:543-566 | those properties leave one answer only |
| FreeTime.Availability | examples/google-calendar/main.go:497-522 | free time is claimed up to where the calendar was read |
| FreeTime.CutNeverOverclaims | examples/google-calendar/main.go:497-505 | a listing cut short in start order claims nothing at or after the first unread event's start |
| FreeTime.CutClaimsWhatWasRead | examples/google-calendar/main.go:497-505 | a listing cut short claims every free stretch up to its last item's start |

## Left out

- Frame bytes of the session lane, JSON encoding of arguments and results, frame reading, the announcement channel that wakes waiting senders, and liveness: the lane is modelled by frame identity and order. Sequence numbers and call ids are unbounded where the program has 64 bits.
- The two-second waits of serveSession and reader interruption appear only as a fault that may be set at any time.
- NumberDomain.NumberDomainOK: ParseFloat is taken to round exactly, with an infinity from 2^1024 - 2^970 on. Go stops reading an exponent after five digits, so a token with a longer exponent balanced by about 10^5 digits of text may be judged differently there. A token that reaches the padding loop with about 2^63 zeros counts as not accepted.
- NumberExact.AcceptsExactly: for tokens of at most 2^61 bytes, as any that can exist are; integers are the 64-bit ones. The same bound stands in `NumberEdges.ExhaustedExactly` and `StrictSpelling.NumbersExactly`.
- Handlers are arbitrary outcomes: a panic in a handler, event delivery and plugin registration are not modelled, nor is the encoding of a handler's value, which may be any bytes.
- CanonJson.CanonicalizeV1: encoding/json's tokenizer is modelled by the grammar it enforces and its U+FFFD replacement, not by its own state machine; stack depth is unbounded.
- ReadTree, symlinks, hashing, gzip and signing: file system and foreign algorithms. The runtime archive's own member writer repeats the package's and is not modelled again.
- Catalog.ReadMembers: gunzip, the byte counter and the checks on the manifest's own fields are left out; that the byte ceiling is never reached is `PackageTar.PackageFitsTheCatalog`.
- RuntimeLimits.LeastFilesCeiling: for fewer than 2^61 files and directories, so that the multiplication by four does not wrap.
- RuntimeLimits.PackedExtentIsValid: sums of file sizes are unbounded integers.
- MailboxRuns.NoMessageIsLost: calls are serial, Gmail's answer to a fetch bears the id asked for, record and message ids are well formed, and a listing is a first part of the history after the cursor, the whole of it when no page remains.
- SendWindows.NoWindowOverfull: settings are fixed, calls are serial, the store starts empty and its writes succeed; a store someone else filled with future times is outside the retry theorem.
- FreeTime.Availability: time zones, date parsing and request paging are left out; instants are integers, and an event's span is given.
- Declaration validators, CLI commands, HTTP request building and the other examples: lists of independent checks or network clients.
