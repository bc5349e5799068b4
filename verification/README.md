# Models and proofs for the teleop LED benchmark

The repository measures how long it takes to blink an LED on an ESP32 from a desktop application. This
project models its four stateful parts and proves what each of them keeps or promises.

**The URI codec** (`Bytes`, `EscapeTables`, `UriSpec`, `UriCodec`, `UriRoundTrip`, `UriCanonical`,
`UriStreaming`, `UriRedirect`, `UriRedirectExact`, `UriLaws`). `UriSpec` says what percent-encoding and
percent-decoding mean: `Escape` byte by byte over one of the bitmaps, `Unescape` by looking ahead for whole
tokens. `UriCodec` has the C loops, over one flat memory in which source and destination are offsets, so that
separate, overlapping and identical buffers are all covered. The decoder there is the byte-at-a-time machine
of three states with a carried half-byte; it is proved to write what the look-ahead decoder says of the
*original* input, and to change nothing else. The other modules prove laws of the two specifications;
`UriLaws` has the equations that only the plain decoder satisfies.

**The click protocol** (`ClickSpec`, `ClickInvariant`, `ClickRuns`, `ClickDelivery`, `ClickLive`,
`DesktopApp`, `EspDevice`). `ClickSpec` gives one function for each handler of the desktop's event loop and
each step of the device, over the desktop's state and the two directions of the connection, for both
connection types. `ClickInvariant` and `ClickRuns` say what never goes wrong, `ClickLive` that clicks get
through, and exactly what ends that.
`DesktopApp.AppState` and `EspDevice.TcpClient` are the classes whose methods are proved against these
functions. A run is any sequence of enabled handlers, reads (a TCP read gathers its eight bytes in pieces of
any size), accept outcomes, read failures and device steps. Every byte carries the number of the click it
belongs to, so that the proofs can tell whose reply a reply is.

**Wi-Fi retries** (`WifiSpec`, `WifiRuns`, `WifiOutcomes`, `WifiStation`). Event handlers run one at a time while the
calling task makes its call and takes two binary semaphores in between. Giving the semaphores and the teardown
that follows are two steps, so that the caller can run between them. Schedules have any number of connects.
`WifiStation.Station` records the schedule that led to its state, so that the theorems about schedules speak
about the running object; so does `IdleShutdown.WebsocketApp`.

**Idle shutdown** (`IdleShutdown`). The one-shot timer, the semaphore and the main task, in a timed run.

## Assumptions

- Handlers of the desktop run one at a time and never inside one another; a write is delivered whole and in
  order; `async_read` completes exactly when its buffer is full; a read that fails has consumed nothing more.
- The WebSocket carries one text event for a click, without ping, pong or fragments.
- `ClickSpec.Whole`: one `recv` of the device's TCP loop returns one whole click. `ClickDelivery` shows that
  the replies stay paired with their clicks exactly then, and what goes wrong otherwise.
- `ClickSpec.Monotone`: the steady clock does not run backwards. Only the sign of a latency needs it.
- A disabled button reports no click.
- A one-shot timer fires at its expiry or later, unless it is reset first.
- The waiting caller takes live semaphores: schedules in which the teardown deletes one under it are excluded.
- A connect is begun when the one before it has returned and its handlers have been torn down.

## Where the code and its comments differ

The model follows the code.

- `esp32_cam/protocol_examples_common/include/protocol_examples_utils.h:24` promises the count of escaped
  characters; `example_uri_encode` returns the number of bytes written
  (`esp32_cam/protocol_examples_common/protocol_examples_utils.c:375`), cut to 32 bits. `UriCodec.TwoPassSizing`
  says exactly when the two agree.
- The bit comment at `esp32_cam/protocol_examples_common/protocol_examples_utils.c:170` is not the value
  beside it: refresh escapes `~` and leaves `}` bare. See
  `EscapeTables.RefreshFourthWordDiffersFromItsComment`.
- `example_handler_on_sta_got_ip` resets the retry counter before it looks whether the address belongs to
  its interface (`esp32_cam/protocol_examples_common/wifi_connect.c:73-77`).
- The device answers a `recv` of zero bytes as if it were a click (`esp32_cam/main/tcp_client.cpp:93-100`).
- The log line of the idle shutdown says that no data came for five seconds. That holds when the signal is
  given, but data may come before the main task takes it. See `IdleShutdown.TearDownRule`.

## Model

| member | source | states |
|---|---|---|
| Bytes.PrintThenParse | esp32_cam/protocol_examples_common/protocol_examples_utils.c:225-227 | the two digits printed for a byte are upper-case hexadecimal and parse back to that byte |
| Bytes.ParseThenPrint | esp32_cam/protocol_examples_common/protocol_examples_utils.c:277-323 | printing a parsed escape gives the same digits exactly when both were upper case |
| Bytes.HexPairIsExact | esp32_cam/protocol_examples_common/protocol_examples_utils.c:303-323 | shifting and adding the half-bytes never overflows a byte |
| Bytes.HexDigitsAre | esp32_cam/protocol_examples_common/protocol_examples_utils.c:277-323 | the digits are exactly `0`-`9`, `A`-`F` and `a`-`f`, each with its value |
| Bytes.CaseOfDigit | esp32_cam/protocol_examples_common/protocol_examples_utils.c:283-284 | folding the case bit makes both cases of a letter the same digit |
| EscapeTables.UriComponentEscapesAllButUnreserved | esp32_cam/protocol_examples_common/protocol_examples_utils.c:118-136 | the bitmap test holds exactly for the bytes that section 2.3 of RFC 3986 does not call unreserved |
| EscapeTables.TableContents | esp32_cam/protocol_examples_common/protocol_examples_utils.c:78-201 | the exact set of characters each of the other bitmaps escapes |
| EscapeTables.RefreshFourthWordDiffersFromItsComment | esp32_cam/protocol_examples_common/protocol_examples_utils.c:170 | value and bit comment differ in exactly `~` and `}` |
| EscapeTables.OnlyRefreshSparesPercent | esp32_cam/protocol_examples_common/protocol_examples_utils.c:78-201 | of the seven kinds only refresh leaves the percent sign bare |
| UriSpec.EscapeConcat | esp32_cam/protocol_examples_common/protocol_examples_utils.c:212-236 | escaping and counting distribute over concatenation |
| UriSpec.EscapeLength | esp32_cam/protocol_examples_common/protocol_examples_utils.c:223-236 | each escaped byte makes the output two bytes longer |
| UriSpec.UnescapeExtent | esp32_cam/protocol_examples_common/protocol_examples_utils.c:240-365 | the output is no longer than what was read; a decoder that did not stop read everything; without flags it never stops |
| UriCodec.CountEscapes | esp32_cam/protocol_examples_common/protocol_examples_utils.c:206-221 | the counting loop returns the number of bytes to escape, modulo 32 bits |
| UriCodec.WriteEscaped | esp32_cam/protocol_examples_common/protocol_examples_utils.c:223-236 | the writing loop writes the escaped form of the original input, ends just after it and changes nothing else, also in overlapping buffers with two bytes of room for each escape |
| UriCodec.NgxEscapeUri | esp32_cam/protocol_examples_common/protocol_examples_utils.c:59-237 | both modes of the encoder, chosen by the null destination; the count fits 32 bits, and is exact for inputs of less than 2^32 bytes |
| UriCodec.TwoPassSizing | esp32_cam/protocol_examples_common/protocol_examples_utils.c:206-236 | the counting pass sizes the writing pass exactly; between one and three times the input; no truncation below a third of 32 bits; the returned 32-bit value is the number of escapes if and only if input length and that number add up to a multiple of 2^32, which below a third of 32 bits leaves the empty input only |
| UriCodec.CutToWord | esp32_cam/protocol_examples_common/protocol_examples_utils.c:375 | a count cut to 32 bits fits a `uint32_t`, and is exact if and only if it is below 2^32 |
| UriCodec.LookAheadAgrees | esp32_cam/protocol_examples_common/protocol_examples_utils.c:257-357 | the byte that completes a token for the state machine completes the same token for the look-ahead decoder |
| UriCodec.ByteRead | esp32_cam/protocol_examples_common/protocol_examples_utils.c:255-359 | one byte in any state keeps the machine's progress towards the look-ahead decoding, its output staying behind the token being read |
| UriCodec.MachineEnds | esp32_cam/protocol_examples_common/protocol_examples_utils.c:255-364 | when the input ends, an unfinished escape has vanished and the outputs agree |
| UriCodec.Decide | esp32_cam/protocol_examples_common/protocol_examples_utils.c:298-353 | the two hexadecimal branches together decide decoded, kept or stopped as the token specification says, for all flags |
| UriCodec.PutKept | esp32_cam/protocol_examples_common/protocol_examples_utils.c:311 | the digits re-read after the percent sign was written are still the original ones |
| UriCodec.ReadByte | esp32_cam/protocol_examples_common/protocol_examples_utils.c:257-358 | one byte in each state: what is written, the next state, the carried half-byte |
| UriCodec.NgxUnescapeUri | esp32_cam/protocol_examples_common/protocol_examples_utils.c:240-365 | for every input, malformed or not, and every flag word: output, final read position and final state of the look-ahead decoding of the original input; nothing else changes; exact in place and for every destination at or before the source |
| UriCodec.ExampleUriEncode | esp32_cam/protocol_examples_common/protocol_examples_utils.c:368-376 | null pointers give 0; otherwise the escaped text is written and its length returned modulo 2^32, so exactly for inputs of less than a third of that |
| UriCodec.ExampleUriDecode | esp32_cam/protocol_examples_common/protocol_examples_utils.c:379-388 | null pointers do nothing; otherwise the URI decoding is written |
| UriRoundTrip.CutAfterQuestion | esp32_cam/protocol_examples_common/protocol_examples_utils.c:325-329 | the cut is a prefix that has no question mark before its last byte, and ends in one if anything is cut off |
| UriRoundTrip.UnescapeOfEscape | esp32_cam/protocol_examples_common/protocol_examples_utils.c:223-353 | decoding an escaped string, for every table that escapes the percent sign and every decoder without the redirect flag: output, bytes read and state |
| UriRoundTrip.RoundTrip | esp32_cam/protocol_examples_common/protocol_examples_utils.c:223-353 | the plain decoder returns every byte string and reads all of its escaped form |
| UriRoundTrip.RoundTripIffPercentEscaped | esp32_cam/protocol_examples_common/protocol_examples_utils.c:200-234 | a table round-trips all strings if and only if it escapes the percent sign |
| UriRoundTrip.RoundTripOfKinds | esp32_cam/protocol_examples_common/protocol_examples_utils.c:200-234 | all kinds round-trip all strings, except refresh |
| UriRoundTrip.EscapeIsInjective | esp32_cam/protocol_examples_common/protocol_examples_utils.c:223-236 | different strings have different escaped forms if the table escapes the percent sign |
| UriRoundTrip.RefreshIsNotInjective | esp32_cam/protocol_examples_common/protocol_examples_utils.c:160-176 | two strings with the same refresh form |
| UriRoundTrip.PublicRoundTrip | esp32_cam/protocol_examples_common/protocol_examples_utils.c:368-388 | the public decoder applied to the public encoder's output gives the string cut after its first question mark; all of it exactly when only the last byte may be one |
| UriCanonical.EscapeIsCanonical | esp32_cam/protocol_examples_common/protocol_examples_utils.c:223-236 | the encoder writes bare bytes that need no escape and upper-case escapes of those that do |
| UriCanonical.CanonicalForm | esp32_cam/protocol_examples_common/protocol_examples_utils.c:223-353 | canonical form, image of the encoder and fixed points of decode-then-encode are the same set |
| UriCanonical.NormalForm | esp32_cam/protocol_examples_common/protocol_examples_utils.c:223-353 | decode-then-encode is an idempotent normaliser that keeps the meaning and identifies exactly the texts of equal meaning (section 6.2.2 of RFC 3986) |
| UriCanonical.EscapedComponentIsUriSafe | esp32_cam/protocol_examples_common/protocol_examples_utils.c:118-136 | URI_COMPONENT output has only unreserved characters and percent signs |
| UriCanonical.EscapeIsIdentityIff | esp32_cam/protocol_examples_common/protocol_examples_utils.c:223-236 | escaping changes nothing exactly when the count is zero, which is when no byte needs it |
| UriCanonical.EscapeTwice | esp32_cam/protocol_examples_common/protocol_examples_utils.c:160-236 | escaping twice is escaping once: always for refresh, for the others exactly when no byte needs an escape |
| UriStreaming.Resume | esp32_cam/protocol_examples_common/protocol_examples_utils.c:243-364 | decoding a concatenation: nothing more after a stop, otherwise the rest with the bytes of the unfinished token in front, read positions adding up |
| UriStreaming.SplitIffUsual | esp32_cam/protocol_examples_common/protocol_examples_utils.c:243-364 | decoding distributes over every continuation if and only if the machine is in its usual state |
| UriStreaming.StoppingOnlyCuts | esp32_cam/protocol_examples_common/protocol_examples_utils.c:261-265 | without the redirect flag, output followed by the meaning of the unread rest is the meaning of the whole, on every input |
| UriRedirect.RewritingKeepsMeaning | esp32_cam/protocol_examples_common/protocol_examples_utils.c:298-352 | when no token read is `%%`, redirect decoding keeps the meaning of what it consumed; when none is `%?` either, a second run copies its output to the same stop |
| UriRedirectExact.KeepsMeaningIff | esp32_cam/protocol_examples_common/protocol_examples_utils.c:290-352 | for every text and every flag word with the redirect bit: the meaning of what was consumed is kept if and only if none of the tokens read is `%%` |
| UriRedirectExact.NeverCatchesUp | esp32_cam/protocol_examples_common/protocol_examples_utils.c:290-352 | once decoding the output has fallen behind decoding the input, holding back an unfinished escape, no continuation makes the two equal |
| UriRedirectExact.DebtRemains | esp32_cam/protocol_examples_common/protocol_examples_utils.c:267-352 | each piece of output either contradicts what the input means or leaves something owed |
| UriRedirectExact.RewrittenIffFixed | esp32_cam/protocol_examples_common/protocol_examples_utils.c:298-352 | the fixed points of the redirect mode: characters other than percent sign and question mark, kept escapes, and at most one question mark, at the very end |
| UriRedirectExact.SettledIffRewritten | esp32_cam/protocol_examples_common/protocol_examples_utils.c:298-352 | a second run changes nothing if and only if the first one's output has that form |
| UriRedirectExact.RedirectIsSound | esp32_cam/protocol_examples_common/protocol_examples_utils.c:298-352 | every well-formed text keeps its meaning and is settled by one run, for every flag word with the redirect bit |
| UriRedirectExact.SoundIffRedirect | esp32_cam/protocol_examples_common/protocol_examples_utils.c:298-352 | among all flag words exactly those with the redirect bit keep the meaning of all well-formed texts, and settle them in one run |
| UriRedirectExact.DoubledPercentLosesMeaning | esp32_cam/protocol_examples_common/protocol_examples_utils.c:290-296 | a `%%` that is read changes the meaning, one behind the stop does not |
| UriRedirectExact.PercentQuestionIsUnsettled | esp32_cam/protocol_examples_common/protocol_examples_utils.c:290-296 | a `%?` keeps the meaning, and is cut short the next time |
| UriRedirectExact.SettledWithoutItsMeaning | esp32_cam/protocol_examples_common/protocol_examples_utils.c:290-296 | a text that is settled by one run and has lost its meaning |
| UriLaws.DigitsDenote | esp32_cam/protocol_examples_common/protocol_examples_utils.c:277-323 | two characters after a percent sign denote a byte if and only if they are its printed digits, in either case |
| UriLaws.DenotedIsTaken | esp32_cam/protocol_examples_common/protocol_examples_utils.c:302-347 | every byte, in front of every text, is decoded from its escape in either case of each digit |
| UriLaws.MalformedEscapes | esp32_cam/protocol_examples_common/protocol_examples_utils.c:290-296 | for every flag word: a bad first digit is written and its percent sign dropped, a bad second digit drops the escape, an unfinished escape writes nothing |
| UriLaws.MeaningDecodes | esp32_cam/protocol_examples_common/protocol_examples_utils.c:255-357 | the plain decoder satisfies the defining equations, among them that either case of an escape gives its byte |
| UriLaws.OnlyMeaningDecodes | esp32_cam/protocol_examples_common/protocol_examples_utils.c:255-357 | every function that satisfies them is the plain decoder |
| UriLaws.CaseOfDigitsIsIgnored | esp32_cam/protocol_examples_common/protocol_examples_utils.c:283-306 | changing the case of the digits of escapes changes no decoding without the redirect flag, and with it only the case of the escapes kept; section 6.2.2.1 of RFC 3986 |
| UriLaws.CaseIsNormalized | esp32_cam/protocol_examples_common/protocol_examples_utils.c:223-236 | texts that differ in the case of their digits have the same normal form |
| UriLaws.FlagsMatterModuloFour | esp32_cam/protocol_examples_common/protocol_examples_utils.c:261-352 | two flag words decode every text alike if and only if they agree in their two lowest bits |
| UriLaws.RedirectOfEscape | esp32_cam/protocol_examples_common/protocol_examples_utils.c:298-352 | redirect decoding of an escaped string: cut after the first question mark, with exactly the escapes of bytes outside `&` to `~` kept (with the URI flag as well, only those ending in a decimal digit), having read just that part |
| ClickInvariant.UiKeeps | desktop_app/src/app.cpp:220-274 | processing UI events keeps the invariant: a waiting click starts the only exchange |
| ClickInvariant.IoKeeps | desktop_app/src/app.cpp:329-380 | processing results keeps the invariant, never starts a read without its socket or beside another, and a reply ends the exchange |
| ClickInvariant.FrameKeeps | desktop_app/src/app.cpp:439-442 | one round of the loop keeps the invariant, with the button pressed or not |
| ClickInvariant.TcpReadKeeps | desktop_app/src/app.cpp:306-326 | a reply gathered in any pieces is the device's reply, byte for byte |
| ClickInvariant.DeviceKeeps | esp32_cam/main/main.cpp:91-108 | the device's receiving and replying keep the invariant |
| ClickInvariant.StepKeeps | desktop_app/src/app.cpp:73-442 | every step of every run keeps the invariant |
| ClickRuns.Conservation | desktop_app/src/app.cpp:220-380 | in every reachable state the clicks and replies anywhere in the system number one while a command is being sent, and none otherwise |
| ClickRuns.NoRecvMixesClicks | esp32_cam/main/tcp_client.cpp:93 | all bytes waiting for the device belong to the click underway |
| ClickRuns.LatencyPairing | desktop_app/src/app.cpp:349-367 | the i-th latency is the time from the i-th click to the processing of the reply to that click, not negative; clicks do not overlap; the last one is shown |
| ClickRuns.SingleContinuation | desktop_app/src/app.cpp:73-166 | exactly one of accepting, reading, one queued result and the ended chain; the queued result can be handled |
| ClickRuns.ClickGate | desktop_app/src/app.cpp:398-411 | at most one event waits, only while connected and not sending; the other kind of socket is never set |
| ClickRuns.ClickCanBeAnswered | desktop_app/src/app.cpp:277-380 | from every reachable state whose handlers have not ended, at most four steps lead to the reply being processed |
| ClickRuns.EndedForGood | desktop_app/src/app.cpp:284-298 | after the chain has ended no reply is processed in any continuation, and an outstanding click disables the button for good |
| ClickRuns.DeadForGood | desktop_app/src/app.cpp:277-380 | the same from any state in which nothing is outstanding, also out of step |
| ClickDelivery.OnlyWholeClicksKeepStep | esp32_cam/main/tcp_client.cpp:93 | a `recv` keeps the invariant of the proofs if and only if it returns a whole click |
| ClickDelivery.WholeClicksIffPaired | esp32_cam/main/tcp_client.cpp:93 | from every state that keeps the invariant: after a `recv` every future reply answers its own click if and only if the `recv` returned a whole click or the desktop's handlers have ended |
| ClickDelivery.ShortRecvMispairs | esp32_cam/main/main.cpp:177-191 | after any short `recv`, whatever its size and the history before it, a run of whole ones in which the reply to the old click is taken for the new one's |
| ClickDelivery.HalfClicksMispair | esp32_cam/main/main.cpp:177-191 | a run in which the reply to half of the first click is taken for the reply to the second |
| ClickLive.ButtonWorks | desktop_app/src/app.cpp:398-411 | in every reachable state of both connection types, after a frame an event waits if and only if the button was pressed, a socket is set and no reply is outstanding |
| ClickLive.ClicksGoOn | desktop_app/src/app.cpp:220-442 | from every state reached without a failure, any number of further clicks can be pressed, sent and answered, with both connection types |
| ClickLive.GoesOnIffNoFailure | desktop_app/src/app.cpp:73-380 | replies can go on without end if and only if no accept and no read of the schedule has failed |
| ClickLive.FailsIffFailed | desktop_app/src/app.cpp:80-164 | the handlers have ended if and only if a read or an accept has failed, or an accept gave no open connection and a frame followed |
| ClickLive.FailureStrandsAClick | desktop_app/src/app.cpp:284-298 | for every number of clicks answered before, a run in which a failed read leaves the button disabled for good |
| ClickLive.EmptyMessageEnds | desktop_app/src/app.cpp:295-298 | after a message without content no further reply is processed, whatever follows |
| ClickLive.AnyPieces | desktop_app/src/app.cpp:306-326 | however TCP cuts what is missing of a reply into pieces, they can all be read and complete it |
| ClickLive.ClicksInOrder | desktop_app/src/app.cpp:222-246 | each event of a list sends the same sixteen characters, as a text message or on the stream, on its own reading of the clock, in order |
| ClickLive.HandlersInOrder | desktop_app/src/app.cpp:329-380 | each result of a list that announces a reply is recorded on its own reading of the clock, in order |
| ClickLive.FrameOrder | desktop_app/src/app.cpp:439-442 | within a frame every waiting click is timed before every waiting reply |
| DesktopApp.FramesAreSafe | desktop_app/src/app.cpp:220-380 | in every state that keeps the invariant a frame uses no null socket and overlaps no reads |
| DesktopApp.AppState.constructor | desktop_app/src/app.cpp:186-210 | the initial state, with the accept started |
| DesktopApp.AppState.HandleSendButtonClick | desktop_app/src/app.cpp:220-257 | sets the flag and the time, and sends the sixteen bytes on the selected connection |
| DesktopApp.AppState.ProcessUiEvents | desktop_app/src/app.cpp:260-274 | the loop handles each event once, in order, and clears the list |
| DesktopApp.AppState.HandleResult | desktop_app/src/app.cpp:331-378 | one result: socket, buffer, flag, latency and the next read |
| DesktopApp.AppState.ProcessIOResults | desktop_app/src/app.cpp:329-380 | the loop handles each result once, in order, and clears the list |
| DesktopApp.AppState.Render | desktop_app/src/app.cpp:398-413 | a press is queued only while connected and enabled |
| DesktopApp.AppState.RunAppLoop | desktop_app/src/app.cpp:418-464 | events, then results, then rendering; nothing when told to stop |
| DesktopApp.AppState.OnAccept | desktop_app/src/app.cpp:115-164 | the three outcomes of an accept |
| DesktopApp.AppState.OnWsRead | desktop_app/src/app.cpp:281-303 | a message is appended to the buffer and queued, an empty one ends the chain |
| DesktopApp.AppState.OnReadFailed | desktop_app/src/app.cpp:284-294 | a failed read queues nothing |
| DesktopApp.AppState.OnTcpReadSome | desktop_app/src/app.cpp:308-325 | the buffer fills in order; the result is queued when it is full |
| EspDevice.WebsocketData | esp32_cam/main/main.cpp:91-108 | takes one message; nothing is sent for opcode 2 and for opcode 8 with two bytes, and one text message `received` for all others |
| EspDevice.TcpClient.ConnectToServer | esp32_cam/main/tcp_client.cpp:30-64 | succeeds exactly when both socket calls do; a failed connect leaves no socket |
| EspDevice.TcpClient.SendData | esp32_cam/main/tcp_client.cpp:67-81 | sends as many bytes as the socket takes, reports success for fewer than all, and needs a socket |
| EspDevice.TcpClient.ReceiveData | esp32_cam/main/tcp_client.cpp:85-101 | moves the received bytes into the buffer's front; errors change nothing |
| EspDevice.TcpClient.Disconnect | esp32_cam/main/tcp_client.cpp:104-112 | leaves no socket |
| EspDevice.TcpClient.ServeOnce | esp32_cam/main/main.cpp:179-190 | one round of the device's loop: the bytes consumed also when the send fails, the part of the reply sent, and, when all of it is, the protocol's receive followed by its reply |
| EspDevice.TcpClient.TcpAppStart | esp32_cam/main/main.cpp:177-191 | the loop runs until the first failure and sends, for every `recv`, what the socket takes of one reply |
| EspDevice.Rounds | esp32_cam/main/main.cpp:177-191 | the rounds of the loop: all before it served, and the one after them failed |
| EspDevice.WholeReplies | esp32_cam/main/main.cpp:177-191 | when each send takes all of it, `received` goes out once for each round and nothing else |
| WifiRuns.RunCounts | esp32_cam/protocol_examples_common/wifi_connect.c:31-60 | along every schedule, over any number of connects: the counter is the number of disconnects since its last reset, handlers are dispatched until giving up, and the calls of `esp_wifi_connect` stay within budget |
| WifiRuns.RunTells | esp32_cam/protocol_examples_common/wifi_connect.c:36-45 | a full or taken semaphore means an own address event of the connect underway, or giving up |
| WifiRuns.RunAllocates | esp32_cam/protocol_examples_common/wifi_connect.c:143-155 | each semaphore is null, alive or deleted exactly as the connects and teardowns of the schedule say |
| WifiRuns.RetryBound | esp32_cam/protocol_examples_common/wifi_connect.c:31-60 | counter and calls of `esp_wifi_connect` are bounded for any number of connects and got-IP events, by one more than the retries allowed for a single connect without one |
| WifiRuns.RetryBoundIsReached | esp32_cam/protocol_examples_common/wifi_connect.c:31-60 | the bound is attained |
| WifiRuns.GivenUpForGood | esp32_cam/protocol_examples_common/wifi_connect.c:35-48 | having given up, no schedule makes it count again, nor connect again before the next connect, except for the connecting task's own pending call |
| WifiRuns.DropsMeaning | esp32_cam/protocol_examples_common/wifi_connect.c:73 | the number of disconnects after the last got-IP event or connect of a schedule |
| WifiRuns.WaiterResult | esp32_cam/protocol_examples_common/wifi_connect.c:171-183 | `ESP_FAIL` if and only if more disconnects than allowed came since the last got-IP event of this connect; `ESP_OK` only after an own address event of this connect for each configured family |
| WifiRuns.HandlersMeetDeleted | esp32_cam/protocol_examples_common/wifi_connect.c:38-45 | a dispatched handler meets a deleted semaphore if and only if its connect does not wait and the last one that did left the pointer behind |
| WifiRuns.DeletedIsMet | esp32_cam/protocol_examples_common/wifi_connect.c:194-201 | such a schedule |
| WifiOutcomes.ConnectsExactly | esp32_cam/protocol_examples_common/wifi_connect.c:31-60 | the calls of `esp_wifi_connect` are exactly the connecting tasks' own ones and one for each disconnect that is not for roaming and comes while retries are left |
| WifiOutcomes.GivesUpIff | esp32_cam/protocol_examples_common/wifi_connect.c:35-48 | handlers are dispatched from connect to teardown, and have given up if and only if more disconnects than allowed have come since the last reset |
| WifiOutcomes.RunFills | esp32_cam/protocol_examples_common/wifi_connect.c:38-45 | while the caller has still to take them, semaphores are full if and only if an own address event has come or the station has given up |
| WifiOutcomes.TakesIff | esp32_cam/protocol_examples_common/wifi_connect.c:173-178 | a waiting caller gets past a semaphore exactly then |
| WifiOutcomes.ReleasedCallerReturns | esp32_cam/protocol_examples_common/wifi_connect.c:171-183 | once every configured address has come, or the station has given up, the caller's own steps lead to its result, which the disconnects decide |
| WifiOutcomes.AddressesReleaseTheCaller | esp32_cam/protocol_examples_common/wifi_connect.c:79-80 | when every configured address has come and the disconnects are within the limit, the caller can run on to `ESP_OK` |
| WifiOutcomes.GivingUpReleasesTheCaller | esp32_cam/protocol_examples_common/wifi_connect.c:37-46 | between giving up and teardown a waiting caller can run on to `ESP_FAIL` |
| WifiOutcomes.ResultsAccounted | esp32_cam/protocol_examples_common/wifi_connect.c:141-183 | each result from the schedule: no memory, an error of the call, failure or success of the check, and success right after the call of a connect that does not wait |
| WifiOutcomes.ConnectCanSucceedIff | esp32_cam/protocol_examples_common/wifi_connect.c:179-183 | a connect that waits can return `ESP_OK` in some schedule if and only if the retry limit is not negative |
| WifiStation.Station.StaDoConnect | esp32_cam/protocol_examples_common/wifi_connect.c:141-163 | semaphores, counter and registration, with each early return |
| WifiStation.Station.StaCallConnect | esp32_cam/protocol_examples_common/wifi_connect.c:166-176 | the call of `esp_wifi_connect`, its failure, and the way to the first wait |
| WifiStation.Station.HandlerOnWifiDisconnect | esp32_cam/protocol_examples_common/wifi_connect.c:31-60 | count, then give up, ignore roaming, or reconnect; which error aborts; gives up exactly when the schedule has more disconnects than allowed; its calls are those the schedule says, within the bound |
| WifiStation.Station.HandlerOnStaGotIp | esp32_cam/protocol_examples_common/wifi_connect.c:70-84 | resets the counter, and gives the semaphore for its own interface: a caller that waits for it can go on |
| WifiStation.Station.HandlerOnStaGotIp6 | esp32_cam/protocol_examples_common/wifi_connect.c:87-105 | gives the semaphore for a preferred address of its own interface: a caller that waits for it can go on |
| WifiStation.Station.TakeIpAddrs | esp32_cam/protocol_examples_common/wifi_connect.c:173-175 | the first take empties its semaphore |
| WifiStation.Station.TakeIp6Addrs | esp32_cam/protocol_examples_common/wifi_connect.c:176-178 | the second take empties its semaphore |
| WifiStation.Station.CheckRetries | esp32_cam/protocol_examples_common/wifi_connect.c:179-183 | the result, in terms of the schedule that led here: failure exactly after too many disconnects, success only after the addresses |
| WifiStation.Station.StaDoDisconnect | esp32_cam/protocol_examples_common/wifi_connect.c:186-203 | no handler is left, semaphores are deleted but the pointers stay |
| IdleShutdown.SignalIffSilence | esp32_cam/main/main.cpp:56-60 | the timer can signal if and only if data has come since it last did, the last of it at least five seconds ago |
| IdleShutdown.TearDownRule | esp32_cam/main/main.cpp:153-164 | teardown is possible exactly after a signal and before any other teardown, so only after data; there has been silence if and only if no data came since the timer fired, or it came at least five seconds ago |
| IdleShutdown.PromptTearDownIsSilent | esp32_cam/main/main.cpp:161-164 | a teardown right after the signal comes in silence |
| IdleShutdown.LateTearDownIsNotSilent | esp32_cam/main/main.cpp:126 | a run in which data came just before the teardown |
| IdleShutdown.StoppedIffTornDown | esp32_cam/main/main.cpp:161-164 | the client is stopped exactly when the schedule has a teardown, and no schedule has two |
| IdleShutdown.TearDownIsFinal | esp32_cam/main/main.cpp:161-164 | no data event and no second teardown in whatever follows a teardown |
| IdleShutdown.SilenceBringsTearDown | esp32_cam/main/main.cpp:153-164 | from every schedule with data and no teardown, five seconds of silence lead to the teardown, by the signal if there has been data since the last one |
| IdleShutdown.WebsocketApp.OnData | esp32_cam/main/main.cpp:126 | a data event restarts the timer |
| IdleShutdown.WebsocketApp.ShutdownSignaler | esp32_cam/main/main.cpp:56-60 | the one-shot timer has run out after silence and the semaphore is given |
| IdleShutdown.WebsocketApp.TearDownClient | esp32_cam/main/main.cpp:161-164 | the semaphore is taken and the client destroyed, after data and a signal, and in silence unless data came since the signal; it was the only teardown, and no data follows in any continuation |

## Left out

- NgxUnescapeUri: an output that starts inside the input, after its first byte, overwrites bytes still to be read and is excluded.
- NgxEscapeUri: kinds beyond the seven entries of the C array are excluded, as is an output that would overwrite input still to be read.
- StaDoConnect: the four registrations and the configuration are one step, and errors that abort the program there are not modelled.
- WaiterResult: schedules in which the teardown deletes a semaphore under the waiting caller are excluded, as is a teardown that a task other than the event task asks for.
- Rendering, window lifetime, logging, command line and signal handling of the desktop: no state of interest beyond the button.
- Boost.Asio, Beast, lwIP, FreeRTOS and ESP-IDF themselves: represented by the assumptions above.
- Ethernet, Thread, PPP, console and stdin helpers of the example code: set-up, or simpler repetitions of the Wi-Fi logic.
- JSON logging of received data, certificates and build options: no effect on the exchange.
