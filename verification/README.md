# BridgeClient command/response correlator

`BridgeClient` drives a long-running worker process (`bridge BinhoSupernova`)
over line-delimited JSON. Each call of `SendCommand` numbers its command with
a fresh transaction id, writes it to the worker's standard input, registers a
pending entry in `waitingList`, and suspends until a final response arrives.
A background loop reads the worker's standard output one line at a time.
A response with id `"0"` is an unsolicited notification and is raised through
`OnNotificationReceived`. Any other response is raised through
`OnResponseReceived` and then appended to the pending entry with the same id.
The entry is completed by its first response whose `is_promise` is false.
A response whose id is not pending is dropped.

The model is a sequential state machine. Each `lock (waitingList)` block is
one atomic step. The read loop is a `while` loop over a given sequence of
lines.

- `Wrappers` (`wrappers.dfy`): `Option` and `Result`.
- `Envelopes` (`envelopes.dfy`): the command object, `CommandResponse`, and
  `Line`. `Line` is what one `JsonSerializer.Deserialize` call yields: a line
  that throws (`Malformed`), the JSON literal `null` (`NullLiteral`), or a
  decoded response. A missing `transaction_id` is `None`. Invocations of the
  two C# events are recorded in one ordered log of `ClientEvent`s.
- `Ids` (`ids.dfy`): rendering the counter as a decimal string, and reading it
  back.
- `Routing` (`routing.dfy`): reference functions of the line stream.
  - `HaltIndex`: where the loop stops.
  - `Events`: the events it raises.
  - `Delivered`: the responses it hands to one id, in stream order.
  - `FirstFinal`: the response that completes a transaction.
  - `RouterReads` and `LateRead`: what the loop reads when the stream is cut
    in two by a registration.
- `Bridge` (`bridge_client.dfy`): the class `BridgeClient`.
  - Fields: the counter `transactionId`, the registry `waitingList`, the
    command lines written (`stdin`), the event log (`events`), and
    `stopped`, which says whether the read loop's task has ended.
  - Methods: one per locked block or step of `SendCommand`, `WaitFor` and
    `ReadFromProcessStdOutAsync`.
  - Specification: every method through which the read loop changes the
    registry is specified by `ExtendAll(w, lines)`, the registry after the
    loop has handled `lines`. `Register` and `Take` are specified by the map
    update and the key removal they make. An entry's `done` field stands
    for the result of its `TaskCompletionSource`.
- `Overflow` (`overflow.dfy`): the counter as declared, a 32-bit `int`
  incremented without a check.
- `Scenarios` (`scenarios.dfy`): whole sessions of a fresh client with
  concrete lines and concrete outcomes.

`SendCommand` suspends at `await WaitFor(...)`. While it is suspended, the read
loop runs beside it. The model therefore takes the lines the loop handles
as parameters:
- `early`: the lines handled between the write and the registration;
- `late`: the lines handled after the registration, up to the moment the
  caller takes its list. This includes lines read after the await has
  resumed and before the take.

The outcome is `Returned(list)` when one of the responses in `late` completes
the entry. The list is the entry as it stands at the take: every response
for the id read from `late`, including any read after the first final one.
Otherwise the outcome is `Hung`: no line read resumes the caller.

The model follows the code in the places where the code behaves differently
from what a caller would expect:
- A line that is not JSON makes `Deserialize` throw. This ends the read loop;
  it does not skip the line. So does a decoded response without
  `transaction_id`: `.Equals` is called on a null id.
- The read loop is launched once, by `StartAsync` through `Task.Run`, and
  nothing in the class restarts it.
  Once it has ended, by a throwing line or by the end of the stream, no
  later line is read. Every later command then hangs.
- When the output stream ends while a command is pending, that caller waits
  for ever. It does not receive a session-closed error.
- The command line is written before the entry is registered. Registering
  first is the order that lets every reply reach its caller (see the first
  finding below).
- Responses keep being appended after the final one, for as long as the key
  is present. A final response therefore need not be the last one appended.
- The list is removed without checking whether the entry completed. Nothing
  is rolled back when a write fails.
- There is no timeout on the await.

## Model

| member | source | states |
|---|---|---|
| Ids.DecimalString | BridgeClient.cs:82 | an id is a non-empty string of decimal digits; it is one digit long exactly for values below ten, and it starts with '0' only for the value 0 |
| Ids.DecimalRoundTrip | BridgeClient.cs:81-82 | reading an id's digits back gives the counter value it was rendered from |
| Ids.DecimalStringInjective | BridgeClient.cs:81-82 | distinct counter values render as distinct ids, so an id is never reused within a session |
| Ids.IdNeverSentinel | BridgeClient.cs:81-82 | no counter value from 1 up renders as the notification id "0" |
| Ids.IdsIncrease | BridgeClient.cs:81-82 | a later command's id names a strictly larger number than an earlier one's, and the two ids differ |
| Routing.Halts | BridgeClient.cs:150-154 | a line that ends the loop (a malformed line, or a decoded response with no id) raises no event, and the JSON literal `null` never ends it |
| Routing.EventsOf | BridgeClient.cs:152-160 | one line raises at most one event, and one exactly when it is a decoded response with an id; that event is a notification exactly when the id is "0", and a response event otherwise |
| Routing.DeliveredBy | BridgeClient.cs:166-170 | one line hands at most one response to an id: its own response, when it is decoded and carries that id, and never anything to "0" |
| Routing.Events | BridgeClient.cs:144-185 | the loop raises at most one event per line it reads |
| Routing.Delivered | BridgeClient.cs:154-170 | every response handed to an id carries that id, there is at most one per line, and nothing is ever handed to "0" |
| Routing.FirstFinal | BridgeClient.cs:172-175 | a completing response is one of the responses and is not a promise |
| Routing.FirstFinalIsFirst | BridgeClient.cs:172-175 | the completing response is the first non-promise one, with only promises before it; there is none exactly when every response is a promise |
| Routing.HaltIndex | BridgeClient.cs:146-154 | the loop reads every line before the first one that throws (a malformed line, or a response with no id), and stops at that line |
| Routing.DeliveredConcat | BridgeClient.cs:166-170 | the responses for an id from two consecutive stretches of the stream are those of the first stretch followed by those of the second |
| Routing.EventsConcat | BridgeClient.cs:154-160 | the events raised by two consecutive stretches are those of the first followed by those of the second |
| Routing.FirstFinalConcat | BridgeClient.cs:172-175 | once a final response has been seen, later responses never change which response completed the transaction |
| Routing.HaltIndexConcat | BridgeClient.cs:146-154 | the loop stops in the first stretch if a line there throws; otherwise it reads all of it and stops where it would stop in the second stretch |
| Routing.HaltIndexUnique | BridgeClient.cs:146-154 | any position with no throwing line before it and a throwing line or the end of the stream at it is where the loop stops |
| Routing.RouterReadsPrefix | BridgeClient.cs:146-154 | reading the stream in two pieces around a registration reads the same lines as reading it in one go |
| Routing.MissedBeforeRegistration | BridgeClient.cs:90-110 | of the responses for an id read from the joined stream, those read before the registration come first; a caller that registers late loses exactly these |
| Bridge.IssuedNeverSentinel | BridgeClient.cs:81-82 | no pending id is "0", so a notification never reaches a pending transaction |
| Bridge.NextIdFresh | BridgeClient.cs:99-108 | the next id differs from every id issued before it, so `Dictionary.Add` never meets a duplicate key |
| Bridge.ParamsOrEmpty | BridgeClient.cs:87 | missing parameters are sent as an empty map, and given parameters are sent unchanged |
| Bridge.Extend | BridgeClient.cs:170-175 | appending keeps the command and puts the new responses after the old ones in arrival order; a result once set is kept |
| Bridge.ExtendAll | BridgeClient.cs:166-170 | the read loop never adds a key to the registry or removes one |
| Bridge.ExtendByNothing | BridgeClient.cs:168 | a line that carries nothing for an entry leaves that entry as it was |
| Bridge.ExtendConcat | BridgeClient.cs:170-175 | appending two batches is appending both at once, and a result once set stays set |
| Bridge.ExtendValid | BridgeClient.cs:168-175 | appending responses for an entry's own id keeps the entry keyed by its id and completed by its first final response |
| Bridge.ExtendAllByNothing | BridgeClient.cs:146 | reading no lines leaves the registry as it was |
| Bridge.ExtendAllConcat | BridgeClient.cs:166-170 | reading a stream in two pieces changes the registry as reading it in one go does, so each list is in arrival order |
| Bridge.ExtendAllRegistered | BridgeClient.cs:102-108 | after a registration, lines extend the new entry by their responses for its id, and the other entries as if it were absent |
| Bridge.ExtendAllOrphans | BridgeClient.cs:168 | lines that carry nothing for any pending id leave the registry unchanged |
| Bridge.ExtendAllValid | BridgeClient.cs:166-175 | reading lines keeps every entry well formed |
| Bridge.RemoveRegistered | BridgeClient.cs:116-123 | removing a key registered by the same call gives back the registry as it was before the registration |
| Bridge.ReadAroundRegistration | BridgeClient.cs:102-123 | when lines are read, then a command is registered, then more lines are read, the new entry holds only the responses read after its registration, each other entry holds the responses from both stretches, and removing the new key leaves the registry as reading alone would |
| Bridge.SplitReads | BridgeClient.cs:146-154 | the lines the loop reads before and after the registration, joined, are the lines it reads in all, and they raise the same events |
| Bridge.AppendKeepsValid | BridgeClient.cs:168-175 | appending a response to its own entry keeps the registry well formed |
| Bridge.AppendIsExtendAll | BridgeClient.cs:166-175 | appending a response to its entry changes that entry and no other, as the reference registry function says |
| Bridge.AppendStep | BridgeClient.cs:168-175 | the entry written back for a pending response, with its result set only by a first final response, is that entry extended by the response; the registry stays well formed |
| Bridge.OrphanIsExtendAll | BridgeClient.cs:168 | a response whose id is not pending leaves the registry unchanged |
| Bridge.BridgeClient.constructor | BridgeClient.cs:29-69 | a new client whose `StartAsync` has succeeded has counter 0, an empty registry, a running read loop, and has written and raised nothing |
| Bridge.BridgeClient.Allocate | BridgeClient.cs:81-88 | the counter goes up by one before use; the command carries the counter in decimal, the command name, and the parameters or an empty map; the id is not "0" and is not pending |
| Bridge.BridgeClient.Write | BridgeClient.cs:90-92 | the command becomes the last line written; nothing else changes |
| Bridge.BridgeClient.Register | BridgeClient.cs:99-108 | a pending id makes the add fail with a duplicate key and change nothing; otherwise the entry is added with an empty list and no result |
| Bridge.BridgeClient.WaitFor | BridgeClient.cs:126-142 | a missing id fails; a pending id resumes exactly when its entry has a result, and that result is its first non-promise response |
| Bridge.BridgeClient.Take | BridgeClient.cs:116-123 | a pending id yields its list and is removed; a missing one fails with key-not-found and changes nothing |
| Bridge.BridgeClient.Correlate | BridgeClient.cs:166-177 | a response whose id is pending is appended at the end of that entry's list and completes the entry if it is final and the entry is not yet complete; no other entry changes; a response whose id is not pending changes nothing |
| Bridge.BridgeClient.Route | BridgeClient.cs:148-183 | a null line changes nothing; an id of "0" raises one notification and leaves the registry alone; any other id raises one response event, whether or not it is pending; a malformed line or a missing id stops the loop |
| Bridge.BridgeClient.RunLoop | BridgeClient.cs:144-185 | a loop that has ended reads nothing; otherwise it reads exactly the lines before the first throwing one, raises their events in order, extends each pending entry by its responses in arrival order, and has ended afterwards exactly when a line threw |
| Bridge.BridgeClient.EndOfStream | BridgeClient.cs:146 | when the worker's output ends, the loop's task ends and nothing else changes |
| Bridge.BridgeClient.Await | BridgeClient.cs:110-123 | a completed entry is returned whole and its key removed; an incomplete one keeps the caller suspended and the registry unchanged |
| Bridge.BridgeClient.SendCommand | BridgeClient.cs:76-124 | the counter goes up by one, and the id is fresh and written once; the caller gets back exactly the responses for its id read after the registration and up to the take, if one of them is final, and otherwise waits for ever with its entry left pending; every other entry and the event log reflect all lines read; a loop that has already ended reads nothing, so the caller waits for ever; the loop has ended afterwards exactly when it had before or a line read threw |
| Bridge.BridgeClient.SendCommandRegisteredFirst | BridgeClient.cs:76-124 | with the registration moved before the write, the caller gets every response for its id that the loop reads, provided one is final; a loop that has already ended reads nothing, so the caller waits for ever |
| Overflow.Increment32 | BridgeClient.cs:81 | `++` on an `int` stays in the 32-bit range and agrees with adding one modulo 2^32 |
| Overflow.Int32ToString | BridgeClient.cs:82 | an `int` renders as "0" exactly when it is 0, and with a leading '-' exactly when it is negative |
| Overflow.CounterAfter | BridgeClient.cs:81 | the counter stays within the 32-bit range after any number of commands |
| Overflow.Wrap32 | BridgeClient.cs:81 | the reference value of a wrapped counter lies in the 32-bit range and is congruent to the count modulo 2^32 |
| Overflow.CongruentInRangeEqual | BridgeClient.cs:29 | two values of the `int` range that are congruent modulo 2^32 are equal: the range fact on which `IncrementWraps` and `CounterAfterWraps` rest |
| Overflow.IncrementWraps | BridgeClient.cs:81 | incrementing a wrapped value gives the wrapped successor |
| Overflow.CounterAfterWraps | BridgeClient.cs:81 | after k commands the counter is k wrapped into the 32-bit range |
| Overflow.WrapIsZero | BridgeClient.cs:81 | the wrapped value is 0 exactly for multiples of 2^32 |
| Overflow.IssuedId32 | BridgeClient.cs:81-82 | the k-th command's id is "0" exactly when k is a multiple of 2^32 |
| Overflow.CounterBeforeWrap | BridgeClient.cs:81-82 | up to 2^31 - 1 commands, the k-th id is the decimal form of k, as with an unbounded counter |
| Overflow.WrapGoesNegative | BridgeClient.cs:81-82 | command number 2^31 gets the counter value -2^31 and an id starting with '-' |
| Overflow.WrapAllocatesSentinel | BridgeClient.cs:81-82 | command number 2^32 gets the id "0", and no stream of lines ever delivers a response to it |
| Scenarios.SingleReply | BridgeClient.cs:76-124 | the first command is written with id "1" and empty parameters; its single final reply is returned and raised once, and the registry ends empty |
| Scenarios.PromiseThenFinal | BridgeClient.cs:166-175 | a promise and then a final reply are returned together, in arrival order |
| Scenarios.NotificationInBetween | BridgeClient.cs:154-160 | a notification read mid-transaction is raised as a notification and is not in the returned list |
| Scenarios.EndOfStreamBeforeFinal | BridgeClient.cs:146 | a stream that ends after a promise leaves the caller suspended and the promise in the pending entry |
| Scenarios.MalformedLineStopsReading | BridgeClient.cs:150 | a malformed line stops the loop; the final reply behind it is never read, and the caller never resumes |
| Scenarios.CommandAfterLoopEnded | BridgeClient.cs:144-150 | after a malformed line has ended the loop, the next command is written but its final reply is never read: its caller never resumes and its entry stays empty |
| Scenarios.LostFastReply | BridgeClient.cs:90-108 | a reply read between the write and the registration is dropped; the caller never resumes, and its entry stays pending with an empty list |
| Scenarios.FastReplyKept | BridgeClient.cs:90-108 | with the registration first, the same fast reply is returned |
| Scenarios.StrayReplyDropped | BridgeClient.cs:158-170 | a reply for an id nobody waits for is raised and dropped; the pending transaction gets only its own reply |
| Scenarios.SuccessiveIds | BridgeClient.cs:81-82 | the first two commands of a session are numbered "1" and "2" |

## Left out

- Process creation, start and disposal (`BridgeClient.cs:49-74`,
  `BridgeClient.cs:187-191`): operating-system I/O. `Dispose` sends `"exit"`
  without awaiting it. This best-effort teardown is not modelled.
- Reading and writing the pipes (`BridgeClient.cs:90-92`,
  `BridgeClient.cs:146-148`): the lines read are a parameter, and a write is
  an append to `stdin`. A failing write is not modelled.
- `JsonSerializer.Serialize` and `Deserialize`, and `JsonElement`
  (`BridgeClient.cs:23`, `BridgeClient.cs:90`, `BridgeClient.cs:150`): foreign
  library calls. Decoding is the `Line` datatype. `data` is an uninterpreted
  JSON value, and `status` and `type` are carried along but never inspected.
- Real concurrency: `Task.Run`, `async`/`await`, scheduling of
  `TaskCompletionSource` continuations, and `lock`. Each locked block is one
  atomic step. The interleaving that matters to a call is given by its
  `early`/`late` parameters.
- Bridge.BridgeClient.constructor: stands for `new BridgeClient()` followed
  by a successful `StartAsync()` (`BridgeClient.cs:49-69`). A process that
  fails to start, and a client used before `StartAsync`, are not modelled.
- Bridge.BridgeClient.Route: event subscribers are assumed not to throw. A
  handler that throws inside `OnNotificationReceived?.Invoke` or
  `OnResponseReceived?.Invoke` (`BridgeClient.cs:156`, `BridgeClient.cs:160`)
  would end the read loop as a malformed line does, and a response whose
  handler throws would never be correlated.
- Bridge.BridgeClient.Allocate: the unlocked `transactionId++`
  (`BridgeClient.cs:81`) can race when several sends run at once. That race
  is not modelled; increments are sequential.
- Bridge.BridgeClient.WaitFor: `entry.tcs = tcs` (`BridgeClient.cs:136-137`)
  assigns to a copy of the tuple. It is modelled as doing nothing. The
  stored source is never null, so the `??` fallback never applies.
- Bridge.BridgeClient.SendCommand: a `Hung` outcome stops the model there. The
  command never returns, so nothing after it is described.
- Overflow.Int32ToString: assumes a culture whose `NegativeSign` is "-".
  `int.ToString()` uses the current culture, and some cultures use another
  sign (U+2212 under ICU for `sv-SE`, for example). The "0" result for 0
  does not depend on the culture.
- Overflow.WrapGoesNegative: the leading '-' holds under the same
  assumption as `Overflow.Int32ToString`. Under other cultures the id
  starts with that culture's negative sign instead.
- Bridge.BridgeClient: the class models the counter as an unbounded `nat`,
  which is the corrected counter of the second finding below. The 32-bit
  counter as written is modelled on its own in `Overflow`.
- `ExampleI2cEeprom.cs`, `ExampleI3cBasics.cs`, `ExampleI3cCcc.cs`,
  `ExampleI3cIbis.cs` and `Program.cs`: they build command dictionaries and
  print, so they are not part of this model.

## Findings

| source | as written | input that shows it | evidently intended | confidence | as-written member | corrected member |
|---|---|---|---|---|---|---|
| BridgeClient.cs:90-108 | the command line is written and flushed before the entry is added to `waitingList` | the worker answers command "1" with one final reply, and the read loop handles it before `SendCommand` takes the lock: the reply is dropped as unknown and `await WaitFor("1")` never returns | register the entry before writing the line, so that every reply to it is collected | not executed | Scenarios.LostFastReply | Bridge.BridgeClient.SendCommandRegisteredFirst |
| BridgeClient.cs:81-82 | the transaction counter is a 32-bit `int` incremented without an overflow check | command number 2^31 of a session is sent with id "-2147483648"; command number 2^32 is sent with id "0", so its replies are raised as notifications and its caller never resumes | ids that keep increasing and are never "0" | not executed | Overflow.WrapAllocatesSentinel | Ids.IdNeverSentinel |
