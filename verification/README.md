# Models of the RIC platform and kpimon cores

A Dafny model of the stateful parts of the near-RT RIC code, with proofs of what they keep:

- **A1 mediator** (`ric-plt-a1/a1`): policy types, instances, instance metadata and handler statuses share one flat
  string-keyed store, told apart by key prefixes and read back by prefix scans. Requests, status responses and
  delayed deletion threads step that store.
- **E2 termination** (`ric-plt-e2/RIC-E2-TERMINATION`): the Base64 codec, the RAN name printer, and the connection
  table that names peers, routes to them and releases them.
- **kpimon xApp** (`ric-scp-kpimon/control`): the subscription retry loop, the create-timers racing with response
  handlers, and the wrapping big-endian readers.
- **`new_script.py`**: the partition of CVEs by severity and the totals taken from it.

## Layout

| file | content |
|---|---|
| `Basics.dfy`, `Decimal.dfy` | shared types; decimal text of integers and reading it back |
| `PolicyKeys.dfy` | key texts, prefix scans, `str.split` listing |
| `PolicyModel.dfy` | the lifecycle as a transition system over a structured store |
| `PolicyData.dfy` | `Mediator`, the same operations over the flat string store, each proved to refine one step |
| `PolicyLaws.dfy` | each step on the stored data; bodies, queue, types and status replies as history |
| `PolicyLifecycle.dfy`, `PolicyStatus.dfy`, `PolicyReplay.dfy`, `PolicyRecreation.dfy` | theorems over all runs |
| `Base64.dfy`, `Base64Laws.dfy`, `Base64Text.dfy` | the two buffer loops; round trip, inverse and filtering; the text in the literal alphabet |
| `RanNames.dfy`, `RanNameText.dfy` | the name printer; its characters |
| `Connections.dfy`, `ConnectionLaws.dfy` | the connection table; the fields of a record as history |
| `SubscriptionTimers.dfy`, `Subscription.dfy`, `SubscriptionDriver.dfy` | the create-timers as steps; the retry loop; both in full interleaving |
| `SubscriptionVerdicts.dfy` | each timer's verdict as history |
| `E2smIntegers.dfy` | `ParseInteger`, `ParseTimestamp`, `ParseSliceID` |
| `Severity.dfy`, `SeverityLaws.dfy` | `cvss_distribution` and the sums; what they say of scores and positions |

## How the models read the code

- **Atomic steps.** In the mediator each API call, each status response, each thread's check before its sleep and each
  body after its sleep is one step. At the grain of single store calls the invariants do not hold: a status could be
  set between clearing the handlers and deleting the instance. In kpimon each section under the mutex is one step.
  In the E2 termination each event of the poll loop and each xApp message is one step. There three listener threads
  share one poll descriptor and one table (`sctpThread.cpp:614-620`) and the table locks single calls only
  (`mapWrapper.h:40-69`), so this is an assumption about the interleaving of the threads. Below that grain
  `Connections.RoutedAlwaysIff` does not hold: for a close inside another thread's CLEAR_ALL,
  `Connections.CloseDuringClearAllIff` says when the peer is released twice.
- **Stale events.** One poll reports up to 128 events and handles each through its stored record, without asking whether
  an earlier event released it (`sctpThread.cpp:821-954`); two listeners may also report one connection. The model
  handles such an event as the source does, on what the record last held.
- **The flat store** is a map from strings to values, and a prefix search returns exactly the keys with that prefix.
  Handlers are keyed in the structured store by type and *slot*, the text `<instance>.<handler>`, because the flat
  key cannot tell where the instance id ends. The refinement then holds for all ids; where it amounts to keys made of
  (type, instance, handler) triples is settled by `PolicyKeys.HandlerKeysSeparateIff`.
- **Time** is a real clock that never runs backwards; a deletion thread may run any time after its sleep is over.
- **Parameters.** Whether a body meets its type's schema, whether a send succeeds, whether an event trigger encodes and
  which event comes next are parameters.
- **Machine arithmetic.** The Base64 loops are written with division and remainder on bytes and tied to the shifts and
  masks by `Base64.EncoderBits` and `Base64.DecoderBits`; Go's `int64` and `int32` wrap explicitly.
- **Strings** in the E2 termination are the text of a character buffer up to its first zero.

## What turned out to depend on a condition

- An instance id that continues another id after a dot (`a` and `a.b`) shares that id's handler scan: a response for
  `a.b` puts `a` "IN EFFECT". Status is exact over all runs on a set of ids exactly when no id of the set does that
  (`PolicyStatus.StatusExactIffSeparable`).
- A PUT during a pending deletion can leave the handlers with a policy the mediator no longer stores. A PUT is safe
  exactly when its id has no outstanding deletion thread (`PolicyReplay.PutIsSafeIff`).
- kpimon's verdicts are right in every interleaving exactly when the RAN list has no name twice
  (`SubscriptionTimers.VerdictsRightIffDistinct`).
- The connection table is keyed by the message's copy of the name, over which a new name is copied without its
  terminating zero (`sctpThread.cpp:1385`, `sctpThread.cpp:1912`). A setup that shortens a name therefore registers
  the new name followed by the end of the old one. The table invariant is kept by a setup exactly if it does not do
  this and does not change the name a connection is routed by (`Connections.StepKeepsRoutedIff`).
- A peer is released at most once exactly as long as no stale event closes a connection or registers its name: an end of
  file polled together with a CLEAR_ALL message releases the connection a second time
  (`Connections.StaleRunReleasesTwice`, `Connections.StepKeepsRoutedIff`).
- A PLMN nibble above nine prints as two digits, and the name of an en-gNB in which all six nibbles do loses its last
  PLMN digit. `RanNames.Clashes` says on the nibbles when a node of another MCC or MNC has the same name
  (`RanNames.NameSharedIff`); decimal digits never clash, and neither do most others, such as six nibbles of eleven in
  a gNB name.
- The encoder's capacity check (`base64.cpp:38`) accepts destinations that are too short: a byte is then written at or
  past `dstLen` exactly when `dstLen < 4*ceil(n/3)+1` (`Base64.Encode`), and for every source length some accepted
  `dstLen` is that short (`Base64.CapacityCheckFallsShort`).
- Two CREATEs of an instance can be queued with no DELETE between them, when the timers of two overlapping DELETEs
  outlive a re-creation (`PolicyRecreation.OverlappingDeletesRecreate`). A PUT can be followed by that exactly when its
  id has an outstanding deletion thread (`PolicyRecreation.NoRecreationIff`).
- The thread of a DELETE waits as its instance's own history calls for, over all runs on a set of ids, exactly when no
  id of the set continues another after a dot or T2 is at most T1 (`PolicyStatus.DelayExactIff`).
- `ParseInteger` is injective at a fixed size exactly up to eight bytes (`E2smIntegers.ParsedDistinctIff`).

The docstring at `ric-plt-a1/a1/controller.py:156` says that an instance whose statuses are all "DELETED" is removed
on a status query. The code does not do that; the model follows the code.

## Model

| member | source | states |
|---|---|---|
| PolicyKeys.BuildersRender | ric-plt-a1/a1/data.py:48-80 | the four key builders give the texts of the four kinds of key |
| PolicyKeys.KeyTexts | ric-plt-a1/a1/data.py:29-80 | the text of every key and scan, character by character but for the ids |
| PolicyKeys.RenderInjective | ric-plt-a1/a1/data.py:29-80 | for any ids the four key families never meet and different keys have different texts |
| PolicyKeys.InstanceScanExact | ric-plt-a1/a1/data.py:109-116 | an instance scan matches a key exactly when it is an instance key of that type |
| PolicyKeys.HandlerScanExact | ric-plt-a1/a1/data.py:119-126 | a handler scan matches a key exactly when it is a handler key of that type whose slot begins with the instance id and a dot |
| PolicyKeys.HandlerScanMeetsIff | ric-plt-a1/a1/data.py:69-80 | one instance's scan can find another's handler exactly when the ids are equal or one continues the other after a dot |
| PolicyKeys.HandlerKeysSeparateIff | ric-plt-a1/a1/data.py:69-126 | handler keys act as (type, instance, handler) triples, and scans as scans of one instance, exactly on id sets without such pairs |
| PolicyKeys.DotFreeIdsAreSeparable | ric-plt-a1/a1/data.py:69-80 | dot-free ids are such a set |
| PolicyKeys.ListedInstanceExactIff | ric-plt-a1/a1/data.py:109-116 | the text listed for an instance is its id exactly when the id does not contain the scan prefix |
| PolicyKeys.DotFreeIdIsListed | ric-plt-a1/a1/data.py:109-116 | so the text listed for a dot-free id is the id |
| PolicyKeys.ListedTypeExact | ric-plt-a1/a1/data.py:157-163 | a listed type key reads back as the type id |
| Decimal.DecimalText | ric-plt-a1/a1/data.py:48-80 | a number's text is its digits from the most significant on, after a minus sign if negative |
| Decimal.ParseToString | ric-plt-a1/a1/data.py:157-163 | reading the decimal text of an integer gives the integer back |
| PolicyData.RepresentsClear | ric-plt-a1/a1/data.py:119-126 | deleting what a handler scan finds removes exactly the structured handlers of that scan |
| PolicyData.HandlerScanStatusIff | ric-plt-a1/a1/data.py:100-106 | the scanned statuses are exactly the statuses of the structured scan |
| PolicyData.HandlerScanEmptyIff | ric-plt-a1/a1/data.py:254-263 | the scan is empty exactly when the instance has no status in the structured store |
| PolicyData.InstanceScanKeys | ric-plt-a1/a1/data.py:109-116 | the scanned keys are exactly the stored instances of the type, and there are none exactly when the type is empty |
| PolicyData.InstanceScanCount | ric-plt-a1/a1/data.py:109-116 | the scan finds as many keys as the type has stored instances |
| PolicyData.Mediator.TypeIsValid | ric-plt-a1/a1/data.py:83-88 | answers whether the type is stored |
| PolicyData.Mediator.InstanceIsValid | ric-plt-a1/a1/data.py:91-97 | tells a missing type from a missing instance |
| PolicyData.Mediator.ClearHandlers | ric-plt-a1/a1/data.py:119-126 | the loop deletes exactly the keys of the handler scan |
| PolicyData.Mediator.GetInstanceList | ric-plt-a1/a1/data.py:109-116 | lists as many ids as instances of the type are stored, and exactly the stored ids, each once, when none contains the scan prefix |
| PolicyData.Mediator.GetTypeList | ric-plt-a1/a1/data.py:157-163 | lists exactly the stored type ids, each once |
| PolicyData.Mediator.PutType | ric-plt-a1/a1/data.py:166-175 | refines the structured step, with its two rejections |
| PolicyData.Mediator.DeleteType | ric-plt-a1/a1/data.py:178-186 | refines the structured step; refused while an instance is stored |
| PolicyData.Mediator.StorePolicyInstance | ric-plt-a1/a1/data.py:200-219 | clears the handlers of a stored instance only, stores body and fresh metadata, and answers CREATE or UPDATE |
| PolicyData.Mediator.MarkDeleted | ric-plt-a1/a1/data.py:244-263 | marks the metadata, keeping created_at, and picks the delay by whether the handler scan is empty |
| PolicyData.Mediator.PutInstance | ric-plt-a1/a1/controller.py:170-186 | store step and enqueue refine one structured step; a rejected PUT changes nothing |
| PolicyData.Mediator.DeleteInstance | ric-plt-a1/a1/data.py:237-264 | marks the metadata, starts a thread whose delay depends on the statuses, and queues a DELETE |
| PolicyData.Mediator.SetInstanceStatus | ric-plt-a1/a1/data.py:270-277 | refines the structured response step |
| PolicyData.Mediator.GetInstanceStatus | ric-plt-a1/a1/data.py:280-291 | the status loop answers "IN EFFECT" exactly when a status of the structured scan is "OK" |
| PolicyData.Mediator.ThreadStart | ric-plt-a1/a1/data.py:138-145 | a deletion thread ends if its instance is gone and otherwise sleeps |
| PolicyData.Mediator.RemoveInstance | ric-plt-a1/a1/data.py:147-149 | clears the handlers and deletes instance and metadata, whether or not they are stored |
| PolicyData.Mediator.ThreadFire | ric-plt-a1/a1/data.py:147-150 | after its sleep it removes handlers, instance and metadata, whatever is stored by then |
| PolicyData.Mediator.HandleSends | ric-plt-a1/a1/a1rmr.py:163-168 | draining sends every waiting item once, in queue order, and changes nothing else |
| PolicyData.Mediator.Dispatch | ric-plt-a1/a1/a1rmr.py:209-215 | every event keeps the string store in step with the structured machine |
| PolicyData.Serve | ric-plt-a1/a1/data.py:48-291 | after any sequence of events the string store represents the structured state of that run |
| PolicyLaws.PutTypeLaw | ric-plt-a1/a1/data.py:166-175 | a type is stored only under the id its body names and only while absent; otherwise the error and no change |
| PolicyLaws.DeleteTypeLaw | ric-plt-a1/a1/data.py:178-186 | an absent type and one with instances are refused, with their errors; any other is deleted |
| PolicyLaws.PutInstanceLaw | ric-plt-a1/a1/controller.py:170-186 | a PUT of an unknown type or of a body that violates the schema changes nothing; any other stores the body with fresh metadata, clears a stored instance's handlers and queues exactly one CREATE or UPDATE |
| PolicyLaws.DeleteInstanceLaw | ric-plt-a1/a1/data.py:237-264 | a DELETE of an unknown type or instance changes nothing; any other sets deleted_at, starts one thread with T1, or the larger delay if a handler answered, and queues one DELETE |
| PolicyLaws.ResponseLaw | ric-plt-a1/a1/data.py:270-277 | a response sets one handler's status, or nothing if type or instance is unknown |
| PolicyLaws.ThreadStartLaw | ric-plt-a1/a1/data.py:138-145 | a deletion thread ends if its instance is gone and otherwise sleeps for its delay |
| PolicyLaws.ThreadFireLaw | ric-plt-a1/a1/data.py:147-150 | it then removes instance, metadata and exactly the handlers of its scan |
| PolicyLaws.WaitingLaw | ric-plt-a1/a1/data.py:138-150 | before its time a thread changes nothing |
| PolicyLaws.LatestPutIsLatest | ric-plt-a1/a1/data.py:200-219 | the position of the latest PUT of a valid body under a stored type |
| PolicyLaws.DeleteSincePutIsLatest | ric-plt-a1/a1/data.py:237-264 | the position of the latest DELETE of the stored instance since that PUT |
| PolicyLaws.RecordsAreHistory | ric-plt-a1/a1/data.py:200-264 | in every run a stored instance has the body of its latest PUT and created_at of that PUT, and is marked exactly if a DELETE came since, with the time of the latest one |
| PolicyLaws.StatusReplyIsHistory | ric-plt-a1/a1/data.py:280-291 | a status query tells an unknown type from an unknown instance, and otherwise replies with the metadata of that history |
| PolicyLaws.QueueIsHistory | ric-plt-a1/a1/controller.py:170-203 | the queued items are, one for one and in order, the PUTs of valid bodies under stored types and the DELETEs of stored instances, with that body as payload and UPDATE exactly if the instance was stored |
| PolicyLaws.TypeIsHistory | ric-plt-a1/a1/data.py:166-186 | a type is stored, with a body, exactly if a PUT of that body under its own id found it absent and no DELETE without instances came since |
| PolicyLifecycle.ConsistentAlways | ric-plt-a1/a1/data.py:138-264 | in every reachable state: instance iff metadata, each handler has its instance, each instance its type, each marked instance an outstanding thread |
| PolicyLifecycle.NeverCrashes | ric-plt-a1/a1/data.py:129-135 | no request of any run meets an instance without metadata |
| PolicyLifecycle.Conservation | ric-plt-a1/a1/data.py:143-150 | CREATEs less removals is one if stored and zero if not; DELETEs are removals plus idle thread ends plus outstanding threads |
| PolicyLifecycle.CreatesBoundedByDeletes | ric-plt-a1/a1/data.py:208-219 | an id never has more CREATEs than DELETEs plus one |
| PolicyLifecycle.RemovedOnlyAfterT1 | ric-plt-a1/a1/data.py:254-264 | an instance leaves the store only at least T1 after an accepted DELETE of the same id |
| PolicyLifecycle.GoneByMaxTtl | ric-plt-a1/a1/data.py:245-264 | while threads end within a lag of their delay, no marked instance is stored past deleted_at plus max(T1, T2) plus the lag |
| PolicyLifecycle.CreatedAtIsLatestPut | ric-plt-a1/a1/data.py:205-217 | created_at is the time of the latest PUT, across any DELETEs |
| PolicyStatus.HandlersAreHistory | ric-plt-a1/a1/data.py:200-277 | for ids none of which continues another after a dot, the handler entries of a stored instance are its latest accepted responses since its latest PUT |
| PolicyStatus.InEffectIsScan | ric-plt-a1/a1/data.py:280-291 | for such ids it reports "IN EFFECT" exactly when some handler's latest response is "OK" |
| PolicyStatus.DelayIsByHistory | ric-plt-a1/a1/data.py:254-264 | for such ids the thread of a DELETE waits T1 if no handler answered since the latest PUT and max(T1, T2) otherwise |
| PolicyStatus.DelayExactIff | ric-plt-a1/a1/data.py:138-264 | that delay holds over all runs on a set of ids exactly when no id of the set continues another after a dot or T2 <= T1 |
| PolicyStatus.StatusExactIffSeparable | ric-plt-a1/a1/data.py:138-291 | that holds over all runs on a set of ids exactly when no id of the set continues another after a dot |
| PolicyReplay.ReplayAgreement | ric-plt-a1/a1/controller.py:170-203 | replaying the queued items gives each stored instance its body if unmarked and nothing if marked, in every run |
| PolicyReplay.ReplayIsLiveStore | ric-plt-a1/a1/controller.py:170-203 | if no PUT lands during a pending deletion, the replay is exactly the stored unmarked instances |
| PolicyReplay.PutIsSafeIff | ric-plt-a1/a1/data.py:200-219 | a PUT can never lead by waiting alone to a replayed but unstored id, exactly when the id has no outstanding thread |
| PolicyRecreation.CreatesAreSeparated | ric-plt-a1/a1/data.py:208-219 | if no CREATE of an id lands during a pending deletion of it, a DELETE separates every two of its CREATEs in the queue |
| PolicyRecreation.NoRecreationIff | ric-plt-a1/a1/data.py:138-219 | after a PUT, no continuation without a DELETE of the id leads to another CREATE, exactly when the id has no outstanding thread |
| PolicyRecreation.OverlappingDeletesRecreate | ric-plt-a1/a1/data.py:138-264 | a run with overlapping DELETEs that queues two CREATEs with no DELETE between them |
| Base64.EncoderBits | ric-plt-e2/RIC-E2-TERMINATION/base64.cpp:56-70 | the encoder's shifts and masks as division and remainder |
| Base64.DecoderBits | ric-plt-e2/RIC-E2-TERMINATION/base64.cpp:128-130 | the decoder's shifts as division and remainder |
| Base64.BuildInverse | ric-plt-e2/RIC-E2-TERMINATION/base64.cpp:80-85 | the filled table maps each alphabet byte to its value, padding to zero, every other byte to the foreign mark |
| Base64.EncodeInto | ric-plt-e2/RIC-E2-TERMINATION/base64.cpp:52-73 | the loop writes the encoding, 4*ceil(n/3) bytes, and nothing beyond; some byte lies at or past dstLen iff there are more than dstLen |
| Base64.Encode | ric-plt-e2/RIC-E2-TERMINATION/base64.cpp:29-77 | succeeds exactly on the checked arguments; every byte written lies below dstLen iff 4*ceil(n/3)+1 <= dstLen; a failure leaves the destination alone |
| Base64.CapacityCheckFallsShort | ric-plt-e2/RIC-E2-TERMINATION/base64.cpp:33-42 | which accepted dstLen are too short: below 4n/3 plus 1, 4 or 3 by the tail length, so some for every n |
| Base64.CountText | ric-plt-e2/RIC-E2-TERMINATION/base64.cpp:102-108 | the first pass counts the alphabet bytes |
| Base64.DecodeInto | ric-plt-e2/RIC-E2-TERMINATION/base64.cpp:113-147 | the loop computes the decoding and writes only below 3*(srcLen/4) |
| Base64.Decode | ric-plt-e2/RIC-E2-TERMINATION/base64.cpp:79-149 | succeeds exactly when the capacity check passes and the text decodes, also in place; every write lies below the checked capacity |
| Base64Laws.BlockIsGroup | ric-plt-e2/RIC-E2-TERMINATION/base64.cpp:56-59 | the four values of a block and its three bytes are one 24-bit number, as in section 4 of RFC 4648 |
| Base64Laws.RoundTrip | ric-plt-e2/RIC-E2-TERMINATION/base64.cpp:52-145 | decoding the encoding of a non-empty byte string gives it back |
| Base64Laws.ForeignBytesIgnored | ric-plt-e2/RIC-E2-TERMINATION/base64.cpp:104-119 | removing all foreign bytes first does not change the decoding |
| Base64Laws.ReencodesIff | ric-plt-e2/RIC-E2-TERMINATION/base64.cpp:55-145 | decoding and encoding gives a text back exactly when it is canonical |
| Base64Laws.CanonicalIff | ric-plt-e2/RIC-E2-TERMINATION/base64.cpp:55-73 | the canonical texts are exactly the encodings |
| Base64Text.EncodedLetter | ric-plt-e2/RIC-E2-TERMINATION/base64.cpp:52-73 | character k of the text of n bytes is '=' exactly from (4n+2)/3 on, and before that the letter of "ABC...xyz0123456789+/" at the k-th six bits of the bytes |
| Base64Text.LetterValue | ric-plt-e2/RIC-E2-TERMINATION/base64.cpp:80-85 | a letter reads as its place in that alphabet and '=' as zero |
| Base64Text.AlphabetIff | ric-plt-e2/RIC-E2-TERMINATION/base64.cpp:80-85 | the bytes that count are exactly those letters and '=' |
| Base64Text.FilterOfOne | ric-plt-e2/RIC-E2-TERMINATION/base64.cpp:104-119 | the decoder keeps a byte exactly if it is one of them |
| Base64Text.FilterOfSum | ric-plt-e2/RIC-E2-TERMINATION/base64.cpp:104-119 | and keeps what counts in order |
| Base64Text.DecodedReads | ric-plt-e2/RIC-E2-TERMINATION/base64.cpp:104-145 | what is decoded: refused without full blocks or with more than two '=' in the first block that has one; otherwise three bytes for each block up to that one, at the places of its letters in the alphabet, less its padding |
| Base64Text.SomeFirstPadded | ric-plt-e2/RIC-E2-TERMINATION/base64.cpp:104-145 | each text of full blocks has such a first block or none |
| RanNames.TranslatePlmnId | ric-plt-e2/RIC-E2-TERMINATION/BuildRunName.h:33-53 | prints kind, MCC and MNC, at most 19 characters |
| RanNames.TranslateBitStringToChar | ric-plt-e2/RIC-E2-TERMINATION/BuildRunName.h:55-87 | appends an underscore and the hex text of every id byte |
| RanNames.BuildRanName | ric-plt-e2/RIC-E2-TERMINATION/BuildRunName.h:90-170 | leaves exactly the node's name in the buffer, and fails exactly for the other node kinds |
| RanNameText.NameText | ric-plt-e2/RIC-E2-TERMINATION/BuildRunName.h:33-109 | a name is "gnb_" or "en_gnb_" with the decimal text of the octets' nibbles in the source's order, cut to 19 characters, then an underscore and two lower-case hexadecimal characters for each id byte |
| RanNames.SameNameIff | ric-plt-e2/RIC-E2-TERMINATION/BuildRunName.h:33-109 | any two names are equal exactly when kind, printed MCC digits, printed MNC digits (one fewer for an en-gNB with six two-digit nibbles) and id are |
| RanNames.NameSharedIff | ric-plt-e2/RIC-E2-TERMINATION/BuildRunName.h:33-109 | a node of another MCC or zero-padded MNC has the same name exactly when the node's nibbles clash |
| RanNames.RanNameTells | ric-plt-e2/RIC-E2-TERMINATION/BuildRunName.h:33-109 | unless its nibbles clash, a name equals another node's exactly when kind, MCC, zero-padded MNC and id bytes do |
| RanNames.DecimalNameTells | ric-plt-e2/RIC-E2-TERMINATION/BuildRunName.h:33-109 | decimal digits never clash, so a decimal node's name is told apart from every other node's, decimal or not |
| RanNames.ClashExamples | ric-plt-e2/RIC-E2-TERMINATION/BuildRunName.h:45-50 | two different MCCs that print alike, and a PLMN of nibbles above nine that clashes with none |
| RanNames.HexTextInjective | ric-plt-e2/RIC-E2-TERMINATION/BuildRunName.h:75-85 | the hex text tells the bytes |
| RanNames.RanNameIsNotOtherKey | ric-plt-e2/RIC-E2-TERMINATION/sctpThread.cpp:2819 | no name begins with "host:" or "msg:", so CLEAR_ALL skips no RAN |
| Connections.StepKeepsRoutedIff | ric-plt-e2/RIC-E2-TERMINATION/sctpThread.cpp:846-954 | a step keeps the table invariant exactly when it is steady: no stale close or registration, and no setup that renames a routed peer or shortens a name |
| Connections.RoutedAlwaysIff | ric-plt-e2/RIC-E2-TERMINATION/sctpThread.cpp:1204-1250 | with events as single steps, the runs in which every entry always points at an open peer of that name, each peer released at most once, are exactly the steady runs |
| Connections.RoutedAtEveryPoint | ric-plt-e2/RIC-E2-TERMINATION/sctpThread.cpp:1204-1250 | in those runs the invariant holds after every prefix |
| Connections.CloseDuringClearAllIff | ric-plt-e2/RIC-E2-TERMINATION/sctpThread.cpp:2818-2845 | a close by another thread between two releases of CLEAR_ALL is the peer's only release exactly when CLEAR_ALL did not already take it |
| Connections.RouteIsHistory | ric-plt-e2/RIC-E2-TERMINATION/sctpThread.cpp:1238-1250 | in every run a RAN key routes to a peer exactly when that peer claimed it last and since then no peer of that name closed, even by a stale event, and CLEAR_ALL did not come |
| ConnectionLaws.AddressIsHistory | ric-plt-e2/RIC-E2-TERMINATION/sctpThread.cpp:871-924 | in every run an accepted connection keeps the host and port it was accepted with |
| ConnectionLaws.EveryRecordAccepted | ric-plt-e2/RIC-E2-TERMINATION/sctpThread.cpp:871-924 | and every record comes from an accepted connection |
| ConnectionLaws.ConnectedIsHistory | ric-plt-e2/RIC-E2-TERMINATION/sctpThread.cpp:1115-1179 | in every run a connection counts as connected exactly if it became writable without a socket error |
| ConnectionLaws.OpenIsHistory | ric-plt-e2/RIC-E2-TERMINATION/sctpThread.cpp:1115-1319 | in every run a connection is open exactly if none of the events that close it came |
| ConnectionLaws.NameIsHistory | ric-plt-e2/RIC-E2-TERMINATION/sctpThread.cpp:1897-1932 | in every run a record's name is the one its latest setup left |
| ConnectionLaws.NamelessBeforeSetup | ric-plt-e2/RIC-E2-TERMINATION/sctpThread.cpp:871-924 | and empty before its first |
| Connections.EntriesExist | ric-plt-e2/RIC-E2-TERMINATION/sctpThread.cpp:1912-1913 | in every run each entry is the position of a record |
| Connections.NoRenameIsSteady | ric-plt-e2/RIC-E2-TERMINATION/sctpThread.cpp:1897-1913 | a run in which no connection changes its name and no event that closes or registers one is stale is steady |
| Connections.ClearAllReleasesRouted | ric-plt-e2/RIC-E2-TERMINATION/sctpThread.cpp:2813-2847 | CLEAR_ALL releases once exactly the routed peers and empties the table |
| Connections.LaterClaimWins | ric-plt-e2/RIC-E2-TERMINATION/sctpThread.cpp:1238-1250 | of two claims to a name the later is routed to, and closing the earlier peer unroutes the name |
| Connections.RenameDangles | ric-plt-e2/RIC-E2-TERMINATION/sctpThread.cpp:1897-1913 | after any unsteady setup, closing that connection leaves a key on a released peer, which CLEAR_ALL releases again |
| Connections.StaleCloseReleasesAgain | ric-plt-e2/RIC-E2-TERMINATION/sctpThread.cpp:1515-1516 | after CLEAR_ALL a stale end of file releases any peer that was routed a second time |
| Connections.StaleRunReleasesTwice | ric-plt-e2/RIC-E2-TERMINATION/sctpThread.cpp:846-954 | accept, setup, CLEAR_ALL, end of file: steady but for the last event, and two releases |
| Connections.DropMessageIsIdle | ric-plt-e2/RIC-E2-TERMINATION/sctpThread.cpp:1291-1300 | the pending-message key is never in the table, so the failed send frees nothing through it |
| Connections.ConnectionTable.CleanHashEntry | ric-plt-e2/RIC-E2-TERMINATION/sctpThread.cpp:1238-1250 | erases the host key and the name and releases the peer |
| Connections.ConnectionTable.AcceptPeer | ric-plt-e2/RIC-E2-TERMINATION/sctpThread.cpp:871-924 | a new peer is unnamed and unrouted, and its record is released at once if a call fails |
| Connections.ConnectionTable.CollectSetupRequestData | ric-plt-e2/RIC-E2-TERMINATION/sctpThread.cpp:1897-1932 | names the peer and enters it under the overlaid name, or fails |
| Connections.ConnectionTable.HandlePollError | ric-plt-e2/RIC-E2-TERMINATION/sctpThread.cpp:1182-1210 | closes the peer and clears its keys |
| Connections.ConnectionTable.CloseOnEndOfFile | ric-plt-e2/RIC-E2-TERMINATION/sctpThread.cpp:1494-1517 | closes the peer and clears its keys |
| Connections.ConnectionTable.SendToRan | ric-plt-e2/RIC-E2-TERMINATION/sctpThread.cpp:1262-1319 | looks the name up; a failed send closes a connected peer only |
| Connections.ConnectionTable.HandleInProgress | ric-plt-e2/RIC-E2-TERMINATION/sctpThread.cpp:1115-1179 | marks the peer connected, and closes it when the poll change or the send fails |
| Connections.ConnectionTable.ClearAllPeers | ric-plt-e2/RIC-E2-TERMINATION/sctpThread.cpp:2813-2847 | the loop over a copy of the keys releases a peer once for each RAN key pointing at it |
| Connections.ConnectionTable.Dispatch | ric-plt-e2/RIC-E2-TERMINATION/sctpThread.cpp:855-950 | every event is one step of the model |
| Connections.Serve | ric-plt-e2/RIC-E2-TERMINATION/sctpThread.cpp:855-950 | after any events the table and the records are those of the run |
| SubscriptionTimers.WatchersFit | ric-scp-kpimon/control/control.go:1234-1273 | for distinct names every watcher's phase fits its map entry and history in every interleaving, and no entry comes back |
| SubscriptionVerdicts.VerdictsAreHistory | ric-scp-kpimon/control/control.go:1234-1273 | in every interleaving, for a name armed once: "canceled" exactly if since the arming a response was polled with no timer before the poll, expired exactly if the timer came with no response before it, still polling exactly if the timer came after a response and before a poll of it |
| SubscriptionVerdicts.ArmIndexCounts | ric-scp-kpimon/control/control.go:1234-1240 | the arming of watcher k is the one with k armings before it |
| SubscriptionTimers.AtMostOneVerdict | ric-scp-kpimon/control/control.go:1244-1271 | in every run the verdicts for a name are its decided watchers, at most one for each time it was armed |
| SubscriptionTimers.VerdictsRightIffDistinct | ric-scp-kpimon/control/control.go:1129-1273 | verdicts are right in every interleaving exactly when the list has no name twice |
| SubscriptionTimers.LostResponseIsWrong | ric-scp-kpimon/control/control.go:1234-1273 | for a repeated name, the interleaving in which a responded name expires |
| Subscription.DeliveredMeaning | ric-scp-kpimon/control/control.go:1378-1383 | the number of sends up to the first failure |
| Subscription.Control.SetEventCreateExpiredTimer | ric-scp-kpimon/control/control.go:1234-1240 | arming is the timers' arm step |
| Subscription.Control.HandleSubscriptionResponse | ric-scp-kpimon/control/control.go:1129-1144 | a response marks an armed name and never creates an entry |
| Subscription.Control.TimerFires | ric-scp-kpimon/control/control.go:1246-1256 | the timer branch is the timers' timer step |
| Subscription.Control.Polls | ric-scp-kpimon/control/control.go:1257-1268 | the polling branch is the timers' poll step |
| Subscription.Serve | ric-scp-kpimon/control/control.go:1129-1273 | after any interleaving of armings, responses, timers and polls the map and the watchers are those of the run |
| Subscription.Control.SendRicSubRequest | ric-scp-kpimon/control/control.go:1356-1391 | takes exactly the successful head off the list, subscribes and arms it in order, and fails exactly when something is left or the trigger does not encode |
| Subscription.Control.StartTimerSubReq | ric-scp-kpimon/control/control.go:101-120 | subscribed followed by remaining is the original list; the run ends within 100 attempts with an empty list or a failed last attempt |
| SubscriptionDriver.DriverKeepsList | ric-scp-kpimon/control/control.go:101-120 | with responses, timers and polls between any two steps: armed names followed by the remaining list are the original list, and the loop ends within 100 attempts with an empty list or a failed last attempt |
| SubscriptionDriver.DriverVerdictsRightIff | ric-scp-kpimon/control/control.go:1234-1388 | the driver's verdicts are right in every interleaving exactly when its list has no name twice |
| SubscriptionDriver.UndisturbedAttempt | ric-scp-kpimon/control/control.go:1356-1391 | an attempt with nothing in between leaves what one call of the send loop leaves |
| SubscriptionDriver.FailedAttemptWaits | ric-scp-kpimon/control/control.go:101-120 | a failed send, or a trigger that does not encode, leaves list and timers to another attempt |
| E2smIntegers.ParseInteger | ric-scp-kpimon/control/e2sm.go:698-709 | no result exactly for a size past the capacity; otherwise the big-endian value of the first bytes modulo 2^64, read as signed; zero for a negative size |
| E2smIntegers.ParseTimestamp | ric-scp-kpimon/control/e2sm.go:711-732 | no result exactly for sizes below eight or past the capacity, where the source panics; otherwise seconds from all but the last eight bytes, nanoseconds from those |
| E2smIntegers.ParseSliceId | ric-scp-kpimon/control/e2sm.go:671-696 | an error exactly on wrong lengths, a panic exactly on a short SD buffer; otherwise the four bytes read as a signed 32-bit number |
| E2smIntegers.SliceIdNumber | ric-scp-kpimon/control/e2sm.go:671-696 | the four bytes as a number, SST above the three SD bytes, an empty SST buffer and an absent SD as zero |
| E2smIntegers.ParsedExactIff | ric-scp-kpimon/control/e2sm.go:698-709 | the value is exact iff the number is below 2^63, so up to seven bytes |
| E2smIntegers.ParsedDistinctIff | ric-scp-kpimon/control/e2sm.go:698-709 | byte strings of one length parse to distinct values iff the length is at most eight |
| E2smIntegers.TimestampExactIff | ric-scp-kpimon/control/e2sm.go:711-732 | sec*2^64+nsec is the whole number iff neither half wraps |
| E2smIntegers.SliceIdTells | ric-scp-kpimon/control/e2sm.go:671-696 | combined ids are equal iff SST and SD bytes are, an absent SD counting as zero |
| Severity.ClassifiedIff | new_script.py:382-413 | a CVE is listed iff some entry gives it an in-range score |
| Severity.FirstBandIsFirst | new_script.py:394-413 | its band is that of its first in-range entry |
| Severity.PlaceScore | new_script.py:392-413 | one scored CVE goes to the list of its band unless it is in some list already |
| Severity.ReportDistribution | new_script.py:390-413 | one report extends the partition by its entries in order |
| Severity.RepositoryDistribution | new_script.py:382-413 | the nested loops compute the partition, skipping absent reports and "Scantist.json" |
| Severity.RicDistribution | new_script.py:365-424 | the partition of each repository of a RIC, and the number of missing scores |
| Severity.CvssDistribution | new_script.py:351-424 | the same for every RIC, the missing scores counted over all |
| SeverityLaws.PartitionMeaning | new_script.py:382-419 | the lists hold exactly the CVEs whose first visited score in one of the ranges 0.1 to 3.9, 4.0 to 6.9, 7.0 to 8.9 and 9.0 to 10.0 lies in the first, second, third or fourth of them, each once and in the order of those scores; together they are the list of CVEs |
| SeverityLaws.MissingTotal | new_script.py:351-424 | the count of missing scores is the number of visited positions without a score |
| SeverityLaws.TotalsMeaning | new_script.py:456-626 | a RIC's totals count pairs of a repository and a CVE: all rated ones, and for each severity those whose first rated score is in its range; the severities add up to the total |
| Severity.TotalsAgree | new_script.py:612-626 | a RIC's total, the sum of its per-repository counts and the sum of its severity counts are equal |

## Left out

- Sockets, epoll, RMR, HTTP, the SDL client and its errors in mid-operation, InfluxDB, Prometheus, logging, inotify: I/O.
- JSON schema validation: an event says whether a body is valid. A stored body of JSON `null`, which the store cannot
  tell from a missing key, is excluded.
- Glob characters in an id, if the store's search treats its prefix as a pattern: the model's scan is an exact prefix.
- ASN.1 encoding and decoding: library behaviour that is not shown.
- RMR retry counts, health checks, EI jobs and data delivery: easy members.
- The order in which several send threads put items on the wire: only the queue order is stated.
- PolicyStatus.HandlersAreHistory: for ids none of which continues another after a dot, since it is false otherwise, as
  `PolicyStatus.StatusExactIffSeparable` shows.
- PolicyStatus.InEffectIsScan: for such ids, for the same reason.
- PolicyStatus.DelayIsByHistory: for such ids; `PolicyStatus.DelayExactIff` gives the exact condition.
- Base64.Encode: lengths for which `srcLen * 4` overflows an `int`, and a source that overlaps its destination, are
  excluded. What a write past the destination does to other memory is not modelled.
- Base64.Decode: returns the decoded length as a result, because the source passes `dstLen` by value and so drops it;
  source and destination may be the same array but not overlap otherwise.
- SubscriptionTimers.WatchersFit: for names armed once, since `SubscriptionTimers.VerdictsRightIffDistinct` shows that
  verdicts can be wrong otherwise. `SubscriptionVerdicts.VerdictsAreHistory` asks it of the one name only.
- Connections.RoutedAlwaysIff: takes events as single steps, as said under "How the models read the code".
- Connections.ConnectionTable.CollectSetupRequestData: a request with at most one global node id.
- Connections.ConnectionTable.ClearAllPeers: requires every entry to point at an existing record; records are values in
  a list by position and release is a counter, not a heap of objects.
- What a released record's memory holds: a stale event reads it as it was left.
- RanNames.BuildRanName: the ng-eNB and eNB cases are one failing case that leaves some text behind, as they all fall
  through to the error return; requires a zeroed buffer with room for the name and of at most 256 characters, the size
  of the printer's scratch buffer (the caller's has 64).
- Termination of a kpimon watcher: after a timer that finds a response the goroutine keeps polling; only safety is stated.
- The delete timers of kpimon: the same code as the create timers.
- Waiting times of kpimon's retry loop, and the encoding of the request payload beyond success or failure.
- `ParseNRCGI`, `ParsePLMNIdentity` and the `handleIndication` traversal: easy or mostly logging.
- Severity.CvssDistribution: scores are reals, so rounding and NaN are not modelled; a report with more scores than
  CVEs, on which the source raises an error, is excluded.
- Package counts, tabulation, plotting, older copies under `ric-scp-kpimon/arch`, the ML xApps and GNU Radio code.
