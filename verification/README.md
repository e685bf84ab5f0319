# A model of the session protocol, the runners, the buffers, the log encoder and the wire format

This project models six parts of the repository and proves what they promise.

- **Sessions over etcd** (`Etcd`, `Election`, `Discovery`, `Deployment`, `StaleRestart`). The store is a revisioned key
  map with a history of events and leases whose end deletes all their keys at one revision. Any number of sessions of
  one service take server ids, register, hold elections, stop and crash in atomic steps, beside sessions of other
  services that draw on the same counter; a request may be answered, carried out with its answer lost, or refused.
  Discovery takes a snapshot, watches from the snapshot's own revision and folds the events over it, through compaction
  restarts. `Deployment` runs sessions and a watcher against one store.
- **The growing ring buffer and its pool** (`RingGrowth`, `RingBuffer`, `RingQueue`, `RingPool`, with `Streams` for the
  readers and writers it talks to). A class over an array, proved to be a queue of bytes over every run of operations;
  streaming in and out; growth; the calibration of the pool.
- **The parallel runner** (`Parallel`): goroutines, unbuffered channels, a close broadcast and a wait group as a
  transition system, and the whole runner under any scheduler.
- **The versioned notifier** (`Notifier`) on its channel-based condition variable, one atomic step at a time.
- **The text log encoder** (`TextEncoding`, `TextEncoder`, `TextCore`) with readers for its output (`TextParser`,
  `TextLine`) and its form byte for byte (`TextShape`).
- **Frames, codec and packets** (`Bytes`, `Frames`, `Framer`, `Pipeline`, `Codec`, `AeadHmac`).

Concurrent parts are state machines: a state, a set of steps, a predicate that enables a step, and theorems over all
runs. Sequential parts that change objects are classes whose methods are proved against functions, and the theorems
are about those functions. `dafny verify dfyconfig.toml` checks everything.

## What the proofs found

Where the code does not do what its documentation or its callers would expect, the model follows the code, a lemma or
contract says exactly when, and everything else is proved outside that case.

- `WriteByte` on a full ring buffer of 4096 bytes or more requests a growth of one byte, gets none and writes out of
  bounds (`RingBuffer.Buffer.WriteByte`, `RingGrowth.OneByteRequestGrows`).
- `ReadFrom` needs the buffer to hold something or the first read to deliver something; otherwise stale bytes become
  contents. And its second read goes to the front of the array however short the first one fell, which misplaces bytes.
  What arrives is appended exactly if neither happens (`RingBuffer.Buffer.ReadFrom`). Every reader is served in order
  exactly if the free space is not split: when the buffer has to grow, when nothing lies in front of the contents, or
  when the free space is one piece (`RingBuffer.InPlaceIff`, `RingBuffer.Buffer.BreakOrder`). Readers that never deliver
  nothing are served in order in one geometry more: with a single cell behind the contents
  (`RingBuffer.BusyInPlaceIff`).
- `WriteTo` drops a full buffer that starts at position 0 if the writer takes nothing (`RingBuffer.Buffer.WriteTo`).
- The capacity does not stay a power of two, though the comment on the field says so. A request of at most the double
  keeps it one below 4096 and not from there on, and a larger request keeps it one exactly if it is one itself
  (`RingGrowth.StaysPowerOfTwoIff`, with witnesses in `RingGrowth.CapacityLeavesPowersOfTwo`).
- A compaction restart can leave a consumer with a session that is gone for good: for any service, a session that
  registers once and loses its lease is enough (`StaleRestart.RegistryGoesWrong`). The restart is harmless exactly if,
  of the events still queued at the restart, the last one on every key agrees with the new snapshot or is overridden by
  a later event; an empty queue always is (`Discovery.ViewIsStore`).
- The winner of an election stands under two keys whose events look alike. The end of the active key misleads a consumer
  exactly if the prefix it watches covers that key (`Discovery.ActiveKeyConfusesIff`, `Deployment.RequestIsKeyedIff`). A
  watch of the service's own keys, name and dash, is right with active/standby too, as long as no other service has a
  name that goes on with that dash (`Deployment.Aside`, `Deployment.ViewIsRegistry`).
- A last field under the key of the stack and a stack are written alike. Two entries in valid UTF-8 give the same line
  exactly if their times, single values, fields with the stack among them, and indentation are the same
  (`TextLine.LinesAlikeIff`).
- With active/standby the fast path for restarted nodes never deletes anything: each session registers under a key of
  its own, and one whose registration was carried out without an answer waits for the end of the lease it used
  (`Deployment.NothingIsPurged`, `Election.RestartMakesWay`).
- Fields attached with `With` give a line that starts with a space if no other section comes first
  (`TextCore.AttachingIsTransparentIff`).
- A header that a writer cuts short without an error is not noticed, though a payload cut short is
  (`Framer.SentIsFrame`).
- `Encode` computes the associated data before it sets the encrypted flag and the decoder after, so they always differ
  in that bit (`Pipeline.AadDiffersInOneBit`); with the signing encryptor nothing encrypted can be decoded unless the
  MAC collides (`Pipeline.SignedDecodesIff`).
- `Encode` rejects a nil header, which its interface comment says it would replace (`Codec.Codec.Encode`).

## Model

| member | source | states |
|---|---|---|
| Etcd.NodeKeyInjective | internal/util/sessionutil/session_util.go:415-421 | sessions of one service with different ids have different keys |
| Etcd.KeysDistinct | internal/util/sessionutil/session_util.go:415-421 | a session's own key is neither the active key nor the id counter |
| Etcd.DecimalIsRead | internal/util/sessionutil/session_util.go:415-421 | the id in a key is the number in decimal, without leading zeros |
| Etcd.AnswersAreTrue | internal/util/sessionutil/session_util.go:395-411 | an answer is an error exactly for a dead lease and then nothing was done; otherwise it carries the revision the request left, and success exactly if there is one more event |
| Election.StepKeepsInv | internal/util/sessionutil/session_util.go:364-497 | every step of any session, of the store or of other services keeps ids dense and unshared, leases unshared, winners attached and watches founded |
| Election.AtMostOneLeader | internal/util/sessionutil/session_util.go:920-1011 | in every reachable state at most one session with a living lease has left STANDBY, and the active key is attached to its lease |
| Election.ActiveMeansLeading | internal/util/sessionutil/session_util.go:1005-1011 | in every reachable state a session with a living lease has left STANDBY exactly if it is ACTIVE |
| Election.LeaderStepsBack | internal/util/sessionutil/session_util.go:954 | a leader that enters the election again is in STANDBY before it asks for the key |
| Election.LoserWatches | internal/util/sessionutil/session_util.go:938-969 | a session that finds the key taken watches it from the revision of the answer, stays in STANDBY, and is blocked unless the key was written at that revision |
| Election.CompactionWakes | internal/util/sessionutil/session_util.go:970-1003 | compaction past the watched revision ends the watch, and the session asks again |
| Election.IdsAreUniqueAndDense | internal/util/sessionutil/session_util.go:340-413 | no two sessions of any services ever get the same id, and the ids committed, replies lost or not, are 1 up to the counter minus one |
| Election.IdIsTaken | internal/util/sessionutil/session_util.go:364-413 | from every reachable state a session looking for an id soon has the next one if undisturbed, also after a lost race |
| Election.RegistrationGoesThrough | internal/util/sessionutil/session_util.go:429-470 | a registration that finds its key free leaves the session under it with a new lease |
| Election.FailureMeans | internal/util/sessionutil/session_util.go:373-470 | exactly a failure to read or move the counter ends a session; a failed registration starts again with a new lease, a failed election can be held again, and nothing else changes |
| Election.TakenKeyIsRead | internal/util/sessionutil/session_util.go:459-470 | a registration that finds its key taken looks at what stands there |
| Election.RestartMakesWay | internal/util/sessionutil/session_util.go:474-497 | undisturbed, it deletes that exactly if an earlier session at the same address wrote it, touches nothing else, and tries again |
| Election.OthersAreFree | internal/util/sessionutil/session_util.go:340-413 | sessions of other services may take ids as those of this service do, and do anything with their own keys |
| Election.CrashIsFinal | internal/util/sessionutil/session_util.go:910-1011 | a crashed session does nothing more over the rest of any run |
| Election.CallsAreApart | internal/util/sessionutil/session_util.go:654-684 | a step of one GoingStop call leaves the other calls of the session as they are |
| Election.NoLostHandOver | internal/util/sessionutil/session_util.go:963-1003 | a standby blocked on its watch has had the active key present at every revision since its own transaction lost |
| Election.EveryDeletionWakes | internal/util/sessionutil/session_util.go:963-1011 | when the active key is gone every watching standby can go on, and three undisturbed steps of a session that watches or comes in make it leave STANDBY with the active key attached to its lease, if that lives |
| Election.StopIsGentle | internal/util/sessionutil/session_util.go:654-684 | the unconditional put of GoingStop cannot take the active key from a living lease |
| Election.LostMeansPresent | internal/util/sessionutil/session_util.go:938-951 | a transaction that lost saw the active key at the revision it returns |
| Discovery.SessionWatcher.HandleWatchResponse | internal/util/sessionutil/session_util.go:784-833 | sends, in order, one event for each session put or deleted and none for other values |
| Discovery.GetSessions | internal/util/sessionutil/session_util.go:600-622 | gives exactly the sessions under the prefix, or an error exactly if some value there is no session |
| Discovery.FoldFollows | internal/util/sessionutil/session_util.go:794-832 | folding delivered events over a snapshot gives the sessions of the store after those events |
| Discovery.ReplayIsIdempotent | internal/util/sessionutil/session_util.go:752-765 | delivering a batch of events again changes nothing |
| Discovery.StepForwardFromBase | internal/util/sessionutil/session_util.go:752-765 | starting at the snapshot's own revision gives the same content as starting after it |
| Discovery.ViewIsStore | internal/util/sessionutil/session_util.go:600-864 | over every run a consumer ends with the sessions of the revision reached, and with those of the store once all is delivered, if and only if what was queued at the last compaction restart is harmless |
| Discovery.WatchGoesOn | internal/util/sessionutil/session_util.go:784-864 | a watch that is behind either can deliver all there is or must restart, never both |
| Discovery.CanCatchUp | internal/util/sessionutil/session_util.go:600-864 | from every state watcher and consumer can catch up with the store by their own steps |
| Discovery.HarmlessIff | internal/util/sessionutil/session_util.go:835-864 | events queued at a restart leave the final view as it should be exactly if the last one on every key agrees with the snapshot or a later event has that key |
| Discovery.RestartGoesWrong | internal/util/sessionutil/session_util.go:835-864 | for any session and any prefix it is watched by, a run of the store that ends drained and caught up with a view that holds a session that is gone |
| Discovery.ActiveKeyConfusesIff | internal/util/sessionutil/session_util.go:415-421 | the end of the active key misleads a consumer, whatever else is stored, exactly if the watched prefix covers that key |
| Deployment.RequestIsKeyedIff | internal/util/sessionutil/session_util.go:429-497 | every request of every session, exclusive or not, stands under the session's own key, unless it is an election on a watched key |
| Deployment.StopIsKeyedIff | internal/util/sessionutil/session_util.go:654-684 | so does the put of GoingStop, unless a leader stops under a watched active key |
| Deployment.StopIsAnnounced | internal/util/sessionutil/session_util.go:672-678 | after the put of GoingStop, its answer lost or not, the session is stored as stopping under its lease, and the watch sends an update for it |
| Deployment.OnlyStoppersStop | internal/util/sessionutil/session_util.go:794-832 | over any run a session of which no GoingStop call took a step is announced as added |
| Deployment.StopGoesThrough | internal/util/sessionutil/session_util.go:654-684 | in every reachable state an undisturbed GoingStop of a registered session stores it as stopping, under the active key if it leads and else under its own |
| Deployment.NothingIsPurged | internal/util/sessionutil/session_util.go:474-497 | with active/standby no registration ever deletes a key |
| Deployment.StepOk | internal/util/sessionutil/session_util.go:364-497 | every step of the sessions, of other services and of the store leaves what stands under the service's own keys written by its sessions about themselves |
| Deployment.ViewIsRegistry | internal/util/sessionutil/session_util.go:600-1011 | over every joint run of sessions, elections and a watcher of the service's own keys, a consumer that has caught up holds exactly what stands registered if and only if its last restart was harmless; everything registered is a session of the service, under its own key, and every session that has registered is there with its id and address as long as its lease lives |
| Deployment.StepKeepsStanding | internal/util/sessionutil/session_util.go:429-497 | whatever any session, another service or the store does, a registered session's key stays attached to its lease while that lease lives |
| StaleRestart.RegistryGoesWrong | internal/util/sessionutil/session_util.go:835-864 | for any service, a session that takes an id and a lease, registers and loses its lease, an id taken elsewhere and a compaction end, after the restart, drained and caught up with nothing registered and the expired session in the view |
| Parallel.StepKeepsInv | pkg/util/funcutil/parallel.go:72-127 | every step of the caller or of a worker keeps batches, calls, errors, counters and the channels' bookkeeping consistent |
| Parallel.EveryRunIsSafe | pkg/util/funcutil/parallel.go:58-128 | in every run no index runs twice, quit is closed once at most, the workers stay within the bound, nil means all ran without error, a failure gives some call's error, and nobody is left running |
| Parallel.EveryRunReturns | pkg/util/funcutil/parallel.go:72-128 | no run is longer than a bound fixed at the start, and one that cannot go on has returned |
| Parallel.NeverStuck | pkg/util/funcutil/parallel.go:107-127 | until the runner has returned some step is enabled |
| Parallel.EveryStepDescends | pkg/util/funcutil/parallel.go:72-127 | every step lowers one measure |
| Parallel.WorkerBound | pkg/util/funcutil/parallel.go:59-72 | at most max(1, maxParallel) goroutines are started |
| Parallel.WorkIsShared | pkg/util/funcutil/parallel.go:59-72 | batches are the least size with which the allowed workers cover the total, and exactly as many workers are started as such batches need |
| Parallel.LateWorkerCallsNothing | pkg/util/funcutil/parallel.go:77-82 | a worker that has not looked when quit is closed calls no index of its batch over the rest of the run |
| Parallel.NothingTwice | pkg/util/funcutil/parallel.go:72-95 | no index is passed to the callback twice |
| Parallel.ProcessFuncParallel | pkg/util/funcutil/parallel.go:58-128 | under any scheduler the result is nil exactly if no index fails, and otherwise the error of a call that was made |
| Parallel.ProcessTaskParallel | pkg/util/funcutil/parallel.go:132-238 | the same for a list of tasks |
| Notifier.StepKeepsInv | pkg/util/syncutil/context_condition_variable.go:28-92 | every step of every goroutine keeps the mutex, the channel generations and all program points consistent |
| Notifier.EveryRunIsExclusive | pkg/util/syncutil/context_condition_variable.go:28-92 | one goroutine at most is inside the mutex, no channel is closed twice and no unlocked mutex is unlocked, cancellation included |
| Notifier.NoLostNotification | pkg/util/syncutil/versioned_notifier.go:70-100 | a listener blocked on an open channel holds the current one and has seen the current version |
| Notifier.NewListenerHasSeen | pkg/util/syncutil/versioned_notifier.go:46-62 | after n notifications a listener made at the earliest position is behind, one made at the latest has seen exactly n, and one made at any other is behind exactly if n is not 0 |
| Notifier.EarliestWaitReturns | pkg/util/syncutil/versioned_notifier.go:46-80 | from every reachable state the first Wait of a listener made at the earliest position returns within four own steps without any notification to come |
| Notifier.WaitBringsNews | pkg/util/syncutil/versioned_notifier.go:73-80 | a Wait that returns without being cancelled has seen a version that is new to its listener |
| Notifier.WaitChanReturns | pkg/util/syncutil/versioned_notifier.go:89-100 | a WaitChan that gets the mutex is answered at once if its listener is behind, and otherwise with the open channel |
| Notifier.CancelledWaitReturns | pkg/util/syncutil/context_condition_variable.go:59-73 | a Wait can be cancelled exactly while it is blocked, without the mutex and without any change to others |
| Notifier.BehindMeansReturns | pkg/util/syncutil/versioned_notifier.go:70-80 | a Wait that is behind is stopped only by a held mutex, and every own step brings it nearer to returning nil with the current version |
| Notifier.BehindWaitReturns | pkg/util/syncutil/versioned_notifier.go:70-80 | over a whole run it returns after a fixed number of own steps and has then seen a newer version |
| Notifier.HolderLeaves | pkg/util/syncutil/context_condition_variable.go:38-92 | whoever is inside the mutex can always go on and is out after a bounded number of steps |
| Notifier.OthersKeepLead | pkg/util/syncutil/versioned_notifier.go:39-43 | a notification stays unseen, whatever the others do, until the listener looks |
| Notifier.VersionsMoveUp | pkg/util/syncutil/versioned_notifier.go:70-107 | the version rises by one with each NotifyAll and at no other time, and a Wait returning nil raises its listener strictly, to the current version |
| Notifier.EveryNotifyCounts | pkg/util/syncutil/versioned_notifier.go:39-43 | over any run a goroutine has raised the version as often as it began a NotifyAll, but for the call it is in |
| Notifier.VersionCounts | pkg/util/syncutil/versioned_notifier.go:39-43 | the version is the number of notifications made |
| RingGrowth.CeilIsLeastPowerOfTwo | pkg/buffer/ring/ring_buffer.go:518-529 | the rounded capacity is the least power of two that covers the request |
| RingGrowth.BitTrickIsPowerOfTwo | pkg/buffer/ring/ring_buffer.go:520-529 | the test on n and n-1 recognises exactly the powers of two |
| RingGrowth.GrownCapacityCovers | pkg/buffer/ring/ring_buffer.go:482-503 | growth never shrinks a buffer and covers every request |
| RingGrowth.GrownCapacityIsTight | pkg/buffer/ring/ring_buffer.go:482-503 | the overshoot is below a factor of two, a quarter at most in the quarter regime, with a floor from size 0 |
| RingGrowth.GrowthInNumbers | pkg/buffer/ring/ring_buffer.go:482-503 | the regimes in numbers: 1024, the least power of two, the double below 4096, the first of n, five quarters of n and so on, or the request itself |
| RingGrowth.GrowthIsGeometric | pkg/buffer/ring/ring_buffer.go:482-503 | a capacity that grows gains at least a fifth of itself |
| RingGrowth.StaysPowerOfTwoIff | pkg/buffer/ring/ring_buffer.go:482-529 | from a capacity of 0 or a power of two, exactly which requests grow it to a power of two |
| RingBuffer.Buffer.constructor | pkg/buffer/ring/ring_buffer.go:53-64 | a new buffer is empty and has the rounded capacity |
| RingBuffer.Buffer.Peek | pkg/buffer/ring/ring_buffer.go:68-102 | head and tail together are the first n bytes, or all of them for n that is not positive or too large |
| RingBuffer.Buffer.Discard | pkg/buffer/ring/ring_buffer.go:124-143 | drops the first n bytes, or all |
| RingBuffer.Buffer.Read | pkg/buffer/ring/ring_buffer.go:145-187 | copies out and removes the first bytes, as many as fit, around the end of the array too |
| RingBuffer.Buffer.ReadByte | pkg/buffer/ring/ring_buffer.go:189-209 | takes the first byte, if there is one |
| RingBuffer.Buffer.Write | pkg/buffer/ring/ring_buffer.go:211-246 | appends all of its argument, growing exactly if there is no room |
| RingBuffer.Buffer.WriteByte | pkg/buffer/ring/ring_buffer.go:248-262 | appends the byte, and panics exactly on a full buffer of threshold size |
| RingBuffer.Buffer.Bytes | pkg/buffer/ring/ring_buffer.go:312-335 | a copy of the contents, which stay |
| RingBuffer.Buffer.Buffered | pkg/buffer/ring/ring_buffer.go:264-278 | the number of bytes stored |
| RingBuffer.Buffer.Available | pkg/buffer/ring/ring_buffer.go:290-304 | the capacity less the number of bytes stored |
| RingBuffer.Buffer.NewCapacity | pkg/buffer/ring/ring_buffer.go:483-503 | the growth loop computes the capacity the growth lemmas are about |
| RingBuffer.Buffer.Grow | pkg/buffer/ring/ring_buffer.go:482-516 | the contents move to the start of a larger array, in order |
| RingBuffer.Buffer.ReadFrom | pkg/buffer/ring/ring_buffer.go:338-388 | for every reader: terminates with its data used up, and appends exactly that data if and only if the buffer held something or the first read delivers something, and no round misplaces what it reads |
| RingBuffer.InPlaceIff | pkg/buffer/ring/ring_buffer.go:338-366 | every reader is served in order exactly when the buffer must grow, nothing lies in front, or the free space is one piece |
| RingBuffer.Buffer.BreakOrder | pkg/buffer/ring/ring_buffer.go:345-366 | on every other geometry some reader's bytes do not arrive as delivered |
| RingBuffer.BusyInPlaceIff | pkg/buffer/ring/ring_buffer.go:338-366 | every reader that always delivers something is served in order exactly on those geometries and when one cell is left behind the contents |
| RingBuffer.OneChunkIsOrderly | pkg/buffer/ring/ring_buffer.go:345-366 | a reader that fills what it is given is served in order on every geometry |
| RingBuffer.Buffer.WriteTo | pkg/buffer/ring/ring_buffer.go:390-464 | what the writer took and what stays are the old contents, unless a full buffer at position 0 meets a writer that takes nothing; how many bytes the writes take, which replies they use up, and the error: the writer's if a write that was made failed, a short write if none did and something is left, none otherwise |
| RingQueue.Apply | pkg/buffer/ring/ring_buffer.go:68-335 | one operation of the buffer answers and acts as the same operation of a byte queue |
| RingQueue.Execute | pkg/buffer/ring/ring_buffer.go:68-335 | so does every sequence of operations, up to the first panic |
| RingQueue.RunIsFifo | pkg/buffer/ring/ring_buffer.go:68-335 | over any run what was taken out and what is left are what was there and what was put in, in order |
| RingQueue.RunKeepsCapacity | pkg/buffer/ring/ring_buffer.go:264-300 | the contents never exceed the capacity and the capacity never falls |
| RingQueue.RunMovesLittle | pkg/buffer/ring/ring_buffer.go:482-516 | over any run the bytes moved by growing are at most five times the capacity gained |
| RingPool.IndexIsLeast | internal/pool/ringbuffer/ringbuffer.go:157-168 | the class of a size is the least that covers it, or the last |
| RingPool.Sort | internal/pool/ringbuffer/ringbuffer.go:143-155 | some descending order of the same classes |
| RingPool.Largest | internal/pool/ringbuffer/ringbuffer.go:116-130 | the largest of the hottest classes, taken until they exceed the threshold |
| RingPool.CalibrationHolds | internal/pool/ringbuffer/ringbuffer.go:116-133 | whatever threshold the multiplication gives, the classes up to the maximum hold more calls than it, or all of them; the maximum is a class whose hotter ones do not exceed it; and the default is a hottest class |
| RingPool.SumsOfPermutation | internal/pool/ringbuffer/ringbuffer.go:104-130 | how equal classes are ordered does not change what a maximum size covers |
| RingPool.Pool.Calibrate | internal/pool/ringbuffer/ringbuffer.go:99-136 | counters start again and both sizes are picked from the counts, unless a calibration is under way |
| RingPool.Pool.Put | internal/pool/ringbuffer/ringbuffer.go:85-97 | counts the class, calibrates above the threshold, and keeps the buffer, emptied, exactly if it is not too large |
| RingPool.Pool.Get | internal/pool/ringbuffer/ringbuffer.go:69-75 | always gives an empty buffer, a waiting one or a new one of the default size |
| TextEncoding.SanitizeKeepsValid | pkg/log/zap_text_encoder.go:533-539 | text in valid UTF-8 is left as it is |
| TextShape.RuneSizeIff | pkg/log/zap_text_encoder.go:527-541 | the encoder takes exactly the UTF-8 of Unicode scalar values for characters |
| TextEncoder.Encoder.TryAddRuneSelf | pkg/log/zap_text_encoder.go:589-618 | writes exactly the escape of a single-byte character and leaves other bytes alone |
| TextEncoder.Encoder.SafeAddString | pkg/log/zap_text_encoder.go:527-541 | appends the escaped text |
| TextEncoder.Encoder.NeedDoubleQuotes | pkg/log/zap_text_encoder.go:573-586 | true exactly if some byte is at most 0x20 or a backslash, quote, bracket or equals sign |
| TextEncoder.Encoder.SafeAddStringWithQuote | pkg/log/zap_text_encoder.go:544-552 | appends the token, quoted exactly if needed |
| TextEncoder.Encoder.AddString | pkg/log/zap_text_encoder.go:223-226 | appends key and value with the separator before the key only |
| TextEncoder.Encoder.EncodeError | pkg/log/zap_text_encoder.go:642-660 | one section for an error, and one more for a long form that differs and is enabled |
| TextEncoder.Encoder.AddFields | pkg/log/zap_text_encoder.go:628-640 | a section for each pair, in order |
| TextEncoder.Encoder.EncodeEntry | pkg/log/zap_text_encoder.go:405-480 | the line of header, attached fields, fields of the call, stack and ending; the encoder is left as it is |
| TextEncoder.Encoder.Clone | pkg/log/zap_text_encoder.go:389-403 | a new encoder with the same bytes |
| TextEncoder.ExtendedAppend | pkg/log/zap_text_encoder.go:628-640 | adding two lists of fields is adding one list after the other |
| TextShape.TokenIsQuotedIff | pkg/log/zap_text_encoder.go:544-586 | a text is quoted exactly if it has a blank, control character, backslash, quote, bracket or equals sign |
| TextShape.EscapeIsIdentityIff | pkg/log/zap_text_encoder.go:527-541 | escaping leaves exactly the valid UTF-8 without control characters, backslashes and quotes alone, and makes everything else longer |
| TextShape.CharactersAreSpelled | pkg/log/zap_text_encoder.go:589-618 | how every single-byte character is written, wherever it stands |
| TextShape.LineFallsApart | pkg/log/zap_text_encoder.go:405-480 | after the time, splitting a line at the spaces outside quotes gives its bracketed sections |
| TextShape.FullLine | pkg/log/zap_text_encoder.go:405-480 | the bytes of a line with everything on it, in order: time, level, logger name, caller, message, field, stack, ending |
| TextShape.TypicalLine | pkg/log/zap_text_encoder.go:405-480 | the bytes of the line of a level, a sentence and a field, with the default ending |
| TextShape.ErrorIsReadBack | pkg/log/zap_text_encoder.go:642-660 | an error is read back as its message and, unless disabled or the same, its long form under the key with Verbose appended |
| TextParser.UnescapeEscape | pkg/log/zap_text_encoder.go:527-569 | unescaping gives any input back with each byte the UTF-8 decoder rejects replaced by U+FFFD |
| TextParser.EscapeIsStringBody | pkg/log/zap_text_encoder.go:589-626 | the escaped text of any input matches the string grammar in section 7 of RFC 8259 |
| TextParser.EscapeHasNoControl | pkg/log/zap_text_encoder.go:589-618 | no byte below 0x20 is ever emitted |
| TextParser.EntryIsOneLine | pkg/log/zap_text_encoder.go:405-480 | an entry makes one line, whatever its message, fields and stack contain |
| TextParser.ClosingQuoteIsFound | pkg/log/zap_text_encoder.go:549-551 | no quote inside a quoted token can be taken for the closing one |
| TextParser.ReadTokenBack | pkg/log/zap_text_encoder.go:544-552 | a token, quoted, unquoted or empty, is read back wherever something follows that ends it |
| TextParser.FieldsAreReadBack | pkg/log/zap_text_encoder.go:628-640 | any list of string fields is read back, bytes that are not UTF-8 replaced |
| TextParser.FieldsRoundTrip | pkg/log/zap_text_encoder.go:327-336 | fields in valid UTF-8 are read back exactly |
| TextParser.UniquelyDecodable | pkg/log/zap_text_encoder.go:492-509 | lists in valid UTF-8 are written alike exactly if they are the same list |
| TextLine.LineIsReadBack | pkg/log/zap_text_encoder.go:405-480 | a whole line is read back as its time, its single values, its fields - attached ones first - and its stack as one more field, so no message can be taken for a field |
| TextLine.LinesAlikeIff | pkg/log/zap_text_encoder.go:405-480 | two entries in valid UTF-8 give the same line exactly if time, single values, the fields followed by the stack, and the indentation agree |
| TextCore.Core.With | pkg/log/zap_text_core.go:39-54 | a new core with the fields attached; no existing object is touched |
| TextCore.Core.Write | pkg/log/zap_text_core.go:63-79 | hands the whole line to the writer once, and flushes exactly a severe entry that was written |
| TextCore.AttachingIsTransparentIff | pkg/log/zap_text_core.go:39-54 | attaching fields gives the line that passing them gives exactly if something is written before them, and one more leading space otherwise |
| TextCore.HeaderIsEmptyIff | pkg/log/zap_text_encoder.go:405-458 | an entry has nothing before its fields exactly if no configured section applies and the message is empty |
| TextCore.WriteThrough | pkg/log/zap_text_core.go:39-91 | any chain of With calls and a write gives the line of all fields at once, indented in that one case |
| TextCore.ParentIsUnaffected | pkg/log/zap_text_core.go:85-91 | a core writes after a child was made and used what it would have written before |
| Frames.HeaderRoundTrip | internal/network/framer/framer.go:73-78 | every header is read back from its 32 bytes |
| Frames.BytesRoundTrip | internal/network/framer/framer.go:109-116 | every 32 bytes are the bytes of the header read from them |
| Frames.HeaderLayout | internal/network/framer/framer.go:73-78 | the offset and byte order of every header field, the timestamp in two's complement |
| Frames.DecodeFrame | internal/network/framer/framer.go:103-148 | a frame is accepted exactly within the limit and read back with its size put right, and nothing after it is consumed |
| Frames.FrameDecoded | internal/network/framer/framer.go:103-148 | an accepted frame encodes to the very bytes it was read from |
| Frames.NoPrefixIsAccepted | internal/network/framer/framer.go:104-141 | no proper prefix of a frame is accepted |
| Frames.StreamRoundTrip | internal/network/framer/framer.go:49-148 | k reads of k concatenated frames give the k frames and leave what follows |
| Frames.StreamDecoded | internal/network/framer/framer.go:103-148 | whatever k reads accept is the concatenation of the frames they give |
| Frames.StreamsDiffer | internal/network/framer/framer.go:49-95 | different lists of frames are different bytes |
| Framer.LengthPrefixedFramer.WriteFrame | internal/network/framer/framer.go:49-95 | puts a missing header in, sets the size, and sends header and payload; an oversized payload sends nothing and changes no header |
| Framer.SentIsFrame | internal/network/framer/framer.go:80-94 | no error means the whole frame went out exactly if the header did; which error tells of which write; an honest writer never gets more than the start of a frame |
| Framer.ReadFull | internal/network/framer/framer.go:105-107 | reads the next n bytes however the reader portions them, or all that is left |
| Framer.LengthPrefixedFramer.ReadFrame | internal/network/framer/framer.go:103-148 | decodes the next frame into new objects that the buffer pool cannot write to |
| Framer.ReadFrames | internal/network/framer/framer.go:103-148 | after k reads every envelope still shows what was read into it |
| Pipeline.FlagsAreExact | internal/network/codec/codec.go:118-140 | after encoding the two flags tell what was done, and every other bit and field is the caller's |
| Pipeline.OutgoingFails | internal/network/codec/codec.go:114-140 | exactly when encoding fails, and the flags it then leaves in the header |
| Pipeline.IncomingMeans | internal/network/codec/codec.go:176-211 | the exact condition of every outcome of decoding: nothing marked as encrypted or compressed comes out unless that stage is on and succeeded |
| Pipeline.EndsAgree | internal/network/codec/codec.go:101-211 | for every setting of the two ends: what was encrypted or compressed is refused by an end that has the stage off, and everything else is understood |
| Pipeline.DecodesIff | internal/network/codec/codec.go:101-211 | decoding gives the body back, with encryption exactly if decrypting under the finished header's data recovers it |
| Pipeline.PipelineRoundTrip | internal/network/codec/codec.go:101-211 | reading the written frame gives header and body, for every lawful compressor and every encryptor that ignores the header |
| Pipeline.AadDiffersInOneBit | internal/network/codec/codec.go:132-140 | the decoder's associated data always differs from the encoder's, in exactly the encrypted flag |
| Bytes.HasBitMeans | internal/network/codec/codec.go:118-140 | bit k of the flags counts from the least significant one |
| Pipeline.AadIsExact | internal/network/codec/codec.go:241-250 | associated data determines the header but for its size, and nothing more |
| Pipeline.AadIsHeaderWithoutSize | internal/network/codec/codec.go:236-250 | associated data is the header on the wire without its size |
| Pipeline.SignedDecodesIff | internal/network/codec/codec.go:178-192 | with the signing encryptor decryption is refused exactly if the MACs of two different inputs differ or the cipher refuses |
| Pipeline.ReceivedIsIncoming | internal/network/codec/codec.go:160-211 | reading a written frame is decoding what was encoded, and reads no further |
| Codec.Codec.Encode | internal/network/codec/codec.go:101-154 | the header and the stream after each way encoding can end |
| Codec.Codec.WriteBody | internal/network/codec/codec.go:118-153 | flags, size and payload as the stages prescribe, in every branch |
| Codec.Codec.DecodeRaw | internal/network/codec/codec.go:160-216 | header and body, or the first error, as decoding the stream prescribes; a body from a frame marked as encrypted or compressed went through that stage |
| Codec.Codec.Decode | internal/network/codec/codec.go:219-233 | as DecodeRaw, and the message that a body that is not empty stands for |
| Codec.Loopback | internal/network/codec/codec.go:15-40 | however a connection portions the bytes, an encoded message arrives as it was serialized, with the header as it was sent, unless a part fails or the payload is too large |
| AeadHmac.EncryptAndSign | internal/network/crypto/aead_hmac.go:73-92 | a packet is nonce, ciphertext and the MAC over both and the associated data |
| AeadHmac.VerifyAndDecrypt | internal/network/crypto/aead_hmac.go:98-124 | gives a plaintext only for a nonce, a ciphertext and their MAC in a row that the cipher opens to it, and whenever there are such parts |
| AeadHmac.OpenedMeans | internal/network/crypto/aead_hmac.go:98-124 | for each outcome of opening a packet, the exact condition on the packet |
| AeadHmac.PacketInParts | internal/network/crypto/aead_hmac.go:73-92 | the nonce is in front, then the ciphertext, then 32 bytes of MAC over both and the associated data |
| AeadHmac.MacCoversAll | internal/network/crypto/aead_hmac.go:98-124 | a packet is refused for its MAC exactly if its last 32 bytes are not the MAC of everything before them and the associated data |
| AeadHmac.TamperingIsNoticed | internal/network/crypto/aead_hmac.go:98-124 | a change of packet or associated data under the same MAC is refused unless the MAC takes one value on two inputs |
| AeadHmac.OpenPacket | internal/network/crypto/aead_hmac.go:98-124 | under any associated data the parts of a packet are found again and the MAC decides first |
| AeadHmac.PacketRoundTrip | internal/network/crypto/aead_hmac.go:73-124 | under its own associated data a packet gives its plaintext back |

## Left out

- Goroutines, channels and the store's clients are modelled on values as steps of a state machine, not as objects;
  fairness of schedulers is not modelled, so liveness is stated as bounds on steps and as steps that stay enabled.
- Discovery.SessionWatcher.HandleWatchResponse: the error branch is the step Restart of the state machine; the
  validation that only version ranges use is left out, and so is the bound of the event channel, which holds 100 events
  and makes the watcher wait when it is full.
- Discovery.GetSessions: session values are structured, so malformed JSON is a value that is no session; a rewatch
  callback that is missing or fails, and watch errors other than compaction, are not modelled.
- Watching with a version range: its restart ignores the filter.
- Election.AtMostOneLeader: speaks of one service, whose name is not that of the id counter, beside any others, and of
  leases that live at the store; a session does not notice the end of its lease at once, and keep-alive timing is not
  modelled.
- Election.IdsAreUniqueAndDense: ids are unbounded integers; the environment variable that fixes an id in tests is not
  modelled.
- Deployment.ViewIsRegistry: keeps other services whose names begin with this one's and a dash out of the deployment,
  since their keys fall under the prefix that is watched.
- Exclusive sessions without active/standby, which register under the active key itself
  (`internal/util/sessionutil/session_util.go:415-421`): every session of the model registers as a standby.
- Retry limits of registration, back-off and process exits: a session may crash at any point instead.
- RingBuffer.Buffer.Peek: the slices are values; that the real ones alias the array until the next write is not
  captured. Sizes are unbounded, so overflow of the doubled capacity is not either.
- RingPool.Pool.Calibrate: one caller at a time, so no counter rises between the swaps; the floating-point product that
  makes the threshold is a parameter, any function.
- RingPool.Pool.Put: one caller at a time, with plain counters for atomic ones; the pool does not forget a buffer.
- Parallel.ProcessFuncParallel: callbacks return and do not panic; logging is left out.
- Notifier.BehindWaitReturns: assumes that nobody else looks through the same listener meanwhile, and that the call is
  not cancelled.
- TextEncoder.Encoder.EncodeEntry: string and error fields only; level, name and caller are strings, the time is already
  formatted and written as it is. Numbers, nested values, namespaces and encoders that write nothing are left out.
- TextEncoder.Encoder.AddFields: string and error fields only.
- TextLine.LineIsReadBack: a formatted time holds no right bracket; values that stand alone, a logger name and a message
  say, are told apart by their place among the sections that are present, not by their text.
- TextCore.Core.With: the branch for encoders of another kind.
- Framer.LengthPrefixedFramer.ReadFrame: buffer pools are used by one goroutine at a time.
- Pipeline.PipelineRoundTrip: compressors, ciphers, MACs and serializers are parameters with stated laws, which the
  stand-ins for missing parts satisfy (`Pipeline.NopIsLawful`); the zstd compressor's path for small inputs does not
  satisfy them. The positions of the two flags are any two different bits, since the protocol definitions that fix them
  are not part of this model.
- WebSocket transport, routing, serializers, configuration, metrics and application wiring.
