# A verified model of the locks, the UTF-8 library, the chat protocol and the bit buffer

The project models four parts of the repository and proves what they promise.

**Locks and counts of `critsect.h`.** Each lock is a transition system over any number of threads, each
with a position in the code. One step is one volatile load, one `Interlocked*` call or one plain store,
under sequentially consistent memory. Theorems are about every state of every finite run (`Runs`). Beside
each transition system stands a class with the fields of the source, whose methods are the single
statements, each proved to be the step of the machine.

- `FairLockControl`, `FairLock`, `FairLockTheorems`, `FairLockWaiting`, `FairLockLimits`, `FairLockObject`: the
  fair reader-writer lock. Its two counts share one word, are advanced by two separate writes, and wrap. The
  words are compared with unbounded ghost counts (`Words`, `PackedCounter`), the control part with a log of
  requests. `FairLockLimits` finds the exact limits within which the lock is correct.
- `ReaderPreferenceLock` and `TicketLock`, and `WriterPreferenceLock`, which is shown to make only steps of
  those two when seen through one or the other half of its fields.
- `RefCount.dfy`: the compare-and-swap loops and the debug build, both against one atomic counter.
- `LockingRefCount`: the count that can be locked and drained; `LockingRefCountCalls`: what its callers get.
- `ReaderPreferenceLimits`, `TicketLockLimits`, `WriterPreferenceLimits`, `LockingRefCountLimits`: how much the
  counters of each bear, exactly, with a run that fails for every limit beyond.

**The UTF-8 library.** `Rfc3629` and `Rfc2781` are the grammars and meanings of the two standards, stated
independently of the code; `Utf8Text` and `Utf16Text` are texts, their code points, and the bijection.
`Utf8Core`, `Utf8Checked`, `Utf8Repair`, `Utf8Conversions` are the procedures of `core.h` and `checked.h`,
with the bit arithmetic of the source, proved against the standards; `Utf8Faults` says from the octets alone
which fault is found and which exception thrown; `Utf8Unchecked` and `Utf8Iterator` are
the fast forms and the iterator classes, proved to agree with the checked ones. An iterator is an index
into the octets; an exception is a value beside the values that the reference parameters have by then.

**The chat server.** `ChatMessage` is the frame printer and parser, down to what `strncat`, `atoi` and
`%4d` do. `ChatProtocol` and `ChatTheorems` are the room and its sessions as a state machine whose steps are
the handlers, in any order and with any errors. `ChatServer` is the classes, with loops over participants,
shown to make only steps of that machine.

**BitBuff.** The packed buffer against an array of booleans.

## Findings

- The fair lock excludes under a limit of r outstanding readers and w outstanding writers exactly if w is 0, or
  r is 0 and w is at most 0x8000, or both are at most 0x7fff (`FairLockLimits.ExclusionLimits`). Beyond that a run
  within the limits lets a second thread in beside a writer.
- The other counters have exact limits too: 2^32 tickets (`TicketLockLimits.ExclusionLimit`), fewer than 2^31
  registered readers for both other reader-writer locks (`ReaderPreferenceLimits`, `WriterPreferenceLimits`), 2^31
  asking writers for writer preference, since the two loads of the gate can be half a turn of the counter apart
  (`WriterPreferenceLimits.GateLimits`), and fewer than 2^16 references (`LockingRefCountLimits.DrainLimit`).
- `RefAdd` at `LONG_MAX` stores `LONG_MIN`. `RefCount.StepRefines` shows that this is the one step that leaves the
  specification, and `OverflowIsReached` that a run comes to it. The debug and release builds differ exactly on
  negative counts (`BuildsAgree`).
- `utf8::next` passes a variable to `invalid_code_point` that is still 0, so the exception never names the
  code point (checked.h:139-151; `Utf8Faults.NextThrowsExactly`).
- `prior`, and so `--`, has moved the iterator when it throws, unlike `next` and `++`. It also succeeds where stray
  trailing octets follow a character (`PriorSkipsStrayTail`): exactly where a character stands at the head of the
  octets from the nearest one that is no tail. `Utf8Checked.LooseBack` is the condition on a whole range, and
  `TightBack` the one for a text.
- The unchecked iterator's `++` stays in place on an octet that announces no length, while unchecked `next`
  passes it; on all other octets the two move alike (`Utf8Iterator.MovesAsNext`).
- `replace_invalid` with a valid replacement fails exactly on input that ends in a truncated sequence
  (`Utf8Repair.RepairThrows`).
- A message header is read as blanks, an optional sign and a run of digits, and whatever follows is ignored: "12ab"
  announces 12. A header without digits announces an empty body and is accepted; a minus is refused unless the
  number is 0 (`ChatMessage.AnnouncedExactly`, `NoNumberIsAnEmptyBody`).
- After a failed write a session leaves the room and its queue is never written again (`ChatTheorems.FailedQueueStays`),
  but its reads go on and what it sends still reaches the others (`FailedWriteKeepsReading`, `ReadsGoOn`,
  `BodyIsSent`, `StillSends`).

## Model

| member | source | states |
|---|---|---|
| `PackedCounter.HalfAliases` | CPPSourceCodes/TestUnits/TestUnits/critsect.h:1107-1116 | two update counts leave the same half behind exactly when they are equal, or both positive and congruent modulo 0x8000 |
| `PackedCounter.WriterPartIsLowHalf` | CPPSourceCodes/TestUnits/TestUnits/critsect.h:1157-1158 | the bitwise mask 0xffff of a word with halves up to 0x8000 is its writer half |
| `PackedCounter.ClearTouchesOneHalf` | CPPSourceCodes/TestUnits/TestUnits/critsect.h:1113 | the bitwise clear of the top bit changes only the half it is for, and only from 0x8000 to 0 |
| `PackedCounter.UpdateAdvancesOneCount` | CPPSourceCodes/TestUnits/TestUnits/critsect.h:1113-1114 | clear then add turns the word of (r, w) updates into the word of one more update of one kind, with no carry from the writer half |
| `FairLockControl.ReaderHoldsWritersBack` | CPPSourceCodes/TestUnits/TestUnits/critsect.h:1153-1176 | while a reader not behind a writer is outstanding that writer still has readers to wait for and is not admitted |
| `FairLockControl.StepKeepsInv` | CPPSourceCodes/TestUnits/TestUnits/critsect.h:1107-1190 | every statement of every thread keeps mutex ownership, tickets, the queue of writers, the counts of outstanding requests and their total order |
| `FairLock.TestExact` | CPPSourceCodes/TestUnits/TestUnits/critsect.h:1157-1171 | with any number of requests outstanding, and on any load, the test is true exactly when the counts compared are equal modulo the wrap and none is hidden by an update midway |
| `FairLock.AdmissionExact` | CPPSourceCodes/TestUnits/TestUnits/critsect.h:1157-1171 | within the limits a load of completions, also one between the two writes of an update, passes the loop test exactly when all that must finish first has finished |
| `FairLock.StepKeepsInv` | CPPSourceCodes/TestUnits/TestUnits/critsect.h:1107-1190 | every statement keeps the two packed words equal to the unbounded history, with the update in progress accounted for |
| `FairLockTheorems.MutualExclusion` | CPPSourceCodes/TestUnits/TestUnits/critsect.h:1153-1190 | in every state of every run, with any number of threads and counters that wrap, an admitted writer excludes every other admitted thread |
| `FairLockTheorems.TornUpdatesInvisible` | CPPSourceCodes/TestUnits/TestUnits/critsect.h:1107-1116 | in every run the test on the word actually loaded is true exactly when the history admits the thread |
| `FairLockTheorems.WordsWrap` | CPPSourceCodes/TestUnits/TestUnits/critsect.h:1157-1171 | after 0x8000 further requests of a kind the test on the words is true again, exactly if that count had left 0; for a reader and for a writer |
| `FairLockTheorems.RequestComesAfterOutstanding` | CPPSourceCodes/TestUnits/TestUnits/critsect.h:1118-1130 | a request comes after every outstanding one |
| `FairLockTheorems.OnlyReadersOvertakeReaders` | CPPSourceCodes/TestUnits/TestUnits/critsect.h:1082-1086 | over any stretch of a run, of two outstanding requests of which one is a writer's, the later is not admitted |
| `FairLockTheorems.OldestIsAdmitted` | CPPSourceCodes/TestUnits/TestUnits/critsect.h:1153-1176 | the oldest unfinished request has a true loop test, also while an update of completions is midway |
| `FairLockTheorems.NoDeadlock` | CPPSourceCodes/TestUnits/TestUnits/critsect.h:1153-1190 | while any thread is in an operation or holds the lock, some thread can execute a statement that is not a failed test |
| `FairLockTheorems.AdvanceUsesWork` | CPPSourceCodes/TestUnits/TestUnits/critsect.h:1153-1190 | every such statement takes one from a measure, and a failed test changes nothing |
| `FairLockTheorems.EveryoneIsServed` | CPPSourceCodes/TestUnits/TestUnits/critsect.h:1153-1190 | with no new calls some schedule of exactly that many statements serves every thread, however many wait to ask; only the requests outstanding or being made must be within the limits |
| `FairLockTheorems.AdmissionsAreBounded` | CPPSourceCodes/TestUnits/TestUnits/critsect.h:1153-1190 | with no new calls no schedule has more advances than the measure |
| `FairLockWaiting.WaitNeverGrows` | CPPSourceCodes/TestUnits/TestUnits/critsect.h:1082-1086 | whoever calls or steps, the statements left to the requests in front of an outstanding one do not grow, and an advance of one of them takes one away |
| `FairLockWaiting.WaitingIsBounded` | CPPSourceCodes/TestUnits/TestUnits/critsect.h:1082-1086 | over any stretch of a run in which a request is outstanding, with any calls, the advances made in front of it and the work still in front of it at the end are no more than the work in front at the start |
| `FairLockWaiting.SomeoneInFrontAdvances` | CPPSourceCodes/TestUnits/TestUnits/critsect.h:1153-1190 | while a request is outstanding, a thread with a request in front of it, or the thread in the critical section, can go on |
| `FairLockLimits.SafeLimitsExclude` | CPPSourceCodes/TestUnits/TestUnits/critsect.h:1153-1190 | in every state reached within safe limits on outstanding readers and writers, an admitted writer is alone |
| `FairLockLimits.UnsafeLimitsFail` | CPPSourceCodes/TestUnits/TestUnits/critsect.h:1157-1171 | for every other pair of limits a run is built, within them, that ends with a writer and another thread inside |
| `FairLockLimits.ExclusionLimits` | CPPSourceCodes/TestUnits/TestUnits/critsect.h:1153-1190 | the lock excludes under limits r and w exactly if w is 0, or r is 0 and w at most 0x8000, or both are at most 0x7fff |
| `FairLockObject.ReaderWriterLockFair.constructor` | CPPSourceCodes/TestUnits/TestUnits/critsect.h:1133-1142 | both words start at 0 and the invariant holds |
| `FairLockObject.ReaderWriterLockFair.Fetch` | CPPSourceCodes/TestUnits/TestUnits/critsect.h:1125 | the load of requests into retval is the step of the machine |
| `FairLockObject.ReaderWriterLockFair.ClearRequests` | CPPSourceCodes/TestUnits/TestUnits/critsect.h:1126 | the first write to requests is the step of the machine |
| `FairLockObject.ReaderWriterLockFair.AddRequest` | CPPSourceCodes/TestUnits/TestUnits/critsect.h:1127 | the second write to requests is the step of the machine |
| `FairLockObject.ReaderWriterLockFair.Poll` | CPPSourceCodes/TestUnits/TestUnits/critsect.h:1158-1169 | one loop test is the step of the machine and succeeds exactly when the thread is ready |
| `FairLockObject.ReaderWriterLockFair.ClearCompletions` | CPPSourceCodes/TestUnits/TestUnits/critsect.h:1113 | the first write to completions is the step of the machine |
| `FairLockObject.ReaderWriterLockFair.AddCompletion` | CPPSourceCodes/TestUnits/TestUnits/critsect.h:1114 | the second write to completions is the step of the machine |
| `TicketLock.TestIsExact` | CPPSourceCodes/TestUnits/TestUnits/critsect.h:441-442 | lock == me holds exactly when all earlier tickets are done, although both counters wrap at 2^32 |
| `TicketLock.StepKeepsInv` | CPPSourceCodes/TestUnits/TestUnits/critsect.h:436-455 | every step keeps the counters, the log of tickets and the tickets out consistent |
| `TicketLock.OneInsideInTicketOrder` | CPPSourceCodes/TestUnits/TestUnits/critsect.h:436-455 | in every run one thread at a time is inside, and every other ticket that is out is later |
| `TicketLock.OldestTicketEnters` | CPPSourceCodes/TestUnits/TestUnits/critsect.h:436-455 | while tickets are out, the holder of the oldest one is inside or its test succeeds |
| `TicketLock.TestModulo` | CPPSourceCodes/TestUnits/TestUnits/critsect.h:441-442 | with any number of tickets out, lock == me holds exactly when the turns are equal modulo 2^32 |
| `TicketLock.AdvanceMoves` | CPPSourceCodes/TestUnits/TestUnits/critsect.h:436-455 | a thread whose test passes executes one of the statements it still has, and no other thread moves |
| `TicketLockLimits.Intrusion` | CPPSourceCodes/TestUnits/TestUnits/critsect.h:436-455 | a run is built in which 2^32 + 1 tickets are out and two threads are inside |
| `TicketLockLimits.ExclusionLimit` | CPPSourceCodes/TestUnits/TestUnits/critsect.h:436-455 | the lock excludes under a limit on the tickets out exactly if the limit is at most 2^32 |
| `TicketLock.CritSectLiteFair.TakeTicket` | CPPSourceCodes/TestUnits/TestUnits/critsect.h:441 | Enter's increment returns the number of tickets taken before, modulo 2^32 |
| `TicketLock.CritSectLiteFair.Poll` | CPPSourceCodes/TestUnits/TestUnits/critsect.h:442 | one test lets the thread in exactly when its turn has come |
| `TicketLock.CritSectLiteFair.Leave` | CPPSourceCodes/TestUnits/TestUnits/critsect.h:451-455 | Leave is the step that serves the next ticket |
| `ReaderPreferenceLock.TestsAreExact` | CPPSourceCodes/TestUnits/TestUnits/critsect.h:843-854 | the flag test and the comparison with 0 say exactly whether a writer is inside and whether anybody is registered |
| `ReaderPreferenceLock.StepKeepsInv` | CPPSourceCodes/TestUnits/TestUnits/critsect.h:837-873 | every step keeps lock equal to twice the registered readers plus the writer flag, modulo 2^32, with at most one writer |
| `ReaderPreferenceLock.MutualExclusion` | CPPSourceCodes/TestUnits/TestUnits/critsect.h:837-873 | in every run a writer inside excludes every other thread inside |
| `ReaderPreferenceLock.NoNewWriterWhileRegistered` | CPPSourceCodes/TestUnits/TestUnits/critsect.h:842-846 | from a reader's registration to its EndRead no writer acquires the lock |
| `ReaderPreferenceLock.ReaderWaitsForOneWriter` | CPPSourceCodes/TestUnits/TestUnits/critsect.h:842-846 | once the writer that was inside is gone, the registered reader's test succeeds |
| `ReaderPreferenceLock.FailedTestStutters` | CPPSourceCodes/TestUnits/TestUnits/critsect.h:837-861 | a failed test changes nothing |
| `ReaderPreferenceLock.AdvanceMoves` | CPPSourceCodes/TestUnits/TestUnits/critsect.h:837-873 | a thread whose test passes executes one of the statements it still has, and no other thread moves |
| `ReaderPreferenceLock.SomeThreadAdvances` | CPPSourceCodes/TestUnits/TestUnits/critsect.h:837-873 | in every run, while a thread is in an operation or inside, some thread has a statement that is not a failed test |
| `ReaderPreferenceLimits.Intrusion` | CPPSourceCodes/TestUnits/TestUnits/critsect.h:842-854 | with 2^31 readers inside the word is 0 and a writer gets in beside them |
| `ReaderPreferenceLimits.ExclusionLimit` | CPPSourceCodes/TestUnits/TestUnits/critsect.h:837-873 | under a limit on registered readers the lock excludes exactly if the limit is below 2^31 |
| `ReaderPreferenceLock.ReaderWriterLockRP.Register` | CPPSourceCodes/TestUnits/TestUnits/critsect.h:842 | the add of READER_COUNT_INC is the step of the machine |
| `ReaderPreferenceLock.ReaderWriterLockRP.PollRead` | CPPSourceCodes/TestUnits/TestUnits/critsect.h:843 | one flag test enters exactly when no writer is inside |
| `ReaderPreferenceLock.ReaderWriterLockRP.TryWrite` | CPPSourceCodes/TestUnits/TestUnits/critsect.h:854 | one compare-and-swap enters exactly when nobody is registered or inside |
| `ReaderPreferenceLock.ReaderWriterLockRP.End` | CPPSourceCodes/TestUnits/TestUnits/critsect.h:863-873 | both end operations are steps of the machine |
| `WriterPreferenceLock.StepInWordView` | CPPSourceCodes/TestUnits/TestUnits/critsect.h:944-992 | seen through its word alone the lock makes only steps of the reader-preference lock |
| `WriterPreferenceLock.StepInTicketView` | CPPSourceCodes/TestUnits/TestUnits/critsect.h:961-992 | seen through its two counters alone it makes only steps of the ticket lock |
| `WriterPreferenceLock.GateIsSafe` | CPPSourceCodes/TestUnits/TestUnits/critsect.h:949 | when two loads taken at different times, in either order, compare equal, every writer that had asked at the first one is done |
| `WriterPreferenceLock.StepKeepsInv` | CPPSourceCodes/TestUnits/TestUnits/critsect.h:944-992 | every step keeps both views and what every reader in or past the gate knows |
| `WriterPreferenceLock.LockWordCounts` | CPPSourceCodes/TestUnits/TestUnits/critsect.h:944-992 | in every run with fewer than 2^31 readers registered, and any number of writers, lock is twice the registered readers plus the writer flag |
| `WriterPreferenceLock.MutualExclusion` | CPPSourceCodes/TestUnits/TestUnits/critsect.h:944-992 | in every run with fewer than 2^31 readers registered, and any number of writers, a writer inside excludes everyone else, also between the two steps of EndWrite |
| `WriterPreferenceLock.WritersInTicketOrder` | CPPSourceCodes/TestUnits/TestUnits/critsect.h:966-975 | with up to 2^32 writers asking, one at a time is past the ticket gate, and all others that have asked hold later tickets |
| `WriterPreferenceLock.WritersGoFirst` | CPPSourceCodes/TestUnits/TestUnits/critsect.h:944-959 | with up to 2^31 writers asking, every writer still asking took its ticket after a reader past the gate began its last gate iteration |
| `WriterPreferenceLock.GateWaitsForEarlierWriters` | CPPSourceCodes/TestUnits/TestUnits/critsect.h:949-952 | a gate iteration begun after a writer asked lets the reader pass only after that writer's EndWrite |
| `WriterPreferenceLock.GateTest` | CPPSourceCodes/TestUnits/TestUnits/critsect.h:949 | with fewer than 2^32 writers asking the two counters are equal exactly when none is |
| `WriterPreferenceLock.SomeThreadAdvances` | CPPSourceCodes/TestUnits/TestUnits/critsect.h:944-992 | in every run, while a thread is in an operation or inside, some thread is not held up by a test, or is a reader with a stale first load that one more gate iteration takes through |
| `WriterPreferenceLock.AdvanceMoves` | CPPSourceCodes/TestUnits/TestUnits/critsect.h:944-992 | a thread that is not held up executes one of the statements it still has, in either order of the gate loads, and no other thread moves |
| `WriterPreferenceLock.FailedTest` | CPPSourceCodes/TestUnits/TestUnits/critsect.h:949-974 | a failed test changes nothing, but a reader whose second gate load differs goes back to the first |
| `WriterPreferenceLock.OpenGatePasses` | CPPSourceCodes/TestUnits/TestUnits/critsect.h:949-954 | with no writer asking, the two gate loads of a reader end at its registration, whichever variable is loaded first |
| `WriterPreferenceLock.SecondLoadExact` | CPPSourceCodes/TestUnits/TestUnits/critsect.h:949 | the second gate load passes exactly when the counts of writers taken at the two loads agree modulo 2^32 |
| `WriterPreferenceLimits.GateFails` | CPPSourceCodes/TestUnits/TestUnits/critsect.h:949 | with 2^31 + 1 writers allowed, a run ends with a reader past the gate before a writer that had asked |
| `WriterPreferenceLimits.ExclusionLimits` | CPPSourceCodes/TestUnits/TestUnits/critsect.h:944-992 | under limits on readers and writers the lock excludes exactly if fewer than 2^31 readers are allowed, or no writer |
| `WriterPreferenceLimits.TicketLimits` | CPPSourceCodes/TestUnits/TestUnits/critsect.h:966-975 | one writer at a time is past the ticket gate exactly if at most 2^32 writers are allowed |
| `WriterPreferenceLimits.GateLimits` | CPPSourceCodes/TestUnits/TestUnits/critsect.h:949-952 | writers go first exactly if at most 2^31 writers are allowed |
| `WriterPreferenceLock.ReaderWriterLockWP.LoadFirst` | CPPSourceCodes/TestUnits/TestUnits/critsect.h:949 | the first gate load is a step of the machine |
| `WriterPreferenceLock.ReaderWriterLockWP.LoadSecond` | CPPSourceCodes/TestUnits/TestUnits/critsect.h:949 | the second load passes exactly when the two counts of writers agree modulo 2^32; then all writers that had asked at the first are done |
| `WriterPreferenceLock.ReaderWriterLockWP.AddReader` | CPPSourceCodes/TestUnits/TestUnits/critsect.h:954 | registration and EndRead are steps of the machine |
| `WriterPreferenceLock.ReaderWriterLockWP.PollFlag` | CPPSourceCodes/TestUnits/TestUnits/critsect.h:955 | one flag test enters exactly when no writer is inside |
| `WriterPreferenceLock.ReaderWriterLockWP.TakeTicket` | CPPSourceCodes/TestUnits/TestUnits/critsect.h:966 | the ticket is the number of write requests before it |
| `WriterPreferenceLock.ReaderWriterLockWP.PollGate` | CPPSourceCodes/TestUnits/TestUnits/critsect.h:967 | one test of the writer gate passes exactly when all earlier writers are done |
| `WriterPreferenceLock.ReaderWriterLockWP.TryWrite` | CPPSourceCodes/TestUnits/TestUnits/critsect.h:972 | one compare-and-swap on lock is a step of the machine |
| `WriterPreferenceLock.ReaderWriterLockWP.EndWrite` | CPPSourceCodes/TestUnits/TestUnits/critsect.h:987-992 | each of the two statements of EndWrite is a step of the machine |
| `RefCountSpec.Extends` | CPPSourceCodes/TestUnits/TestUnits/critsect.h:576-622 | an operation extends a legal history exactly when it returns what the atomic counter gives at that point |
| `RefCountSpec.CountsWhileAlive` | CPPSourceCodes/TestUnits/TestUnits/critsect.h:576-622 | as long as the count has not reached 0 it is what it was, plus the RefAdds, minus the RefDecs |
| `RefCountSpec.NeverResurrected` | CPPSourceCodes/TestUnits/TestUnits/critsect.h:588-591 | in a legal history every operation after the count has reached 0 returns 0 and leaves 0 |
| `RefCount.StepRefines` | CPPSourceCodes/TestUnits/TestUnits/critsect.h:585-621 | a step keeps refcount equal to the atomic counter if and only if it is not a RefAdd that succeeds at LONG_MAX, which stores LONG_MIN |
| `RefCount.Linearizes` | CPPSourceCodes/TestUnits/TestUnits/critsect.h:576-622 | in every run refcount is the counter after a legal history, and every returned value is its entry in that history |
| `RefCount.EffectDuringCall` | CPPSourceCodes/TestUnits/TestUnits/critsect.h:576-622 | from the point where a call begins its thread adds no event, and exactly one by the time it returns: the event it returns |
| `RefCount.FreeCall` | CPPSourceCodes/TestUnits/TestUnits/critsect.h:576-622 | a call with nobody in between adds or takes one and returns the new count, or leaves a dead count and returns 0 |
| `RefCount.FailsOnlyIfOvertaken` | CPPSourceCodes/TestUnits/TestUnits/critsect.h:585-595 | a compare-and-swap fails only after another operation has taken effect since the load |
| `RefCount.ZeroStaysZero` | CPPSourceCodes/TestUnits/TestUnits/critsect.h:576-622 | refcount stays 0 once it is 0, whatever threads were in the middle of |
| `RefCount.OverflowIsReached` | CPPSourceCodes/TestUnits/TestUnits/critsect.h:592-595 | one thread can add until the next RefAdd stores LONG_MIN: such a state ends a run |
| `RefCount.RefCounter.LoadCount` | CPPSourceCodes/TestUnits/TestUnits/critsect.h:587-591 | the load shows the counter, and a dead counter ends the operation with 0 |
| `RefCount.RefCounter.TrySwap` | CPPSourceCodes/TestUnits/TestUnits/critsect.h:592-595 | a successful compare-and-swap is the operation on the atomic counter, or stores LONG_MIN if it is a RefAdd at LONG_MAX; a failed one changes nothing and goes back to the load; it succeeds exactly when the count is the one loaded |
| `RefCountDebug.StepRefines` | CPPSourceCodes/TestUnits/TestUnits/critsect.h:579-608 | the debug build keeps the same refinement under its spin lock, with the same one exception |
| `RefCountDebug.Linearizes` | CPPSourceCodes/TestUnits/TestUnits/critsect.h:579-608 | the debug build linearizes to the same counter |
| `RefCountDebug.EffectDuringCall` | CPPSourceCodes/TestUnits/TestUnits/critsect.h:579-608 | the same for the debug build |
| `RefCountDebug.FreeCall` | CPPSourceCodes/TestUnits/TestUnits/critsect.h:579-608 | a call on a free lock adds or takes one, returns the new count and leaves the lock free |
| `RefCountDebug.SomeThreadAdvances` | CPPSourceCodes/TestUnits/TestUnits/critsect.h:339-359 | as long as somebody is in a call, somebody has a statement that is not a failed Enter |
| `RefCountDebug.OneInside` | CPPSourceCodes/TestUnits/TestUnits/critsect.h:339-359 | at most one thread is between a successful Enter and the store of Leave |
| `RefCountDebug.BuildsAgree` | CPPSourceCodes/TestUnits/TestUnits/critsect.h:576-622 | the two builds store and return the same exactly on counts that are not negative |
| `RefCountDebug.DebugRefCounter.TryEnter` | CPPSourceCodes/TestUnits/TestUnits/critsect.h:344 | one turn of Enter succeeds exactly when nobody is inside, and then lets in this thread alone |
| `RefCountDebug.DebugRefCounter.StoreCount` | CPPSourceCodes/TestUnits/TestUnits/critsect.h:582-607 | the store is the operation on the atomic counter and its result, or LONG_MIN after a RefAdd at LONG_MAX |
| `RefCountDebug.DebugRefCounter.Exit` | CPPSourceCodes/TestUnits/TestUnits/critsect.h:353-359 | the store of 0 is a step of the machine |
| `LockingRefCount.EffectIsAtomic` | CPPSourceCodes/TestUnits/TestUnits/critsect.h:707-801 | each operation, though made of separate loads and stores, changes lock and count in one step and as the atomic operation does |
| `LockingRefCount.StepKeepsInv` | CPPSourceCodes/TestUnits/TestUnits/critsect.h:651-801 | every step keeps the count equal to the references held modulo 2^16 and the spin lock held by the one thread inside |
| `LockingRefCount.StaysLocked` | CPPSourceCodes/TestUnits/TestUnits/critsect.h:707-757 | from Lock on, while no Unlock takes effect, the count stays locked and the references held do not grow |
| `LockingRefCount.DrainedUntilUnlock` | CPPSourceCodes/TestUnits/TestUnits/critsect.h:743-801 | after Lock and then a WaitZeroRef that loaded 0 nobody holds a reference until an Unlock takes effect |
| `LockingRefCount.LockedRefusesIncrements` | CPPSourceCodes/TestUnits/TestUnits/critsect.h:703-718 | while locked an attempt to increment returns FALSE and changes nothing |
| `LockingRefCountLimits.FalseDrain` | CPPSourceCodes/TestUnits/TestUnits/critsect.h:743-801 | with 2^16 references held a drain after Lock is about to load 0 |
| `LockingRefCountLimits.DrainLimit` | CPPSourceCodes/TestUnits/TestUnits/critsect.h:778-801 | under a limit on the references held, a count of 0 means that none is held exactly if the limit is below 2^16 |
| `LockingRefCountCalls.FreeTurn` | CPPSourceCodes/TestUnits/TestUnits/critsect.h:707-801 | a turn on a free spin lock: what becomes of lock, count and references, what the result is, and that only an Increment that found the count locked or a WaitZeroRef that loaded a count other than 0 goes round again |
| `LockingRefCountCalls.FreeCall` | CPPSourceCodes/TestUnits/TestUnits/critsect.h:707-801 | the same from the call on |
| `LockingRefCountCalls.SomeThreadAdvances` | CPPSourceCodes/TestUnits/TestUnits/critsect.h:651-667 | as long as somebody is in a call, somebody can execute a statement that is not a failed LOCKSYNC |
| `LockingRefCountCalls.CallReturns` | CPPSourceCodes/TestUnits/TestUnits/critsect.h:707-801 | over runs with any interleaving a call that returns had its effect in one step between call and return, with the result and the references to match, and did not return from a failed turn |
| `LockingRefCountCalls.IncrementReturns` | CPPSourceCodes/TestUnits/TestUnits/critsect.h:723-731 | an Increment that returns has raised the references of its thread by exactly one, while the count was unlocked |
| `LockingRefCountCalls.TryIncrementReturns` | CPPSourceCodes/TestUnits/TestUnits/critsect.h:703-718 | TryIncrement returns TRUE with one reference more exactly if the count was unlocked at its effect, otherwise FALSE with none more |
| `LockingRefCountCalls.WaitReturns` | CPPSourceCodes/TestUnits/TestUnits/critsect.h:793-801 | a WaitZeroRef that returns loaded a count of 0 between call and return |
| `LockingRefCountCalls.WaitReturnsDrained` | CPPSourceCodes/TestUnits/TestUnits/critsect.h:743-801 | a WaitZeroRef called after Lock returns, if no Unlock took effect, with no reference held by anybody |
| `LockingRefCount.LockingRefCounter.TrySync` | CPPSourceCodes/TestUnits/TestUnits/critsect.h:655 | one turn of LOCKSYNC succeeds exactly when nobody is inside, and then lets in this thread alone |
| `LockingRefCount.LockingRefCounter.Load` | CPPSourceCodes/TestUnits/TestUnits/critsect.h:713-739 | the loads under the lock are steps of the machine |
| `LockingRefCount.LockingRefCounter.WriteCount` | CPPSourceCodes/TestUnits/TestUnits/critsect.h:714-739 | the store of the count has the effect of the atomic operation |
| `LockingRefCount.LockingRefCounter.WriteLock` | CPPSourceCodes/TestUnits/TestUnits/critsect.h:752-771 | the store of m_lock, and whether it was locked before |
| `LockingRefCount.LockingRefCounter.ReadCount` | CPPSourceCodes/TestUnits/TestUnits/critsect.h:784 | RefCount reports exactly the references held while they are fewer than 2^16 |
| `LockingRefCount.LockingRefCounter.ReleaseSync` | CPPSourceCodes/TestUnits/TestUnits/critsect.h:661-667 | the store of 0 is a step of the machine |
| `Rfc3629.EncodeMeans` | CPPSourceCodes/TestUnitsNew/utf8_v2_3_4/source/utf8/checked.h:73-96 | section 3 of RFC 3629: the encoding of a scalar value is a character of section 4 and means that value |
| `Rfc3629.MeaningEncodes` | CPPSourceCodes/TestUnitsNew/utf8_v2_3_4/source/utf8/checked.h:73-96 | every character of the grammar means a scalar value and is its encoding |
| `Utf8Text.WellFormedIsConcatenation` | CPPSourceCodes/TestUnitsNew/utf8_v2_3_4/source/utf8/core.h:287-303 | well-formed octet strings are exactly the concatenations of characters of section 4 of RFC 3629 |
| `Utf8Text.HeadIsUnique` | CPPSourceCodes/TestUnitsNew/utf8_v2_3_4/source/utf8/core.h:98-113 | at most one character stands at the head of a string |
| `Utf8Text.DecodeThenEncode` | CPPSourceCodes/TestUnitsNew/utf8_v2_3_4/source/utf8/checked.h:248-264 | encoding the code points of a text gives the text back, and they are scalar values |
| `Utf8Text.EncodeThenDecode` | CPPSourceCodes/TestUnitsNew/utf8_v2_3_4/source/utf8/checked.h:248-264 | decoding an encoding of scalar values gives them back |
| `Utf8Text.ConcatWellFormed` | CPPSourceCodes/TestUnitsNew/utf8_v2_3_4/source/utf8/core.h:287-297 | what follows a text decides whether the whole is one, and code points concatenate |
| `Utf8Core.Check2` | CPPSourceCodes/TestUnitsNew/utf8_v2_3_4/source/utf8/core.h:164-176 | the arithmetic of get_sequence_2 gives the value of the grammar, and the overlong test is true exactly outside it |
| `Utf8Core.Check3` | CPPSourceCodes/TestUnitsNew/utf8_v2_3_4/source/utf8/core.h:179-195 | the same for three octets; the value is refused exactly for surrogates |
| `Utf8Core.Check4` | CPPSourceCodes/TestUnitsNew/utf8_v2_3_4/source/utf8/core.h:198-218 | the same for four octets; the value is refused exactly for surrogates and beyond U+10FFFF |
| `Utf8Core.FaultExact` | CPPSourceCodes/TestUnitsNew/utf8_v2_3_4/source/utf8/core.h:223-272 | no fault is found exactly when a character of the grammar stands at the head |
| `Utf8Core.ValueChecks` | CPPSourceCodes/TestUnitsNew/utf8_v2_3_4/source/utf8/core.h:253-267 | with all tails present the two value checks leave exactly the characters and report which rule is broken |
| `Utf8Core.IncreaseSafely` | CPPSourceCodes/TestUnitsNew/utf8_v2_3_4/source/utf8/core.h:138-147 | moves one octet and says whether the string ended, a tail stands there, or something else |
| `Utf8Core.GetSequence2` | CPPSourceCodes/TestUnitsNew/utf8_v2_3_4/source/utf8/core.h:164-176 | reports a missing tail or the end exactly, and otherwise the value |
| `Utf8Core.GetSequence3` | CPPSourceCodes/TestUnitsNew/utf8_v2_3_4/source/utf8/core.h:179-195 | reports a missing tail or the end exactly, and otherwise the value |
| `Utf8Core.GetSequence4` | CPPSourceCodes/TestUnitsNew/utf8_v2_3_4/source/utf8/core.h:198-218 | reports a missing tail or the end exactly, and otherwise the value |
| `Utf8Core.ValidateNext` | CPPSourceCodes/TestUnitsNew/utf8_v2_3_4/source/utf8/core.h:223-272 | succeeds exactly on a character, passes it and reads its meaning; otherwise reports the fault and leaves both references as they were |
| `Utf8Core.FindInvalid` | CPPSourceCodes/TestUnitsNew/utf8_v2_3_4/source/utf8/core.h:288-297 | returns the end of the longest well-formed prefix |
| `Utf8Core.IsValid` | CPPSourceCodes/TestUnitsNew/utf8_v2_3_4/source/utf8/core.h:300-303 | true exactly for concatenations of characters of RFC 3629 |
| `Utf8Checked.Append` | CPPSourceCodes/TestUnitsNew/utf8_v2_3_4/source/utf8/checked.h:73-96 | appends the encoding of RFC 3629 of a scalar value and throws with the value on anything else |
| `Utf8Checked.Next` | CPPSourceCodes/TestUnitsNew/utf8_v2_3_4/source/utf8/checked.h:137-154 | throws exactly when no character stands at the iterator, and which exception; an invalid code point is always reported as 0 |
| `Utf8Checked.Prior` | CPPSourceCodes/TestUnitsNew/utf8_v2_3_4/source/utf8/checked.h:163-175 | every outcome: nothing before, only tails before, a fault at the nearest lead, or its code point; the iterator has moved back even when it throws |
| `Utf8Checked.PriorUndoesNext` | CPPSourceCodes/TestUnitsNew/utf8_v2_3_4/source/utf8/checked.h:137-175 | from any boundary, prior after next returns to the same position and reads the same character |
| `Utf8Checked.LastCharacter` | CPPSourceCodes/TestUnitsNew/utf8_v2_3_4/source/utf8/checked.h:163-175 | every non-empty text ends in a character after a text |
| `Utf8Checked.LastCharacterAt` | CPPSourceCodes/TestUnitsNew/utf8_v2_3_4/source/utf8/checked.h:170-175 | in a text the octets from the nearest lead on are its last character |
| `Utf8Checked.PriorReadsTheCharacter` | CPPSourceCodes/TestUnitsNew/utf8_v2_3_4/source/utf8/checked.h:163-175 | when prior succeeds, it has read a character that ends at the old position exactly if there is one |
| `Utf8Checked.TextIsTight` | CPPSourceCodes/TestUnitsNew/utf8_v2_3_4/source/utf8/checked.h:163-175 | a range is a text exactly if, cut before every octet that is no tail, each piece is a character |
| `Utf8Checked.ReadBackwards` | CPPSourceCodes/TestUnitsNew/utf8_v2_3_4/source/utf8/checked.h:163-175 | calling prior from the end succeeds exactly if each of those pieces begins with a character; on a text it reads the code points in reverse, and otherwise what it read encodes to fewer octets |
| `Utf8Checked.PriorSkipsStrayTail` | CPPSourceCodes/TestUnitsNew/utf8_v2_3_4/source/utf8/checked.h:170-175 | a letter and a stray tail: prior reads the letter, although the two are no text |
| `Utf8Faults.FaultOf` | CPPSourceCodes/TestUnitsNew/utf8_v2_3_4/source/utf8/core.h:223-272 | each fault in terms of the octets: a stray octet at the head, an announced sequence cut off by the end, one broken by an octet that is no tail, bits that mean no scalar value, or an overlong form, each exactly |
| `Utf8Faults.NextThrowsExactly` | CPPSourceCodes/TestUnitsNew/utf8_v2_3_4/source/utf8/checked.h:137-154 | next throws not_enough_room exactly where a lead announces more octets than there are and only tails follow; invalid_code_point(0) exactly where all tails are there and the bits mean a surrogate or more than U+10FFFF; and otherwise invalid_utf8 of the first octet |
| `Utf8Repair.StrayGivesOneMark` | CPPSourceCodes/TestUnitsNew/utf8_v2_3_4/source/utf8/checked.h:111-114 | an octet that announces no length gives one mark of its own |
| `Utf8Repair.LeadGivesOneMark` | CPPSourceCodes/TestUnitsNew/utf8_v2_3_4/source/utf8/checked.h:115-124 | a lead that with the tails behind it forms no character gives one mark for itself and all those tails, and repair goes on at the next octet that is no tail |
| `Utf8Repair.MarkOctets` | CPPSourceCodes/TestUnitsNew/utf8_v2_3_4/source/utf8/checked.h:130-134 | the default mark is EF BF BD, and two stray octets give two of them |
| `Utf8Repair.ReplaceInvalid` | CPPSourceCodes/TestUnitsNew/utf8_v2_3_4/source/utf8/checked.h:99-127 | writes exactly the repaired text, one mark for each fault, or throws on a truncated end or a bad replacement |
| `Utf8Repair.ReplaceInvalidByMarker` | CPPSourceCodes/TestUnitsNew/utf8_v2_3_4/source/utf8/checked.h:130-134 | with U+FFFD it throws exactly on a truncated end, keeps text as it is and otherwise appends well-formed octets |
| `Utf8Repair.RepairedIsWellFormed` | CPPSourceCodes/TestUnitsNew/utf8_v2_3_4/source/utf8/checked.h:99-127 | whatever goes in, what comes out is well-formed |
| `Utf8Repair.RepairKeepsText` | CPPSourceCodes/TestUnitsNew/utf8_v2_3_4/source/utf8/checked.h:104-108 | a well-formed beginning is copied; so repair is the identity on text |
| `Utf8Repair.RepairIsIdempotent` | CPPSourceCodes/TestUnitsNew/utf8_v2_3_4/source/utf8/checked.h:99-127 | repairing twice is repairing once, also with another replacement the second time |
| `Utf8Repair.RepairThrows` | CPPSourceCodes/TestUnitsNew/utf8_v2_3_4/source/utf8/checked.h:109-111 | it fails exactly when the input ends in a lead with too few tails, and, if the replacement is no scalar value, on all that is not well-formed |
| `Utf16Text.DecodeThenEncode16` | CPPSourceCodes/TestUnitsNew/utf8_v2_3_4/source/utf8/checked.h:207-246 | encoding the code points of a UTF-16 text of RFC 2781 gives the units back |
| `Utf16Text.EncodeThenDecode16` | CPPSourceCodes/TestUnitsNew/utf8_v2_3_4/source/utf8/checked.h:207-246 | decoding the units of scalar values gives them back |
| `Utf8Conversions.Distance` | CPPSourceCodes/TestUnitsNew/utf8_v2_3_4/source/utf8/checked.h:198-204 | counts the code points of a text, throws exactly on anything else, and is 0 on an empty or reversed range |
| `Utf8Conversions.DistanceAdds` | CPPSourceCodes/TestUnitsNew/utf8_v2_3_4/source/utf8/checked.h:198-204 | distance adds up over any boundary |
| `Utf8Conversions.Advance` | CPPSourceCodes/TestUnitsNew/utf8_v2_3_4/source/utf8/checked.h:190-194 | passes n code points, or throws at the first octet that starts no character |
| `Utf8Conversions.Utf32To8` | CPPSourceCodes/TestUnitsNew/utf8_v2_3_4/source/utf8/checked.h:249-255 | writes the encodings up to the first value that is no scalar value, and throws exactly there |
| `Utf8Conversions.Utf8To32` | CPPSourceCodes/TestUnitsNew/utf8_v2_3_4/source/utf8/checked.h:258-264 | writes the code points up to the first octet that starts no character, and throws exactly there |
| `Utf8Conversions.Offsets` | CPPSourceCodes/TestUnitsNew/utf8_v2_3_4/source/utf8/core.h:52-53 | the two offsets as the source computes them, modulo 2^32 |
| `Utf8Conversions.UnpairedUnit` | CPPSourceCodes/TestUnitsNew/utf8_v2_3_4/source/utf8/checked.h:207-228 | invalid_utf16 carries the unit that stands where a trail was due, or the lead that ends the input |
| `Utf8Conversions.LoneTrail` | CPPSourceCodes/TestUnitsNew/utf8_v2_3_4/source/utf8/checked.h:207-228 | invalid_utf16 carries a trail that has no lead before it |
| `Utf8Conversions.JoinedMeans` | CPPSourceCodes/TestUnitsNew/utf8_v2_3_4/source/utf8/checked.h:213-216 | the sum with SURROGATE_OFFSET, modulo 2^32, is the code point of section 2.2 of RFC 2781 |
| `Utf8Conversions.PutUnits` | CPPSourceCodes/TestUnitsNew/utf8_v2_3_4/source/utf8/checked.h:238-243 | the units written are those of section 2.1 of RFC 2781 |
| `Utf8Conversions.Utf8To16` | CPPSourceCodes/TestUnitsNew/utf8_v2_3_4/source/utf8/checked.h:234-246 | writes the UTF-16 of the well-formed prefix, and throws exactly on what is not UTF-8 |
| `Utf8Conversions.TakeUnits` | CPPSourceCodes/TestUnitsNew/utf8_v2_3_4/source/utf8/checked.h:210-228 | takes a unit or a pair, and throws exactly on an unpaired surrogate, with the unit it reports |
| `Utf8Conversions.Utf16To8` | CPPSourceCodes/TestUnitsNew/utf8_v2_3_4/source/utf8/checked.h:207-231 | writes the UTF-8 of the well-formed prefix, and throws exactly on ill-formed UTF-16 |
| `Utf8Conversions.Utf32RoundTrips` | CPPSourceCodes/TestUnitsNew/utf8_v2_3_4/source/utf8/checked.h:248-264 | utf8to32 and utf32to8 undo each other on all texts and all sequences of scalar values |
| `Utf8Conversions.Utf8Utf16Utf8` | CPPSourceCodes/TestUnitsNew/utf8_v2_3_4/source/utf8/checked.h:206-246 | utf16to8 after utf8to16 gives back every UTF-8 text |
| `Utf8Conversions.Utf16Utf8Utf16` | CPPSourceCodes/TestUnitsNew/utf8_v2_3_4/source/utf8/checked.h:206-246 | utf8to16 after utf16to8 gives back every UTF-16 text |
| `Utf8Conversions.ConversionsAreInjective` | CPPSourceCodes/TestUnitsNew/utf8_v2_3_4/source/utf8/checked.h:206-264 | different texts convert to different results |
| `Utf8Conversions.ThereAndBack` | CPPSourceCodes/TestUnitsNew/utf8_v2_3_4/source/utf8/checked.h:206-246 | the two procedures, run one after the other, restore the text and throw exactly on ill-formed input |
| `Utf8Unchecked.Append` | CPPSourceCodes/TestUnitsNew/utf8_v2_3_4/source/utf8/unchecked.h:38-57 | appends the octets of any value, also of one that is no scalar value |
| `Utf8Unchecked.Next` | CPPSourceCodes/TestUnitsNew/utf8_v2_3_4/source/utf8/unchecked.h:61-89 | reads as many octets as the lead announces and their raw value, whatever the octets are |
| `Utf8Unchecked.ReadsCharacter` | CPPSourceCodes/TestUnitsNew/utf8_v2_3_4/source/utf8/unchecked.h:61-89 | on a character the announced length and the raw value are its length and meaning |
| `Utf8Unchecked.NextCharacter` | CPPSourceCodes/TestUnitsNew/utf8_v2_3_4/source/utf8/unchecked.h:61-89 | on a character next moves by its length and returns its meaning |
| `Utf8Unchecked.Prior` | CPPSourceCodes/TestUnitsNew/utf8_v2_3_4/source/utf8/unchecked.h:98-103 | goes to the nearest octet that is not a tail and reads there |
| `Utf8Unchecked.Distance` | CPPSourceCodes/TestUnitsNew/utf8_v2_3_4/source/utf8/unchecked.h:121-127 | counts the code points of a text |
| `Utf8Unchecked.Advance` | CPPSourceCodes/TestUnitsNew/utf8_v2_3_4/source/utf8/unchecked.h:113-117 | passes n code points of a text |
| `Utf8Unchecked.Utf16To8` | CPPSourceCodes/TestUnitsNew/utf8_v2_3_4/source/utf8/unchecked.h:130-142 | converts any UTF-16 text |
| `Utf8Unchecked.Utf8To16` | CPPSourceCodes/TestUnitsNew/utf8_v2_3_4/source/utf8/unchecked.h:145-157 | converts any UTF-8 text |
| `Utf8Unchecked.Utf32To8` | CPPSourceCodes/TestUnitsNew/utf8_v2_3_4/source/utf8/unchecked.h:160-166 | appends the octets of all values |
| `Utf8Unchecked.Utf8To32` | CPPSourceCodes/TestUnitsNew/utf8_v2_3_4/source/utf8/unchecked.h:169-175 | gives the code points of any UTF-8 text |
| `Utf8Unchecked.PriorCharacter` | CPPSourceCodes/TestUnitsNew/utf8_v2_3_4/source/utf8/unchecked.h:98-103 | from the end of every text prior lands on its last character and returns its meaning |
| `Utf8Unchecked.NextAgrees` | CPPSourceCodes/TestUnitsNew/utf8_v2_3_4/source/utf8/unchecked.h:61-89 | on every character: same value, same position, and the checked form does not throw |
| `Utf8Unchecked.PriorAgrees` | CPPSourceCodes/TestUnitsNew/utf8_v2_3_4/source/utf8/unchecked.h:98-103 | from the end of every text: same value and position as the checked form |
| `Utf8Unchecked.TextOperationsAgree` | CPPSourceCodes/TestUnitsNew/utf8_v2_3_4/source/utf8/unchecked.h:121-175 | distance, utf8to16 and utf8to32 equal the checked forms on every text |
| `Utf8Unchecked.ConversionsToUtf8Agree` | CPPSourceCodes/TestUnitsNew/utf8_v2_3_4/source/utf8/unchecked.h:130-166 | utf16to8 and utf32to8 equal the checked forms on every UTF-16 text and all scalar values |
| `Utf8Unchecked.AdvanceAgrees` | CPPSourceCodes/TestUnitsNew/utf8_v2_3_4/source/utf8/unchecked.h:113-117 | advance ends where the checked form ends |
| `Utf8Unchecked.AppendAgrees` | CPPSourceCodes/TestUnitsNew/utf8_v2_3_4/source/utf8/unchecked.h:38-57 | append equals the checked form exactly on the scalar values |
| `Utf8Iterator.CheckedIterator.Create` | CPPSourceCodes/TestUnitsNew/utf8_v2_3_4/source/utf8/checked.h:274-282 | fails exactly when the position lies outside the range |
| `Utf8Iterator.CheckedIterator.Deref` | CPPSourceCodes/TestUnitsNew/utf8_v2_3_4/source/utf8/checked.h:284-288 | reads the code point at the position, or throws what next throws |
| `Utf8Iterator.CheckedIterator.Equals` | CPPSourceCodes/TestUnitsNew/utf8_v2_3_4/source/utf8/checked.h:289-294 | fails exactly for other octets or another range, and otherwise compares positions |
| `Utf8Iterator.CheckedIterator.Increment` | CPPSourceCodes/TestUnitsNew/utf8_v2_3_4/source/utf8/checked.h:299-303 | passes a character, or throws and stays |
| `Utf8Iterator.CheckedIterator.Decrement` | CPPSourceCodes/TestUnitsNew/utf8_v2_3_4/source/utf8/checked.h:310-314 | goes to the nearest octet that is not a tail, also when it throws, and throws exactly when no character stands at the head of the octets from there to the old position |
| `Utf8Iterator.CheckedIterator.ForthAndBack` | CPPSourceCodes/TestUnitsNew/utf8_v2_3_4/source/utf8/checked.h:299-314 | -- after ++ comes back |
| `Utf8Iterator.CheckedIterator.BackAndForth` | CPPSourceCodes/TestUnitsNew/utf8_v2_3_4/source/utf8/checked.h:299-314 | ++ after -- comes back |
| `Utf8Iterator.UncheckedIterator.Deref` | CPPSourceCodes/TestUnitsNew/utf8_v2_3_4/source/utf8/unchecked.h:186-190 | reads the code point of any character |
| `Utf8Iterator.UncheckedIterator.Increment` | CPPSourceCodes/TestUnitsNew/utf8_v2_3_4/source/utf8/unchecked.h:199-203 | advances by the announced length, which is the length of any character |
| `Utf8Iterator.UncheckedIterator.Decrement` | CPPSourceCodes/TestUnitsNew/utf8_v2_3_4/source/utf8/unchecked.h:210-214 | goes to the nearest octet that is not a tail |
| `Utf8Iterator.MovesAsNext` | CPPSourceCodes/TestUnitsNew/utf8_v2_3_4/source/utf8/unchecked.h:199-203 | ++ moves as unchecked next does exactly on octets up to 7F and from C0 to F7; on the others it stays and next moves by one |
| `Utf8Iterator.IncrementsAgree` | CPPSourceCodes/TestUnitsNew/utf8_v2_3_4/source/utf8/unchecked.h:199-203 | ++ of both classes ends at the same place on every character |
| `Utf8Iterator.DecrementsAgree` | CPPSourceCodes/TestUnitsNew/utf8_v2_3_4/source/utf8/unchecked.h:210-214 | -- of both classes ends at the same place from the end of every text |
| `ChatMessage.PrintThenRead` | CPPSourceCodes/TestUnits/TestUnits/Boost/chat_message.hpp:66-86 | atoi reads back what %4d prints, for every number |
| `ChatMessage.PaddedPrints` | CPPSourceCodes/TestUnits/TestUnits/Boost/chat_message.hpp:83-85 | the header of any number that fits is, octet by octet, some octets 32 and then up to its end the digits of the number without a leading zero |
| `ChatMessage.HeaderRoundTrip` | CPPSourceCodes/TestUnits/TestUnits/Boost/chat_message.hpp:66-86 | of all numbers that fit the header exactly those up to 512 come back from decode_header |
| `ChatMessage.AtoiIsSmall` | CPPSourceCodes/TestUnits/TestUnits/Boost/chat_message.hpp:69-72 | four characters cannot leave the range of int, so only a sign makes the size_t huge |
| `ChatMessage.ShapeReads` | CPPSourceCodes/TestUnits/TestUnits/Boost/chat_message.hpp:69-72 | how a header of blanks, sign, digits and a rest is read |
| `ChatMessage.AnnouncedExactly` | CPPSourceCodes/TestUnits/TestUnits/Boost/chat_message.hpp:66-78 | a header announces n exactly if it reads as blanks, an optional sign, digits of value n up to 512, and a rest that does not go on with a digit; behind a minus only 0 is accepted |
| `ChatMessage.NoNumberIsAnEmptyBody` | CPPSourceCodes/TestUnits/TestUnits/Boost/chat_message.hpp:69-77 | a header is accepted with an empty body exactly if its digits, perhaps none, are all 0 |
| `ChatMessage.FramesOfFrames` | CPPSourceCodes/TestUnits/TestUnits/Boost/AsioChatServer.cpp:127-156 | frames put one after the other are read as they were, however the stream goes on |
| `ChatMessage.FramingRoundTrip` | CPPSourceCodes/TestUnits/TestUnits/Boost/chat_message.hpp:66-86 | any sequence of bodies of up to 512 octets, encoded and read by the header and body loop, comes out as it went in |
| `ChatMessage.ForwardedIsPrefix` | CPPSourceCodes/TestUnits/TestUnits/Boost/AsioChatServer.cpp:127-156 | of any received stream the frames forwarded are a beginning, and the rest holds no complete frame |
| `ChatMessage.FramesOnlyGrow` | CPPSourceCodes/TestUnits/TestUnits/Boost/AsioChatServer.cpp:127-156 | octets that arrive later never change what was read before |
| `ChatMessage.Message.Length` | CPPSourceCodes/TestUnits/TestUnits/Boost/chat_message.hpp:39-42 | the length of the message in its buffer |
| `ChatMessage.Message.SetBodyLength` | CPPSourceCodes/TestUnits/TestUnits/Boost/chat_message.hpp:59-64 | the length is cut to 512 |
| `ChatMessage.Message.DecodeHeader` | CPPSourceCodes/TestUnits/TestUnits/Boost/chat_message.hpp:66-78 | accepts exactly the headers whose number is in 0 .. 512; body_length_ never exceeds 512 |
| `ChatMessage.Message.EncodeHeader` | CPPSourceCodes/TestUnits/TestUnits/Boost/chat_message.hpp:80-86 | writes blanks and then, up to the fourth octet, the decimal digits of the body length without a leading zero, and leaves the body alone |
| `ChatMessage.Message.EncodeThenDecode` | CPPSourceCodes/TestUnits/TestUnits/Boost/chat_message.hpp:66-86 | encode then decode keeps body_length_ and makes the buffer the frame of its body |
| `ChatProtocol.PushKeeps` | CPPSourceCodes/TestUnits/TestUnits/Boost/AsioChatServer.cpp:113-125 | a message handed to the joined sessions extends the window of each, and leaves the windows of those gone |
| `ChatProtocol.StepKeepsInv` | CPPSourceCodes/TestUnits/TestUnits/Boost/AsioChatServer.cpp:54-176 | every handler keeps history, windows, queues, writes in flight and streams consistent |
| `ChatTheorems.Delivery` | CPPSourceCodes/TestUnits/TestUnits/Boost/AsioChatServer.cpp:57-77 | in every run a session is handed the last min(100, n) of the n messages before its join and then every message until it leaves |
| `ChatTheorems.OneWriteInFlight` | CPPSourceCodes/TestUnits/TestUnits/Boost/AsioChatServer.cpp:113-176 | completed writes and the queue are what was handed; one write is in flight exactly when the queue is not empty, until a write fails; a session is in the room exactly while no write has failed and its reads have not stopped |
| `ChatTheorems.HistoryAndSenders` | CPPSourceCodes/TestUnits/TestUnits/Boost/AsioChatServer.cpp:69-77 | the room remembers the last 100 messages, and the messages of each session keep its order |
| `ChatTheorems.ForwardedAreFrames` | CPPSourceCodes/TestUnits/TestUnits/Boost/AsioChatServer.cpp:127-156 | what is forwarded for a session are the frames of what it received |
| `ChatTheorems.EndToEnd` | CPPSourceCodes/TestUnits/TestUnits/Boost/AsioChatServer.cpp:127-156 | of a client that sends encoded bodies the room gets the first ones in order, and all once the server has read everything |
| `ChatTheorems.HeaderDecides` | CPPSourceCodes/TestUnits/TestUnits/Boost/AsioChatServer.cpp:127-140 | a header read without an error and of the shape of an announcement makes the session await a body and changes nothing else; otherwise its reads stop and it leaves |
| `ChatTheorems.BodyErrorLeaves` | CPPSourceCodes/TestUnits/TestUnits/Boost/AsioChatServer.cpp:142-156 | an error on the read of a body stops the reads, leaves the room and sends nothing |
| `ChatTheorems.FailedQueueStays` | CPPSourceCodes/TestUnits/TestUnits/Boost/AsioChatServer.cpp:158-175 | after a failed write, at any later point of a run, the queue is the same, nothing more is written and nothing more is handed over |
| `ChatTheorems.FailedWriteKeepsReading` | CPPSourceCodes/TestUnits/TestUnits/Boost/AsioChatServer.cpp:172-175 | a failed write leaves the room and does not touch the read of the session |
| `ChatTheorems.ReadsGoOn` | CPPSourceCodes/TestUnits/TestUnits/Boost/AsioChatServer.cpp:127-156 | joined or not, a session has a read outstanding exactly as long as its reads have not stopped |
| `ChatTheorems.BodyIsSent` | CPPSourceCodes/TestUnits/TestUnits/Boost/AsioChatServer.cpp:142-150 | a body read without an error is sent, joined or not: it is the last message, and exactly the joined sessions are handed it |
| `ChatTheorems.StillSends` | CPPSourceCodes/TestUnits/TestUnits/Boost/AsioChatServer.cpp:127-150 | a session that awaits a header, joined or not, can still send every message |
| `ChatTheorems.ReachableStep` | CPPSourceCodes/TestUnits/TestUnits/Boost/AsioChatServer.cpp:127-176 | a step from a state that a run reaches leads to one that a run reaches |
| `ChatTheorems.RunContinues` | CPPSourceCodes/TestUnits/TestUnits/Boost/AsioChatServer.cpp:54-176 | nothing sent, written or forwarded is taken back later in a run, and who has left, failed or stopped stays so |
| `ChatTheorems.QueueDrains` | CPPSourceCodes/TestUnits/TestUnits/Boost/AsioChatServer.cpp:158-171 | as many successful writes as there are queued messages bring a session up to date |
| `ChatServer.ChatSession.Deliver` | CPPSourceCodes/TestUnits/TestUnits/Boost/AsioChatServer.cpp:113-125 | queues the message and starts a write exactly if the queue was empty |
| `ChatServer.ChatSession.Start` | CPPSourceCodes/TestUnits/TestUnits/Boost/AsioChatServer.cpp:103-111 | the session is handed the recent messages and awaits a header |
| `ChatServer.ChatSession.HandleReadHeader` | CPPSourceCodes/TestUnits/TestUnits/Boost/AsioChatServer.cpp:127-140 | awaits the announced body, or leaves |
| `ChatServer.ChatSession.HandleReadBody` | CPPSourceCodes/TestUnits/TestUnits/Boost/AsioChatServer.cpp:142-156 | sends the message to every participant and awaits a header, or leaves |
| `ChatServer.ChatSession.HandleWrite` | CPPSourceCodes/TestUnits/TestUnits/Boost/AsioChatServer.cpp:158-176 | drops the written message and starts the next write, or leaves with the queue as it is |
| `ChatServer.ChatRoom.Join` | CPPSourceCodes/TestUnits/TestUnits/Boost/AsioChatServer.cpp:57-62 | the newcomer is handed all recent messages in order |
| `ChatServer.ChatRoom.Leave` | CPPSourceCodes/TestUnits/TestUnits/Boost/AsioChatServer.cpp:64-67 | the participant is gone |
| `ChatServer.ChatRoom.Deliver` | CPPSourceCodes/TestUnits/TestUnits/Boost/AsioChatServer.cpp:69-77 | the message is remembered, the oldest is forgotten beyond 100, and every participant is handed it once |
| `ChatServer.ChatServer.HandleAccept` | CPPSourceCodes/TestUnits/TestUnits/Boost/AsioChatServer.cpp:208-217 | an accepted session is the step Start of the machine; an error changes nothing |
| `ChatServer.ChatServer.Promises` | CPPSourceCodes/TestUnits/TestUnits/Boost/AsioChatServer.cpp:54-176 | what the objects promise after any run of handlers: history, delivery, writes in flight and membership |
| `ChatServer.ChatServer.HeaderRead` | CPPSourceCodes/TestUnits/TestUnits/Boost/AsioChatServer.cpp:127-140 | the handler, on the objects, is the step ReadHeader of the machine |
| `ChatServer.ChatServer.BodyRead` | CPPSourceCodes/TestUnits/TestUnits/Boost/AsioChatServer.cpp:142-156 | the handler, on the objects, is the step ReadBody of the machine |
| `ChatServer.ChatServer.Written` | CPPSourceCodes/TestUnits/TestUnits/Boost/AsioChatServer.cpp:158-176 | the handler, on the objects, is the step Write of the machine |
| `BitBuff.WriteBit` | CPPSourceCodes/TestUnitsNew/TestUnitsNew/bytebuffer.cpp:105-109 | a write changes its own bit and no other, in use or spare |
| `BitBuff.Layout` | CPPSourceCodes/TestUnitsNew/TestUnitsNew/bytebuffer.cpp:84-91 | octet k is the number whose binary digits are the bits 8k to 8k + 7, the first counting 1 |
| `BitBuff.SameBuffer` | CPPSourceCodes/TestUnitsNew/TestUnitsNew/bytebuffer.cpp:23-28 | buffers with the same bits are the same |
| `BitBuff.WriteBack` | CPPSourceCodes/TestUnitsNew/TestUnitsNew/bytebuffer.cpp:96-112 | writing back the bit that was there restores the whole buffer |
| `BitBuff.WritesCommute` | CPPSourceCodes/TestUnitsNew/TestUnitsNew/bytebuffer.cpp:96-112 | writes to different bits can be exchanged, and of two writes to one bit the second counts |
| `BitBuff.ExportAfterImport` | CPPSourceCodes/TestUnitsNew/TestUnitsNew/bytebuffer.cpp:46-74 | an export after an import gives back every 0 and 1, and the old bit elsewhere |
| `BitBuff.ImportOfExport` | CPPSourceCodes/TestUnitsNew/TestUnitsNew/bytebuffer.cpp:46-74 | importing an export gives the exported bits, so importing one's own export changes nothing |
| `BitBuff.ImportedBits` | CPPSourceCodes/TestUnitsNew/TestUnitsNew/bytebuffer.cpp:59-74 | an import into the packed buffer is the import into the booleans, and spare bits stay |
| `BitBuff.BufferRefinesBits` | CPPSourceCodes/TestUnitsNew/TestUnitsNew/bytebuffer.cpp:46-112 | under every sequence of set, get and import the packed buffer is the array of booleans, and every set and get reports what it reports there |
| `BitBuff.PerformAll` | CPPSourceCodes/TestUnitsNew/TestUnitsNew/bytebuffer.cpp:46-112 | the same for every sequence of calls on the object |
| `BitBuff.BitBuff.constructor` | CPPSourceCodes/TestUnitsNew/TestUnitsNew/bytebuffer.cpp:30-33 | all bits start as 0 |
| `BitBuff.BitBuff.Get` | CPPSourceCodes/TestUnitsNew/TestUnitsNew/bytebuffer.cpp:77-93 | fails exactly for indices that are negative or too large, and otherwise reports the bit |
| `BitBuff.BitBuff.Set` | CPPSourceCodes/TestUnitsNew/TestUnitsNew/bytebuffer.cpp:96-112 | reports the old bit and changes that bit only; fails and changes nothing for a bad index |
| `BitBuff.BitBuff.SetAndRestore` | CPPSourceCodes/TestUnitsNew/TestUnitsNew/bytebuffer.cpp:96-112 | set, then set with the reported old bit, leaves the buffer as it was |
| `BitBuff.BitBuff.ImportFrom` | CPPSourceCodes/TestUnitsNew/TestUnitsNew/bytebuffer.cpp:59-74 | the import loop on the buffer |
| `BitBuff.BitBuff.ExportTo` | CPPSourceCodes/TestUnitsNew/TestUnitsNew/bytebuffer.cpp:46-57 | the export loop writes the bits as text and a NUL |
| `BitBuff.BitBuff.CopyThroughText` | CPPSourceCodes/TestUnitsNew/TestUnitsNew/bytebuffer.cpp:46-74 | an export of one buffer, imported into another, makes the two agree |

## Left out

- Weak memory, memory barriers, `Sleep` and the back-off of `SpinWait`: memory is sequentially consistent, and a spin loop is its test.
- `CCriticalSection` and its Win32 calls: an abstract mutex in the fair lock.
- The lock bounds are assumptions of the runs, each theorem with a bound of its own. The modules named Limits show that the bounds of exclusion, ticket order, writer preference and the drain cannot be raised; progress and the order of the fair lock are stated within the same bounds, without a run that fails beyond them.
- `Init` and `Free` in the middle of use, the owner and spin statistics of the debug build, the tracker of `CRefCount`, and `GetRef`.
- `CCritSectLite::Try` and the lock on its own: it is modelled as the lock of the debug reference count.
- Each operation of a lock object is a set of methods, one for each statement, which threads call in any order that their positions allow; a method that runs a whole operation would hide the interleavings.
- Fairness of the scheduler: progress is stated as the existence of an advance and bounds on advances.
- `CAutoLock`, `CAutoLeave`, the AutoLocker adapters and `CSingleton`: wrappers without protocol of their own.
- Byte-order-mark helpers, `previous`, `peek_next` as a name of its own, `operator !=` and the postfix operators of the iterators, and iterator categories.
- Input iterators that cannot be copied, and output iterators that fail: an output is the sequence written so far.
- Iterators into different buffers that hold equal octets: an iterator is an index, and two buffers differ by their octets.
- `Utf8Unchecked.Next`: requires that the octets announced lie in the buffer; outside it the source reads other memory.
- `Utf8Unchecked.Distance`: is stated on text only, as are the other unchecked loops, since on anything else they may run past the end.
- `Utf8Checked.Next`: requires that the iterator is not at the end, where the source reads the octet at the end before it looks (core.h:232), outside the range it was given.
- `Utf8Conversions.Advance`: requires that a text has as many code points as asked for; otherwise the source reads the octet at the end.
- Sockets, the accept loop, `io_service`, the console thread: the environment chooses which outstanding operation completes, with which octets and with which error.
- `ChatServer.ChatServer.BodyRead`: hands a message to the participants in any order, where `std::set` has the order of addresses.
- The content of the 516 octets of a message beyond its length, which are copied but never sent.
- Memory exhaustion by unbounded write queues.
- `1 << k` in `BitBuff` is a table of the eight masks; `int` is 32 bits wide and `BITCOUNT` at most 2^31.
- The rest of the repository: other samples, project files and generated code.
