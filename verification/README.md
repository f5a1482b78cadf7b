# Verified model of the MobiCore user-space code

This project models, in Dafny, four parts of the repository's `mobicore` tree and proves properties
of them.

* **The provisioning library.** Messages are frames with a CRC-32 trailer. The model goes from the
  table-driven checksum down to polynomial division over GF(2), has the frame codec, the composer
  and the validator, and the three-state instance (INITIAL, HAVE_SUID, HAVE_AUTHTOK) that answers
  request frames with response frames. MobiCore's answers and the two token callbacks are
  parameters of a step. Modules `Bits`, `Crc32`, `CrcTable`, `Gf2`, `ProvFrame`, `ProvMessages`,
  `ProvProtocol`, `ProvRuns`, `ProvAnswers`, `ProvInstance`.
* **The daemon's concurrency primitives.** A semaphore as an interleaving of any number of threads,
  the notification ring with free-running 32-bit counters, and the connection that turns netlink
  messages into a byte stream. Modules `Semaphore`, `NotificationQueue`, `NetlinkConnection`.
* **The client library and the GlobalPlatform client.** The lists of devices, sessions, bulk-buffer
  descriptors and shared-memory blocks as values (`ClientTables`) and as objects updated in place
  (`ClientLib`); what every sequence of calls keeps (`ClientConservation`, `ClientRoundTrip`), what
  it leaves alone (`ClientFrames`) and what its results tell (`ClientCodes`); the marshalling of an
  operation's parameters and the life of a session object (`GpOperation`, `GpTransfer`, `GpClient`,
  `GpSession`; section 4.5 of the GlobalPlatform TEE Client API Specification v1.0).
* **The registry.** Containers under typed keys, encoded as file names, and the cleanup from the
  root container to service providers to trustlets. Modules `RegistryNames`, `Registry`,
  `RegistryContainers`, `RegistryCleanup`, `RegistryStore`.

Code that computes a value is a function; code that works by changing things is a class or a method
with the source's loops, proved equal to a function, and the properties are proved of the
functions. `Wrappers` and `Words` hold the option type and the source's bytes and words. Failures
from outside (sockets, the daemon, the kernel module, the secure world, the file system, the
scheduler) are parameters: a theorem that quantifies over runs quantifies over all of them.

`dafny verify dfyconfig.toml` checks the project.

## What the code does where its own comments or its intent say otherwise

* A composed error message counts as success (`gdmcdevicebinding.cpp:231`), so the INITIAL state
  takes a failed SUID fetch for a successful one. `ProvRuns.TokenWithoutSuid` gives a run,
  `ProvRuns.SuidFetchedExactly` the exact condition.
* A composed error frame carries the raw size of its text in the header and the aligned size in the
  body, so the library's own validator takes it exactly when the two are equal
  (`ProvFrame.ErrorFrameAccepted`). The message that reports a refused frame is itself refused
  (`ProvProtocol.RefusalRefused`).
* A validation returns GDERROR_PROVISIONING_DONE to the caller of the library whatever it says in the
  message it sends (`ProvAnswers.StepCode`).
* The comments give 124 bytes for an authentication token container; the structures make 152. The
  sizes of the structures are used.
* The timed wait looks at the count once only: it can go below zero as soon as there are two
  waiters or one spurious wakeup (`Semaphore.NonNegativeExactly`).
* A netlink message that arrives while a buffer is held overwrites it, and that buffer is never
  freed; this includes the buffer of a message without payload, which is held until the next message
  or the destructor (`NetlinkConnection.FreedOnceExactly`). Bytes are lost exactly when a message
  overtakes unread ones (`NetlinkConnection.StreamExactly`). The semaphore count drifts up with each
  empty or overtaking message and down with each read that gets past the wait with nothing to read
  (`NetlinkConnection.CountExactly`); at minus one a message that has arrived is not found.
* `MC_DRV_ERR_SOCKET_WRITE`, `MC_DRV_ERR_SOCKET_READ` and `MC_DRV_ERR_DAEMON_UNREACHABLE` are one
  number, so an unmap that the daemon merely refuses closes the device with all its sessions
  (`ClientRoundTrip.DeviceGoneExactly`).
* `mcOpenDevice` returns 1 when the kernel device cannot be opened, because the result passes through
  a bool; 1 is MC_DRV_NO_NOTIFICATION, and its documentation promises another code
  (`ClientTables.OpenDeviceExactly`).
* A refusal by the daemon to close a session comes out as MC_DRV_ERR_UNKNOWN_DEVICE
  (`ClientCodes.CloseSessionCodes`).
* `mcUnmap` finds the handle by secure address and the descriptor by buffer; given the parts of two
  mappings it unmaps one and unregisters the other (`ClientRoundTrip.UnmapAgreesExactly`,
  `ClientRoundTrip.CrossedUnmap`).
* Unwinding a failed setup looks at the return origin that an earlier operation has left in the TCI,
  and at the map information it has left for the parameters not reached; a mapping without a secure
  address cannot be unmapped; and a failed `mcMap` may itself leave a descriptor or a registration.
  What becomes of the mappings, in every case, is `GpOperation.FailedSetupExactly`.
* A reference for both directions into a block that allows only one is accepted
  (`GpTransfer.FlowExactly`), and an application that writes no answer passes for one that does when
  an earlier one has left its origin in the TCI (`GpTransfer.NoAnswerExactly`).
* Opening a session object that is still active forgets the old session and page
  (`GpSession.CleanExactly`).
* A root container shorter than its structure makes the cleanup report success and delete nothing
  (`Registry.ShortRootDoesNothing`, `Registry.RootGoneExactly`).
* Whether a cleanup of the root can succeed at all depends on what is stored
  (`RegistryCleanup.CleanableExactly`): a trustlet that its provider lists twice or that has no
  container, a listed provider without a container, or one with a full container listed twice makes
  every cleanup fail. So a cleanup that fails after removing some container can never be completed by
  calling it again (`RegistryCleanup.RepeatExactly`, `RegistryCleanup.RefusedOnce`).

## Model

| member | source | states |
|---|---|---|
| Crc32.TableStep | mobicore/provlib/src/crc32.c:6-14 | the byte-at-a-time table update is eight single-bit steps of the register, for every register and byte |
| Crc32.RegisterInjective | mobicore/provlib/src/crc32.c:6-14 | two different registers stay different whatever bytes pass through both |
| Crc32.RegisterOfWord | mobicore/provlib/src/crc32.c:6-14 | four little-endian bytes at once are one word xored in and 32 steps |
| Crc32.Residue | mobicore/provlib/src/gdmcdevicebinding.cpp:270-279 | a message ends in its own checksum if and only if the register over the whole of it is one fixed constant |
| Crc32.BurstChangesRegister | mobicore/provlib/src/gdmcdevicebinding.cpp:258-279 | two messages that differ, and only inside some four consecutive bytes, leave different registers |
| CrcTable.Reflect | mobicore/provlib/src/crc32.c:16-29 | the loop returns the argument's low bits in reverse order and nothing else |
| CrcTable.MirrorInvolution | mobicore/provlib/src/crc32.c:16-29 | reversing 32 bits twice is the identity |
| CrcTable.MirrorOfSteps | mobicore/provlib/src/crc32.c:39-46 | reversal turns shifting left with 0x04C11DB7 into shifting right with its reversal, for any number of steps |
| CrcTable.TableEntry | mobicore/provlib/src/crc32.c:32-48 | the entry computed between two reversals is eight steps of the reversed register |
| CrcTable.Table.InitCRCTable | mobicore/provlib/src/crc32.c:32-48 | the nested loops fill all 256 entries so |
| CrcTable.Table.CalcCRC32 | mobicore/provlib/src/crc32.c:6-14 | over the filled table the loop returns the bit-serial checksum of exactly the first length bytes |
| Gf2.RemainderUnique | mobicore/provlib/src/crc32.c:6-48 | a polynomial has at most one remainder of degree below 32 by the generator |
| Gf2.BitStepReduces | mobicore/provlib/src/crc32.c:39-46 | a step of the register is multiplication by x, plus the message bit, modulo the generator |
| Gf2.RegisterDivides | mobicore/provlib/src/crc32.c:6-14 | running the register divides: dividend = quotient * generator + register |
| Gf2.RegisterIsBitwise | mobicore/provlib/src/crc32.c:6-14 | the byte register is the bit register over the message's bits, least significant first |
| Gf2.ChecksumIsRemainder | mobicore/provlib/src/crc32.c:6-48 | a word is the checksum of a byte string if and only if its complement is the polynomial remainder of the message, its first 32 bits complemented |
| ProvFrame.FrameParts | mobicore/provlib/src/gdmcdevicebinding.cpp:194-229 | a composed frame has the right size, complemented type and checksum and gives its type, size and body back |
| ProvFrame.FrameOfParts | mobicore/provlib/src/gdmcdevicebinding.cpp:258-279 | a framed message that checks itself is the composition of its parts |
| ProvFrame.AcceptsExactlyFrames | mobicore/provlib/src/gdmcdevicebinding.cpp:234-331 | the validator accepts exactly the compositions whose parts obey the rules of their message type |
| ProvFrame.BurstDetected | mobicore/provlib/src/gdmcdevicebinding.cpp:234-331 | no message that differs from an accepted one inside some four consecutive bytes is accepted, even across the checksum field |
| ProvMessages.AcceptedBySize | mobicore/provlib/src/gdmcdevicebinding.cpp:281-326 | of the types whose rule is a size exactly an empty SUID request, a SUID response of 16 bytes and a token of 152 bytes are accepted, and of unknown types none |
| ProvMessages.NoOtherSize | mobicore/provlib/src/gdmcdevicebinding.cpp:291-301 | activation requests and responses of any other size are refused |
| ProvMessages.RequestAccepted | mobicore/provlib/src/gdmcdevicebinding.cpp:291-297 | an activation request is accepted if and only if it holds the command of the secure world |
| ProvMessages.ResponseAccepted | mobicore/provlib/src/gdmcdevicebinding.cpp:299-316 | a token response, given as a structure, is accepted if and only if it answers the command and its token is one of an activated SoC with the right lengths |
| ProvMessages.ErrorAccepted | mobicore/provlib/src/gdmcdevicebinding.cpp:324-330 | an error message is accepted if and only if its size is that of its own words and of the text it announces |
| ProvMessages.VerdictOfFrame | mobicore/provlib/src/gdmcdevicebinding.cpp:270-331 | a frame that is not accepted is refused for its format |
| ProvFrame.ErrorFrameAccepted | mobicore/provlib/src/gdmcdevicebinding.cpp:166-231 | a composed error frame is sealed, and accepted if and only if the text with its terminator needs no padding |
| ProvProtocol.RefusalRefused | mobicore/provlib/src/gdmcprovlib.cpp:187-190 | the message that reports a frame refused by the validator is refused by the validator |
| ProvProtocol.UnexpectedTaken | mobicore/provlib/src/gdmcprovlib.cpp:203-206 | the message that reports an unexpected frame is accepted |
| ProvProtocol.TooSmallTaken | mobicore/provlib/src/gdmcdevicebinding.cpp:349-354 | the message about a small buffer is accepted if and only if the two sizes together have one digit more than a multiple of four |
| ProvProtocol.GetSUIDFacts | mobicore/provlib/src/gdmcdevicebinding.cpp:340-378 | what a SUID request sends, and that with room for a token response it counts as success whatever MobiCore answers |
| ProvProtocol.GenerateFacts | mobicore/provlib/src/gdmcdevicebinding.cpp:428-470 | a token response is sent exactly when generating ends with a token held |
| ProvRuns.StepKeeps | mobicore/provlib/src/gdmcprovlib.cpp:148-211 | every step, on any frame and any answers, keeps the invariant of RunInvariant |
| ProvRuns.RunInvariant | mobicore/provlib/src/gdmcdevicebinding.cpp:381-470 | on every run a held token is MobiCore's last answer, for a request with exactly the stored key, was stored by the last write callback, and is what was delivered last |
| ProvRuns.OutputFramed | mobicore/provlib/src/gdmcprovlib.cpp:148-211 | in every state, for every input, the output is a sealed frame that fits the buffer, or empty for want of room, with the code that says so |
| ProvAnswers.StepAnswers | mobicore/provlib/src/gdmcprovlib.cpp:148-211 | every step answers what is due: the SUID or the token the instance then holds, or a report with the code that tells why not, or nothing for want of room |
| ProvAnswers.StepCode | mobicore/provlib/src/gdmcprovlib.cpp:148-211 | the code returned says that nothing went out for want of room, or that a validation has been answered, whatever the answer, or that something else has |
| ProvAnswers.SuidDelivered | mobicore/provlib/src/gdmcdevicebinding.cpp:340-378 | on every run the SUID goes out if and only if an accepted request with room asks for it past the initial state or MobiCore answers; it is MobiCore's last answer, or zero if that call had failed |
| ProvAnswers.TokenDelivered | mobicore/provlib/src/gdmcdevicebinding.cpp:381-470 | on every run a token goes out if and only if an accepted request with room carries the stored key or MobiCore makes a token that is stored; it is the token MobiCore made last |
| ProvAnswers.TextIs | mobicore/provlib/src/gdmcdevicebinding.cpp:206-217 | the text in a report is the message's characters, with zeros behind them |
| ProvAnswers.KeyOfRequest | mobicore/provlib/inc_private/gdmcprovprotocol.h:93-102 | the key stored is the key field of the activation request |
| ProvAnswers.TokenResponseIs | mobicore/provlib/src/gdmcdevicebinding.cpp:428-440 | the response sent is the structure with the command answered, return code zero and the token |
| ProvRuns.DoneExactly | mobicore/provlib/src/gdmcdevicebinding.cpp:473-532 | the end of provisioning is reported if and only if the frame delivers the token of the most recent token response of the run and the read-back agrees |
| ProvRuns.Retransmission | mobicore/provlib/src/gdmcdevicebinding.cpp:411-470 | asking again with the stored key returns the bytes of the last token response, calls nobody and changes nothing |
| ProvRuns.StateFallsExactly | mobicore/provlib/src/gdmcdevicebinding.cpp:397-470 | the state falls only from a held token to a held SUID, exactly when a request changes the key and the new token fails |
| ProvRuns.TokenWithoutSuid | mobicore/provlib/src/gdmcdevicebinding.cpp:397-405 | a run that ends with a token for an instance whose SUID was never fetched |
| ProvRuns.SuidFetchedExactly | mobicore/provlib/src/gdmcdevicebinding.cpp:340-405 | the SUID is MobiCore's for the rest of the run exactly when MobiCore answered the request for it in the step that left the initial state |
| ProvRuns.SuidRequestedFirst | mobicore/provlib/src/gdmcdevicebinding.cpp:340-378 | if the frame that leaves the initial state is a SUID request, the SUID was fetched and is the instance's for the rest of the run |
| ProvRuns.SuidlessExactly | mobicore/provlib/src/gdmcdevicebinding.cpp:340-405 | from any initial instance some answers let a frame lead out of the initial state without a SUID if and only if it is a token request for which the buffer has room |
| ProvInstance.GdmcInstance.constructor | mobicore/provlib/src/gdmcprovlib.cpp:114-134 | a new instance is zeroed |
| ProvInstance.GdmcInstance.ComposeErrorMessage | mobicore/provlib/src/gdmcdevicebinding.cpp:166-232 | the writes into the zeroed buffer leave exactly the composed frame, or the error text about the size |
| ProvInstance.GdmcInstance.HandleGetSUIDMessage | mobicore/provlib/src/gdmcdevicebinding.cpp:340-378 | state, buffer and code as ProvProtocol.HandleGetSUID says |
| ProvInstance.GdmcInstance.HandleGenAuthTokenMessage | mobicore/provlib/src/gdmcdevicebinding.cpp:381-470 | state, buffer and code as ProvProtocol.HandleGenAuthToken says, through the shared label |
| ProvInstance.GdmcInstance.HandleValidateAuthTokenMessage | mobicore/provlib/src/gdmcdevicebinding.cpp:473-532 | state, buffer and code as ProvProtocol.HandleValidateAuthToken says |
| ProvInstance.GdmcInstance.ValidateProvMessage | mobicore/provlib/src/gdmcdevicebinding.cpp:234-337 | the checks on the array give the verdict on its bytes |
| ProvInstance.GdmcInstance.ExecuteProvisioningStep | mobicore/provlib/src/gdmcprovlib.cpp:148-211 | a step on arrays, null pointers included, is ProvProtocol.ProvisioningStep; bytes beyond the buffer's size stay |
| Semaphore.RunInvariant | mobicore/daemon/Common/CSemaphore.cpp:58-67 | on every run of untimed waits and signals by any number of threads the mutex excludes, the counters count and no wakeup is lost |
| Semaphore.CountIsBalance | mobicore/daemon/Common/CSemaphore.cpp:58-114 | on every run, timed waits included, count = initial + calls of signal past the increment - calls of wait past the decrement, where calls are counted from the run and the lines the threads are at |
| Semaphore.NoLostWakeup | mobicore/daemon/Common/CSemaphore.cpp:58-114 | the same count is never negative, the waiters count is that of the threads inside, and while a thread sleeps the count is at most the number of woken threads not yet resumed |
| Semaphore.RestServes | mobicore/daemon/Common/CSemaphore.cpp:58-114 | when nothing can move, exactly as many waits are served as the initial size and the calls of signal allow, all others sleep, and what is left over is the count |
| Semaphore.RestMeansServed | mobicore/daemon/Common/CSemaphore.cpp:58-114 | when nothing can move, a sleeping thread means a count of zero |
| Semaphore.WorkShrinks | mobicore/daemon/Common/CSemaphore.cpp:58-114 | every internal step lowers a bound on the steps left, so there is no livelock |
| Semaphore.ComesToRest | mobicore/daemon/Common/CSemaphore.cpp:58-114 | every run can be continued by internal steps to one where nothing can move |
| Semaphore.LoneWaiterRun | mobicore/daemon/Common/CSemaphore.cpp:70-91 | with one waiter and no spurious wakeup the timed wait keeps the count from going negative |
| Semaphore.SpuriousGoesNegative | mobicore/daemon/Common/CSemaphore.cpp:81-88 | a run of one timed waiter with a spurious wakeup that ends at -1 |
| Semaphore.StolenGoesNegative | mobicore/daemon/Common/CSemaphore.cpp:81-88 | a run of two waiters and one signal that ends at -1 |
| Semaphore.GoesFurtherDown | mobicore/daemon/Common/CSemaphore.cpp:70-91 | once it is at -1 the next wait does not sleep and leaves -2 |
| Semaphore.NonNegativeExactly | mobicore/daemon/Common/CSemaphore.cpp:58-114 | the count never goes negative if and only if there is no timed wait, or nobody waits, or one waiter and no spurious wakeup |
| NotificationQueue.MaskIsRemainder | mobicore/daemon/Daemon/Device/NotificationQueue.cpp:53-80 | masking with size - 1 is the remainder by a power-of-two size |
| NotificationQueue.WrapKeepsSlot | mobicore/daemon/Daemon/Device/NotificationQueue.cpp:53-80 | wrapping at 2^32 moves no counter to another slot |
| NotificationQueue.PutRefines | mobicore/daemon/Daemon/Device/NotificationQueue.cpp:53-65 | putting appends to the queue, and changes nothing exactly when it is full |
| NotificationQueue.GetRefines | mobicore/daemon/Daemon/Device/NotificationQueue.cpp:68-80 | getting gives the oldest entry and removes it, and gives none exactly when the queue is empty |
| NotificationQueue.RunRefinesQueue | mobicore/daemon/Daemon/Device/NotificationQueue.cpp:41-80 | on every run, from any counter values, the ring holds and delivers what a bounded queue does and stays within its size |
| NotificationQueue.SlotLifetime | mobicore/daemon/Daemon/Device/NotificationQueue.cpp:53-80 | the returned slot keeps its entry through the next size - 1 - n puts, with any gets between, and the put after those overwrites it |
| NotificationQueue.Queue.PutNotification | mobicore/daemon/Daemon/Device/NotificationQueue.cpp:53-65 | the method on array and counters appends, or changes nothing when full |
| NotificationQueue.Queue.GetNotification | mobicore/daemon/Daemon/Device/NotificationQueue.cpp:68-80 | the method returns the slot of the oldest entry and removes it |
| NetlinkConnection.GoodExactly | mobicore/daemon/Common/NetlinkConnection.cpp:157-229 | from a state where count, buffer and freed list agree, exactly the disciplined events keep them in agreement |
| NetlinkConnection.ReadDelivers | mobicore/daemon/Common/NetlinkConnection.cpp:181-229 | a read returns the next bytes, as many as asked for or left |
| NetlinkConnection.StreamRefinement | mobicore/daemon/Common/NetlinkConnection.cpp:157-229 | what has been read, followed by what remains, is what arrived, and the count is one exactly when bytes remain |
| NetlinkConnection.StreamExactly | mobicore/daemon/Common/NetlinkConnection.cpp:157-229 | on every run, spurious wakeups included, what has been read followed by what remains is what arrived if and only if no message arrives while bytes are unread |
| NetlinkConnection.FreedOnceExactly | mobicore/daemon/Common/NetlinkConnection.cpp:103-229 | on every run the buffers never freed, the destructor included, are exactly those held when another message arrived; each buffer is freed exactly once if and only if there are none |
| NetlinkConnection.DisciplinedNeverOverwrites | mobicore/daemon/Common/NetlinkConnection.cpp:157-168 | a disciplined run loses neither a buffer nor a byte |
| NetlinkConnection.SecondOvertakes | mobicore/daemon/Common/NetlinkConnection.cpp:157-168 | two messages in a row, of which the first is not empty: a buffer and its bytes are lost |
| NetlinkConnection.CountExactly | mobicore/daemon/Common/NetlinkConnection.cpp:157-229 | on every run the semaphore count is one if bytes are unread and zero if not, plus one for each empty message and each message that overtakes unread bytes, minus one for each read that gets past the wait with nothing unread |
| NetlinkConnection.StallsExactly | mobicore/daemon/Common/NetlinkConnection.cpp:181-199 | a read can time out with bytes unread if and only if that drift is minus one |
| NetlinkConnection.WaitsExactly | mobicore/daemon/Common/NetlinkConnection.cpp:181-199 | with nothing unread a read waits if and only if the drift is zero |
| NetlinkConnection.SpuriousWakeupStalls | mobicore/daemon/Common/NetlinkConnection.cpp:181-199 | after a spurious wakeup a whole unread message times out |
| NetlinkConnection.Connection.Handle | mobicore/daemon/Common/NetlinkConnection.cpp:157-168 | the new state after a message |
| NetlinkConnection.Connection.Read | mobicore/daemon/Common/NetlinkConnection.cpp:181-229 | the new state, the return value and the caller's buffer, of which only the bytes read change |
| NetlinkConnection.Connection.Destroy | mobicore/daemon/Common/NetlinkConnection.cpp:103-114 | the destructor frees what is held |
| ClientTables.OpenDeviceExactly | mobicore/daemon/ClientLib/ClientLib.cpp:194-276 | the result is OK exactly when the call puts the device into the tables; a kernel device that does not open comes out as 1, and nothing else does unless the daemon answers 1 |
| ClientFrames.OthersUntouched | mobicore/daemon/ClientLib/ClientLib.cpp:194-1347 | every call, whatever fails, takes a device with all its sessions or leaves every session alone but the one it is given or opens |
| ClientFrames.CloseSessionExactly | mobicore/daemon/ClientLib/ClientLib.cpp:894-945 | closing succeeds if and only if the handle stands for a session and the daemon agrees; then that session is gone and every other handle stands for the same session as before |
| ClientFrames.OpenSessionExactly | mobicore/daemon/ClientLib/ClientLib.cpp:333-891 | opening succeeds if and only if arguments, device, TCI and daemon are right; the new id then stands for a session with its TCI, if that had to be mapped, and all others are as before |
| ClientFrames.MapFrame | mobicore/daemon/ClientLib/ClientLib.cpp:1173-1264 | mcMap makes the mapping of its buffer in its session and touches no other |
| ClientFrames.RefusedMapLeaves | mobicore/daemon/ClientLib/ClientLib.cpp:1226-1250 | a mapping the daemon refuses leaves nothing |
| ClientFrames.UnmapFrame | mobicore/daemon/ClientLib/ClientLib.cpp:1267-1347 | mcUnmap removes the mapping of its buffer in its session and touches no other |
| ClientFrames.MallocExactly | mobicore/daemon/ClientLib/ClientLib.cpp:1078-1119 | success conditions; the block is added to its device, and nothing else changes |
| ClientFrames.FreeExactly | mobicore/daemon/ClientLib/ClientLib.cpp:1123-1170 | success conditions; exactly the first block at the address goes |
| ClientCodes.CloseDeviceCodes | mobicore/daemon/ClientLib/ClientLib.cpp:280-329 | which of its codes is returned when |
| ClientCodes.CloseSessionCodes | mobicore/daemon/ClientLib/ClientLib.cpp:894-945 | which code is returned when; a refusal by the daemon looks like an unknown device |
| ClientCodes.NotifyCodes | mobicore/daemon/ClientLib/ClientLib.cpp:949-984 | which code is returned when |
| ClientCodes.MapCodes | mobicore/daemon/ClientLib/ClientLib.cpp:1173-1264 | which code is returned when |
| ClientCodes.UnmapCodes | mobicore/daemon/ClientLib/ClientLib.cpp:1267-1347 | which code is returned when |
| ClientCodes.MallocCodes | mobicore/daemon/ClientLib/ClientLib.cpp:1078-1119 | which code is returned when |
| ClientCodes.FreeCodes | mobicore/daemon/ClientLib/ClientLib.cpp:1123-1170 | which code is returned when |
| ClientCodes.OpenSessionCodes | mobicore/daemon/ClientLib/ClientLib.cpp:333-470 | arguments and TCI are told from the device, and the daemon's code is translated |
| ClientCodes.McpCodes | mobicore/daemon/ClientLib/ClientLib.cpp:408-440 | eight codes of the secure world have driver codes of their own, the others are one, and other codes pass through |
| ClientConservation.CallConserves | mobicore/daemon/ClientLib/ClientLib.cpp:194-1347 | every call, with any answers, keeps each held handle registered and held once, and orphans exactly the TCI handle of a session that fails to open and the dropped handles the kernel refuses |
| ClientConservation.OpenSessionConserves | mobicore/daemon/ClientLib/ClientLib.cpp:333-514 | the same for opening a session, in which the only loss is the registered TCI of a failed opening |
| ClientConservation.Conservation | mobicore/daemon/ClientLib/Session.cpp:60-206 | over every sequence of calls: registrations = handles of live descriptors, each once, and, apart, the handles orphaned |
| ClientConservation.AllClosed | mobicore/daemon/ClientLib/Device.cpp:60-84 | with all devices closed exactly the orphans are still registered |
| ClientConservation.CleanRunsOrphanNothing | mobicore/daemon/ClientLib/ClientLib.cpp:194-1347 | with no kernel refusal and no failed opening after a mapped TCI, registrations = held handles |
| ClientRoundTrip.MapUnmap | mobicore/daemon/ClientLib/ClientLib.cpp:1173-1347 | unmapping what was mapped succeeds exactly when the secure address is not NULL and daemon and kernel agree; tables and registrations are then as before, and the handle sent is the one removed if and only if the secure address was fresh |
| ClientRoundTrip.UnmapAgreesExactly | mobicore/daemon/ClientLib/ClientLib.cpp:1302-1334 | a successful unmap ends one registration, that of the handle the daemon unmapped if and only if the descriptor found belongs to the buffer |
| ClientRoundTrip.CrossedUnmap | mobicore/daemon/ClientLib/ClientLib.cpp:1302-1334 | a run of calls (open a device, open a session, map twice) and an unmap after it for which the two differ |
| ClientRoundTrip.DistinctHandles | mobicore/daemon/ClientLib/Session.cpp:109-151 | no two descriptors of a session share a handle |
| ClientRoundTrip.BufferOnce | mobicore/daemon/ClientLib/Session.cpp:109-151 | no two descriptors of a session share a buffer address |
| ClientRoundTrip.DeviceGoneExactly | mobicore/daemon/ClientLib/ClientLib.cpp:280-1347 | which calls and answers close an open device, and that no others do |
| ClientLib.Session.AddBulkBuf | mobicore/daemon/ClientLib/Session.cpp:109-144 | refuses a known address, else registers and appends; nothing changes on failure |
| ClientLib.Session.GetBufHandle | mobicore/daemon/ClientLib/Session.cpp:155-168 | the handle of the first descriptor with that secure address and length, or zero |
| ClientLib.Session.RemoveBulkBuf | mobicore/daemon/ClientLib/Session.cpp:171-206 | erases the first descriptor of the buffer, and unregisters its handle unless the kernel refuses |
| ClientLib.Session.Destroy | mobicore/daemon/ClientLib/Session.cpp:60-87 | unregisters every handle the kernel does not refuse |
| ClientLib.Device.ResolveSessionId | mobicore/daemon/ClientLib/Device.cpp:138-152 | the first session with the id, or none |
| ClientLib.Device.RemoveSession | mobicore/daemon/ClientLib/Device.cpp:118-134 | removes the first session with the id and unregisters its handles |
| ClientLib.Device.FindContiguousWsm | mobicore/daemon/ClientLib/Device.cpp:219-238 | the first block at the address, none for NULL |
| ClientLib.Device.Destroy | mobicore/daemon/ClientLib/Device.cpp:60-84 | the loop over the sessions unregisters all their handles, the loop over the blocks hands every block to the kernel to free, in order, and both lists end empty |
| ClientLib.Library.RemoveDevice | mobicore/daemon/ClientLib/ClientLib.cpp:103-117 | erases the first device with the id and destroys it |
| ClientLib.Library.McOpenDevice | mobicore/daemon/ClientLib/ClientLib.cpp:194-276 | result and new tables for every failure point |
| ClientLib.Library.McCloseDevice | mobicore/daemon/ClientLib/ClientLib.cpp:280-329 | result and new tables; a dead connection removes the device |
| ClientLib.Library.McOpenSession | mobicore/daemon/ClientLib/ClientLib.cpp:333-891 | result, session id and new tables of the three ways to open a session, for every failure point |
| ClientLib.Library.McCloseSession | mobicore/daemon/ClientLib/ClientLib.cpp:894-945 | result and new tables; a broken connection removes the device |
| ClientLib.Library.McNotify | mobicore/daemon/ClientLib/ClientLib.cpp:949-984 | result and new tables |
| ClientLib.Library.McMallocWsm | mobicore/daemon/ClientLib/ClientLib.cpp:1078-1119 | result, address and new tables |
| ClientLib.Library.McFreeWsm | mobicore/daemon/ClientLib/ClientLib.cpp:1123-1170 | result and new tables |
| ClientLib.Library.McMap | mobicore/daemon/ClientLib/ClientLib.cpp:1173-1264 | result, map information and new tables for every failure point |
| ClientLib.Library.McUnmap | mobicore/daemon/ClientLib/ClientLib.cpp:1267-1347 | result, handle sent and new tables for every failure point |
| GpOperation.SetupExtends | mobicore/daemon/ClientLib/GP/tee_client_api.cpp:130-220 | after any successful rounds the session holds its old descriptors followed by one for each parameter mapped, with fresh handles, and the TCI holds their map information |
| GpOperation.UnwindShrinks | mobicore/daemon/ClientLib/GP/tee_client_api.cpp:282-341 | each round of unwinding removes exactly the descriptor of its parameter, except one without a secure address, which stays |
| GpOperation.OperationConserves | mobicore/daemon/ClientLib/GP/tee_client_api.cpp:105-344 | setup and unwind leave tables and registrations exactly as before if and only if nothing was mapped, or the answer passes the sanity checks and every mapping has a secure address; those without one are exactly what stays |
| GpOperation.FailsSomewhere | mobicore/daemon/ClientLib/GP/tee_client_api.cpp:130-239 | a setup fails if and only if it stops, after some number of parameters, at a bad parameter or a failed map, or is cancelled: the cases of the next two rows |
| GpOperation.FailedSetupOnNewTci | mobicore/daemon/ClientLib/GP/tee_client_api.cpp:222-278 | on a fresh TCI a setup that fails, whatever the reason, leaves every mapping made in place, with what a failed map has left |
| GpOperation.FailedSetupExactly | mobicore/daemon/ClientLib/GP/tee_client_api.cpp:150-278 | for a setup that fails, whatever the reason and whatever the TCI holds: which mappings stay, and that tables and registrations are as before if and only if the earlier answer fails the checks and nothing was mapped or left, or it passes, nothing is left registered alone, no leftover map information takes an old mapping, and it frees every mapping without a secure address |
| GpOperation.CopiesExactly | mobicore/daemon/ClientLib/GP/tee_client_api.cpp:282-341 | only outputs of an accepted answer are copied back, and the address unmapped is the one mapped |
| GpTransfer.TypesGiven | mobicore/daemon/ClientLib/public/GP/tee_client_api_imp.h:77-78 | packing four types and taking them apart again gives each its own |
| GpTransfer.SetupFills | mobicore/daemon/ClientLib/GP/tee_client_api.cpp:130-249 | after a successful setup the TCI is ready, has the operation's types and every input value word for word, and is otherwise as it was |
| GpTransfer.FailedSetupEmpties | mobicore/daemon/ClientLib/GP/tee_client_api.cpp:228-236 | after a failed setup the TCI holds no operation |
| GpTransfer.ValuesReturn | mobicore/daemon/ClientLib/GP/tee_client_api.cpp:282-341 | an application that touches nothing gives every value back as it was; one that writes values has them delivered word for word, and its status is the result |
| GpTransfer.CodeTellsWhy | mobicore/daemon/ClientLib/GP/tee_client_api.cpp:187-236 | a setup fails with the code for cancelling, for a bad parameter or for a failed map, exactly for that reason |
| GpTransfer.AnswerOrigins | mobicore/daemon/ClientLib/GP/tee_client_api.cpp:262-275 | an error is accepted from the application alone, success from any origin |
| GpTransfer.UnwindResult | mobicore/daemon/ClientLib/GP/tee_client_api.cpp:262-275 | an answer that fails the checks gives a communication error, and nothing is copied or unmapped |
| GpTransfer.NoAnswerExactly | mobicore/daemon/ClientLib/GP/tee_client_api.cpp:240-275 | an application that writes no answer is found out, unless an earlier one has left its origin |
| GpTransfer.WithoutOperation | mobicore/daemon/ClientLib/GP/tee_client_api.cpp:105-130 | without an operation the TCI is made ready and nothing else happens |
| GpTransfer.PartExactly | mobicore/daemon/ClientLib/GP/tee_client_api.cpp:188-205 | without 32-bit overflow a part of a block is refused if and only if it does not lie in the block, and is else mapped at its offset |
| GpTransfer.WholeExactly | mobicore/daemon/ClientLib/GP/tee_client_api.cpp:148-182 | whole blocks and temporary references are mapped as they are, null references not at all |
| GpTransfer.KnownTypes | mobicore/daemon/ClientLib/GP/tee_client_api.cpp:134-219 | of the other types exactly those without a name are refused |
| GpTransfer.FlowExactly | mobicore/daemon/ClientLib/GP/tee_client_api.cpp:187-197 | a part that lies in its block is refused if and only if the block has flags and lacks that of the reference's one direction; a reference for both directions is never refused |
| GpClient.SetupParams | mobicore/daemon/ClientLib/GP/tee_client_api.cpp:130-220 | the loop over the parameter array, with its early end, is GpOperation.SetupAfter |
| GpClient.SetupOperation | mobicore/daemon/ClientLib/GP/tee_client_api.cpp:105-249 | result, TCI and tables as GpOperation.Setup says; the operation is unchanged |
| GpClient.UnwindParams | mobicore/daemon/ClientLib/GP/tee_client_api.cpp:282-341 | the loop copies back and unmaps as GpOperation.UnwindAfter and CopiedBack say |
| GpClient.UnwindOperation | mobicore/daemon/ClientLib/GP/tee_client_api.cpp:252-344 | result, origin, operation and tables as GpOperation.Unwind says |
| GpSession.Balance | mobicore/daemon/ClientLib/GP/tee_client_api.cpp:404-717 | over every history active means a page and an mc session, and opened = closed + live + lost, for mc sessions and for pages |
| GpSession.ActiveIsOpen | mobicore/daemon/ClientLib/GP/tee_client_api.cpp:404-717 | the mc session of an active object was opened and close was not called on it; its page was mapped and not unmapped |
| GpSession.LostExactly | mobicore/daemon/ClientLib/GP/tee_client_api.cpp:528-535 | something is lost if and only if an active object is opened again |
| GpSession.CleanExactly | mobicore/daemon/ClientLib/GP/tee_client_api.cpp:404-717 | once inactive, every mc session has had one close and every page one munmap if and only if no active object was opened again |
| GpSession.OpenedTwice | mobicore/daemon/ClientLib/GP/tee_client_api.cpp:528-535 | opened twice and closed once: an mc session without a close and a page without an munmap |
| GpSession.OpenExactly | mobicore/daemon/ClientLib/GP/tee_client_api.cpp:490-622 | an opening succeeds, and leaves the object active, if and only if page, mc session and application all agree; the calls it makes are listed, and a failed one gives everything back in reverse |
| GpSession.InvokeAndCloseExactly | mobicore/daemon/ClientLib/GP/tee_client_api.cpp:625-717 | after any history a command leaves an active object active if and only if it cannot be set up or is answered; else, and on closing, mc session and page are given back in this order; an inactive object is left alone |
| GpSession.FailureAndCloseEndIt | mobicore/daemon/ClientLib/GP/tee_client_api.cpp:601-717 | after any history an opening ends active if and only if everything goes well, a close never does |
| GpSession.SessionObject.CallTrustedApp | mobicore/daemon/ClientLib/GP/tee_client_api.cpp:404-477 | what a call to the application leaves of the session object |
| GpSession.SessionObject.Open | mobicore/daemon/ClientLib/GP/tee_client_api.cpp:490-622 | the object and the calls made, for every failure point |
| GpSession.SessionObject.Invoke | mobicore/daemon/ClientLib/GP/tee_client_api.cpp:625-668 | the object and the calls made |
| GpSession.SessionObject.Close | mobicore/daemon/ClientLib/GP/tee_client_api.cpp:671-717 | the object and the calls made |
| RegistryNames.SpidRoundTrip | mobicore/daemon/Registry/PrivateRegistry.cpp:100-106 | a service provider id can be read back from its reversed hexadecimal name |
| RegistryNames.BytesRoundTrip | mobicore/daemon/Registry/PrivateRegistry.cpp:89-97 | bytes can be read back from their hexadecimal name |
| RegistryNames.SpidSpelled | mobicore/daemon/Registry/PrivateRegistry.cpp:100-106 | the digits of an id, last first, in capitals |
| RegistryNames.BytesSpelled | mobicore/daemon/Registry/PrivateRegistry.cpp:89-97 | two small digits for every byte |
| RegistryContainers.RootLists | mobicore/common/MobiCore/inc/mcContainer.h:155-166 | the providers read out of a root container are those of its structure |
| RegistryContainers.SpLists | mobicore/common/MobiCore/inc/mcContainer.h:168-177 | the trustlets read out of a provider's container are those of its structure |
| Registry.StoreCodes | mobicore/daemon/Registry/PrivateRegistry.cpp:303-433 | which code a store returns when |
| Registry.EntryExactly | mobicore/daemon/Registry/PrivateRegistry.cpp:897-905 | the entries a directory is cleared of are its visible names |
| RegistryNames.PathsDiffer | mobicore/daemon/Registry/PrivateRegistry.cpp:178-200 | two keys have the same path if and only if they are the same key, within and across the three families |
| RegistryNames.NotInDirectory | mobicore/daemon/Registry/PrivateRegistry.cpp:184-206 | no container is a file in a data directory |
| RegistryNames.NotABinary | mobicore/daemon/Registry/PrivateRegistry.cpp:215-218 | no container is a trustlet binary |
| RegistryNames.NotSweepable | mobicore/daemon/Registry/PrivateRegistry.cpp:799-882 | no container is a file that the sweep for trusted applications deletes |
| Registry.StoreSets | mobicore/daemon/Registry/PrivateRegistry.cpp:303-433 | a successful store sets its own key to the bytes given and no other; a failed one sets none |
| Registry.ReadReturnsLastStored | mobicore/daemon/Registry/PrivateRegistry.cpp:303-580 | after any run a read returns the bytes of the last successful store under its key, cut to the capacity, through failed stores and everything since that does not concern the key |
| Registry.OthersKept | mobicore/daemon/Registry/PrivateRegistry.cpp:303-1035 | no store and no cleanup, whatever it returns, touches a container it does not concern |
| Registry.CleanupTrustletExactly | mobicore/daemon/Registry/PrivateRegistry.cpp:886-937 | success removes exactly the trustlet's container, failure removes none |
| RegistryCleanup.DirectoryCleared | mobicore/daemon/Registry/PrivateRegistry.cpp:897-915 | clearing a directory removes exactly its visible entries that can be removed, and the directory unless that is refused |
| RegistryCleanup.TrustletFilesGone | mobicore/daemon/Registry/PrivateRegistry.cpp:886-937 | a successful cleanup of a trustlet removes exactly its container, its data, its binary and what the sweep finds |
| Registry.StrNCmpComparesAll | mobicore/daemon/Registry/PrivateRegistry.cpp:960-964 | strncmp against the free UUID compares all sixteen bytes |
| Registry.CleanupSpExactly | mobicore/daemon/Registry/PrivateRegistry.cpp:941-1001 | what the provider's container does not list is untouched; on success the provider and what it lists are gone; on failure the provider's container is still there |
| Registry.CleanupRootExactly | mobicore/daemon/Registry/PrivateRegistry.cpp:1005-1035 | on success exactly the containers reached through the lists are gone and all others are as they were; an unreached one is untouched in any case, and so is the root on failure |
| RegistryCleanup.SucceedsExactly | mobicore/daemon/Registry/PrivateRegistry.cpp:886-1035 | cleaning up the root succeeds if and only if the stored containers are such that it can and the file system refuses none of the files and directories involved |
| RegistryCleanup.CleanableExactly | mobicore/daemon/Registry/PrivateRegistry.cpp:886-1035 | some cleanup can succeed if and only if the root is stored and not empty and, if it is full, every provider listed is non-zero and has a container, a full one is listed once, and every trustlet a full one lists has a container and is listed once |
| RegistryCleanup.RemovedIsMissed | mobicore/daemon/Registry/PrivateRegistry.cpp:941-1035 | once a failed root cleanup has removed a container, what is left can no longer be cleaned up |
| RegistryCleanup.RepeatExactly | mobicore/daemon/Registry/PrivateRegistry.cpp:941-1035 | after a failed root cleanup a later one can succeed if and only if what is left can be cleaned up, which is so if and only if it could be before and no container has been removed |
| RegistryCleanup.RefusedRoot | mobicore/daemon/Registry/PrivateRegistry.cpp:1018-1034 | if removing the root container is all that is refused, everything else reached is gone, and a later cleanup can succeed if and only if every listed provider's container is short |
| RegistryCleanup.RefusedOnce | mobicore/daemon/Registry/PrivateRegistry.cpp:1018-1034 | a registry of one provider that can be cleaned up, until the root container is once refused to be removed: no later cleanup succeeds |
| Registry.CleanupRootCleans | mobicore/daemon/Registry/PrivateRegistry.cpp:1005-1035 | if no container is short, success leaves no root, no listed provider and none of their listed trustlets |
| Registry.RootGoneExactly | mobicore/daemon/Registry/PrivateRegistry.cpp:1011-1016 | on success the root container is gone if and only if it was long enough |
| Registry.ShortRootDoesNothing | mobicore/daemon/Registry/PrivateRegistry.cpp:1011-1016 | a short root container gives success and no change |
| RegistryStore.Store.StoreContainer | mobicore/daemon/Registry/PrivateRegistry.cpp:303-433 | code and files after a store, null pointer and size checks included |
| RegistryStore.Store.ReadContainer | mobicore/daemon/Registry/PrivateRegistry.cpp:328-580 | code, size and buffer after a read; the rest of the buffer stays |
| RegistryStore.Store.ClearDirectory | mobicore/daemon/Registry/PrivateRegistry.cpp:897-915 | the loop over a directory, in whatever order it lists its files |
| RegistryStore.Store.SameUuid | mobicore/daemon/Registry/PrivateRegistry.cpp:960-964 | the byte loop is strncmp |
| RegistryStore.Store.CleanupTrustlet | mobicore/daemon/Registry/PrivateRegistry.cpp:886-937 | code and files as Registry.CleanupTrustlet says |
| RegistryStore.Store.CleanupSp | mobicore/daemon/Registry/PrivateRegistry.cpp:941-1001 | code and files as Registry.CleanupSp says |
| RegistryStore.Store.CleanupRoot | mobicore/daemon/Registry/PrivateRegistry.cpp:1005-1035 | code and files as Registry.CleanupRoot says |

## Left out

- Sockets, netlink, ioctls, mmap, files, logging and memory allocation: parameters, or a map from paths to bytes; short writes and disk errors do not occur.
- Real time: how a timed wait ends is a parameter.
- The semaphore is an interleaving of its lines over values rather than a class, since a method cannot be interrupted; fairness is not assumed, and progress is stated as a bound on internal steps.
- The notification ring has both ends applied to one queue; which end runs in the secure world, and reordering of memory accesses between the two, are not modelled.
- NetlinkConnection: dataMutex, and more than one reader at a time; the dispatch by connection hash.
- ClientLib: pointers to bulk descriptors are positions in their list; the kernel's own cleanup when its device file is closed is not modelled, and neither are the blocks of shared memory as the kernel sees them; a kernel answer with a handle already in use, or with zero, counts as a refusal.
- mcWaitNotification as a concurrent actor, mcGetSessionErrorCode, mcDriverCtrl and the version calls: the first holds no lock, the others touch no table.
- The MC_MCP_RET codes other than the eight that mcOpenSession translates, and the contents of the messages to the daemon other than the handle of an unmap.
- GpOperation: size_t and addresses have 32 bits; the block a registered reference points to exists; whether somebody cancels is known at the end of the loop.
- GpOperation.OperationConserves: daemon and kernel agree to the unmaps of the unwinding, as in GpOperation.FailedSetupExactly; a daemon that refuses one closes the device (ClientRoundTrip.DeviceGoneExactly).
- GpClient: the methods take an operation; without one setup and unwind do nothing but mark the TCI, as GpOperation.Setup and Unwind say.
- GpSession: the mutex of the session object, several threads on one object, session objects that are not zeroed first, and the result and origin that a command returns.
- TEEC_RequestCancellation, shared-memory registration and the context calls: flags, malloc and free.
- The gdmcprovlib entry points that only guard or forward, the Windows code, and configuration strings.
- ProvProtocol: the numeric value of MC_CMP_CMD_GENERATE_AUTH_TOKEN is a parameter; mcUuid and SoC container contents are bytes; one instance and fixed callbacks.
- Registry: authentication-token and data containers, trustlet binaries and trusted-application blobs are files that the model only shows to be apart from the containers; which of them a sweep finds is a parameter, and a NULL UUID pointer is not modelled.
- The daemon's command dispatch, gralloc, camera, JPEG, HWC, keymaster and secure-path code: tables, wrappers or declarations.
