# libsession and session-master: a verified model

A session's program issues DRM ioctls on a device that the setuid helper (session-master)
provides through CUSE.  The helper pulls the argument out of the program's memory over
several rounds, then either runs the ioctl on the real card or forwards it to the user's
process (libsession), and sends the results back.  This project models that path, the
protocol around it and the /dev tree that leads programs to it, and proves that the proxy
cannot be told from the real thing, or exactly when it can.

## Layout

| file | subject |
|---|---|
| `Options`, `Bytes`, `Memory`, `Kernel` | optional values; little-endian fields, blocks and prefix sums; client memory with unmapped holes; one kernel round as gather and scatter, and runs of rounds |
| `RadeonCs`, `RadeonCsParser`, `RadeonCsTransparency`, `RadeonCsRun`, `RadeonCsResult` | DRM_IOCTL_RADEON_CS: what one call replies, the function that computes it in place, the structure seen through the rewritten pointers, whole runs, and what driver and client get byte by byte |
| `RadeonInfo` | DRM_IOCTL_RADEON_INFO: a struct with one pointer, both written back, and answers of any length |
| `IoctlTable`, `Generator`, `GeneratedCode` | the table of argument shapes, the loops that print a `parse_` function, and an interpreter for what they print |
| `Layout` | the headers' structs laid out by C's rule, and the offsets and sizes used elsewhere |
| `Modeset`, `ModesetRun`, `ModesetLibrary`, `ModesetAnswer` | modeset ioctls from the client through the helper and the library to the user's callback and back, and where each byte of the answer ends up |
| `LibraryCode` | the library half of the generator: its printing loops, and an interpreter for what they print |
| `Wire`, `WireSerializer`, `WireParser` | the RUN_COMMAND message: format, serialiser, allocating parser |
| `Lifecycle`, `LifecycleHelper`, `LifecycleLibrary`, `SessionEvents` | the life of a session as steps over arbitrary event sequences, the handlers of both processes that take these steps, and what any sequence of events leads to |
| `DevPaths`, `DevMirror`, `DevMirrorBuilder`, `DevMirrorLimits` | path buffers, the mirror of /dev and the view through the two mounts, the recursive copy and the removal, and exactly which trees can be copied |
| `PendingList`, `PendingListCorrected`, `PendingListReplies`, `PendingListCard` | ioctls forwarded and not answered: the list as written, the list with the missing unlink, what exactly is replied, and both lists in memory |

In each group the functions say what a step does, the methods and classes do it the way the
source does (cursors, arrays rewritten in place, linked entries, flags) and are proved
equal to the functions, and the lemmas are about whole runs.

## Assumptions

- Client memory does not change between the rounds of one ioctl.  A pointer that leads to
  unmapped memory ends the ioctl with EFAULT; everything mapped is writable.
- The kernel takes a final reply only if its payload has the total size of the output ranges
  of that round (the comment at libsession/setuid/card.c:1526-1529); otherwise the client sees
  EIO.  A request that does not fit the buffer the helper reads into
  (libsession/setuid/card.c:2083-2089) is not handed over and ends with EIO too.  The kernel's
  own limits on the number of ranges and their total size are not modelled.
- One send on the socket is one recv, as far as the receiver's buffer reaches.  The library
  answers every request it gets, also one longer than its buffer (libsession/lib/session.c:310-328).
  A request that could not be sent counts as not delivered.
- `int` lengths do not overflow; `uint32_t` products wrap where the C code makes them wrap.
- Results about a modeset run are about one ioctl on a list of waiting ioctls that can be relied
  on, the one of `PendingListCorrected`: its response finds its entry.  Whether it is sent is a
  parameter there (`delivered`); when it is, is what `LifecycleHelper.Helper.SendModesetIoctl`
  says, and what a refusal does to the list is in `PendingList` (`refused`).  As written the list
  can be relied on only up to the first release (`PendingList.ReliableExactly`).
- Integers are little endian; struct sizes and field offsets follow from the headers' declarations
  by C's layout rule for 64-bit machines (`Layout`).
- The graphics driver is any function from the submission it reaches (or EFAULT) to a status
  and the scalar fields it answers in; for RADEON_INFO it stores an answer of any length at the
  pointer before the struct is copied back.  A negative status is an error number for the program
  that calls the driver; in the helper `ioctl()` makes -1 of it.  The user's callback is any function from the root struct, without its pointers,
  and the arrays to a result and to what it stores; a store beyond an array's size is cut off.
- A failing system call has no effect.  /dev does not change while it is copied; directory
  listings have distinct, non-empty names.
- In the life cycle, any event may come at any time that the kernel can deliver it; umount of
  the marker outside the namespace succeeds once the session has been cloned.  The user may free
  the session at any time, also from within a callback, but only once.

## Where the code differs from its intent

The model follows the code; each difference is stated as an exact condition.

- `4 * length_dw` is compared with the scratch size after wrapping to 32 bits, and
  `8 * num_chunks` can wrap to zero: RADEON_CS is transparent exactly when everything, at its
  true size, fits the helper's receive buffer (`RadeonCsRun.TransparentExactly`), and asks for
  the same ranges forever exactly when `num_chunks` is a non-zero multiple of 2^29
  (`RadeonCsRun.TerminatesExactly`).
- The receive buffer is as large as the scratch area for the data, so the data never fills the
  scratch area and the test against its size decides nothing (`RadeonCsRun.OneChunkAccepted`).
- Modeset counts are compared with their limits after wrapping as well
  (`ModesetRun.TransparentExactly`, `Modeset.OversizedCountPasses`).
- Render ioctls return what `ioctl()` returned in the helper, so the driver's error number is lost
  and the client is told EPERM: an accepted submission ends like the direct ioctl exactly when
  the driver's status is at least -1 (`RadeonCsRun.SameAsDirectExactly`,
  `RadeonCsRun.ErrorNumberLost`, `RadeonInfo.SameAsDirectExactly`).
- The helper has four bytes for the answer to RADEON_INFO, although libsession/radeon_drm.h:995
  and 999 list requests that answer with arrays.  Apart from the struct, answers of at most four
  bytes are proxied faithfully and no longer ones (`RadeonInfo.TransparentExactly`,
  `RadeonInfo.HarmlessApart`, `RadeonInfo.ArrayAnswerCut`).
- The limits admit payloads that do not come back through the 16000-byte buffers.  Such an ioctl
  is not only refused: the client's struct and arrays are erased
  (`Modeset.AdmittedButTooLong`, `ModesetRun.TooLongErases`).
- Rejections for size send the gathered bytes back although no output was asked for, so the
  client sees EIO instead of EINVAL (`ModesetRun.OverLimitIsIoError`, `RadeonCsRun.Round2Refuses`).
- `deserialize_u32` reads plain `char`: where char is signed, the argument count survives
  exactly when its bytes are sign-safe; 127 arguments do, 128 do not (`Wire.RoundTripExactly`).
- `serialize_u32` does not notice a negative remaining size: when type and path alone do not
  fit, the count is written behind the buffer (`WireSerializer.SerializeMessageIn`), although
  libsession/lib/serialize.h:3-4 only warns of undefined contents.
- Two cleanup labels of `message_in` are exchanged: a failed parse gives back exactly what it
  took if and only if the type is bad, or no NUL follows it and the uninitialised path pointer
  happens to be NULL (`WireParser.CleanFailureExactly`).
- A released `ioctl_wait` entry stays linked: the list is reliable exactly until the first
  release (`PendingList.ReliableExactly`).  `PendingListCorrected` adds the unlink for which
  `next` and `prev_p` are kept, and proves for all runs what the list is for.
- A child that a signal has killed is collected by `waitpid`, but its end is not reported, then or
  ever (`Lifecycle.KilledNeverReported`).
- `on_exit` is called before the descriptor is unregistered: a user that frees the session in it
  unregisters it twice, and only then (`Lifecycle.UnregisteredOnceExactly`).

## Model

| member | source | states |
|---|---|---|
| `Kernel.ScatterGather` | libsession/setuid/card.c:1533-1561 | scattering the gathered bytes back leaves client memory as it was, for any list of ranges, overlapping or not |
| `Kernel.EchoLeavesMemory` | libsession/setuid/card.c:1563-1619 | so a round answered with the bytes it was handed changes nothing but the result |
| `Kernel.ScatterBlocks` | libsession/setuid/card.c:1621-1650 | a payload made of one block per range lands block by block in its own range |
| `Kernel.ScatterZeros` | libsession/setuid/card.c:1774-1777 | a payload of zeros erases every range, overlapping or not, and nothing else |
| `RadeonCsParser.ParseDrmIoctlRadeonCs` | libsession/setuid/ioctls.c:768-889 | one call, run in place on the received buffer, gives the specified reply for every buffer length it can be handed; everything behind the cs struct is restored |
| `RadeonCsParser.LoadPtrs` | libsession/setuid/ioctls.c:786-792 | the pointer array holds the consecutive 8-byte words of the buffer |
| `RadeonCsParser.LoadChunks` | libsession/setuid/ioctls.c:794-800 | the chunk array holds the consecutive 16-byte structs of the buffer |
| `RadeonCsParser.SumData` | libsession/setuid/ioctls.c:802-806 | the loop sums the 32-bit data lengths of all chunks |
| `RadeonCsParser.ParseChunks` | libsession/setuid/ioctls.c:794-855 | the call from the chunk structs on: ask for data, refuse, ask for output or process |
| `RadeonCsParser.RewritePtrs` | libsession/setuid/ioctls.c:820-824 | pointer i leads to local chunk i, and the client's pointers are kept |
| `RadeonCsParser.RewriteDatas` | libsession/setuid/ioctls.c:826-832 | data pointer i leads to the prefix sum of the lengths before it, and the client's pointers are kept |
| `RadeonCsParser.RestorePointers` | libsession/setuid/ioctls.c:839-846 | the two restore loops invert the two rewrite loops for every chunk count |
| `RadeonCsParser.Submit` | libsession/setuid/ioctls.c:815-855 | rewriting, the driver, restoring and writing back together give the reply of processing; the buffer behind the cs struct and the local arrays are as before |
| `RadeonCsParser.WriteBack` | libsession/setuid/ioctls.c:837-850 | copying the locals back to where they were loaded from changes the cs struct only |
| `RadeonCsParser.FillIovs` | libsession/setuid/ioctls.c:857-884 | entered at checkpoint k, the falling-through labels list the ranges of levels 0 to k in order, with one output range from checkpoint 3 |
| `RadeonCsParser.PutChunkIovs` | libsession/setuid/ioctls.c:867-873 | slot 2 + i is the range of chunk struct i; the data slots stay |
| `RadeonCsParser.PutDataIovs` | libsession/setuid/ioctls.c:859-866 | slot 2 + n + i is the range of the data of chunk i |
| `RadeonCsTransparency.RewrittenDatas` | libsession/setuid/ioctls.c:824-832 | the rewritten data pointers follow each other in the scratch area, each with room for its own data |
| `RadeonCsTransparency.EveryByteInOneChunk` | libsession/setuid/ioctls.c:824-832 | they cover it: each byte of the data belongs to exactly one chunk |
| `RadeonCsTransparency.RewrittenReaches` | libsession/setuid/ioctls.c:817-835 | following the rewritten pointers through the helper's memory reaches exactly the gathered submission |
| `RadeonCsTransparency.ClientReaches` | libsession/setuid/ioctls.c:779-813 | following the client's own pointers through client memory reaches the same submission |
| `RadeonCsTransparency.DataSlice` | libsession/setuid/ioctls.c:859-866 | the data of chunk i is gathered at the prefix sum of the lengths before it |
| `RadeonCsTransparency.ParseAssembled` | libsession/setuid/ioctls.c:779-813 | every offset that the parser reads is the one at which that level was gathered, and nothing is left over |
| `RadeonCsTransparency.AnswerRestored` | libsession/setuid/ioctls.c:849-850 | restoring the chunks pointer after the driver's answer gives the answer on the client's own struct |
| `RadeonCsTransparency.ProcessReplies` | libsession/setuid/ioctls.c:815-855 | processing a gathered buffer replies with what ioctl() makes of the driver's status, and with its answer in the client's cs struct |
| `RadeonCsTransparency.ProcessKeepsCs` | libsession/setuid/ioctls.c:834-854 | whatever the driver answers, EFAULT included, the payload is one cs struct with the client's chunks pointer and count |
| `RadeonCsRun.RequestsReceivable` | libsession/setuid/card.c:2078-2100 | the first three requests always fit the helper's receive buffer, the last one exactly if the data leaves room |
| `RadeonCsRun.Runs` | libsession/setuid/ioctls.c:768-889 | where every run stands after five rounds, for every client memory, mapped or not, received or not |
| `RadeonCsRun.Transparent` | libsession/setuid/ioctls.c:768-889 | an accepted submission ends within five rounds with the client memory of the driver run directly on client memory, and with its status as ioctl() returns it in the helper (-1 for every error); EFAULT if a pointer leads nowhere |
| `RadeonCsRun.SameAsDirectExactly` | libsession/setuid/card.c:1707-1714 | for one driver: an accepted, reachable submission ends like the direct ioctl, result and memory, if and only if the driver's status for it is at least -1 |
| `RadeonCsRun.ErrorNumberLost` | libsession/setuid/card.c:1621-1650 | a witness: a driver answers EINVAL and the client is told -1, EPERM |
| `RadeonCsResult.SubmissionRead` | libsession/radeon_drm.h:939-962 | the submission the driver is given, read address by address: the scalars of the struct, num_chunks pointers, and behind each the chunk struct and its 4 * length_dw bytes |
| `RadeonCsResult.Delivered` | libsession/setuid/card.c:1707-1725 | an accepted submission ends with the driver's status, or -1 for any error, its three answers in their fields of the client's struct, and every other byte as it was |
| `RadeonCsRun.TransparentExactly` | libsession/setuid/ioctls.c:786-813 | a reachable submission is proxied faithfully for every helper and every driver whose answers survive ioctl() if and only if it has at most 4096 chunks and fits the receive buffer with all its data at true size |
| `RadeonCsRun.OneChunkAccepted` | libsession/setuid/ioctls.c:802-809 | witnesses: a reachable submission of one chunk is accepted exactly up to 0x83EA dwords; with 2^30 dwords its computed size is zero |
| `RadeonCsResult.ManyChunksAccepted` | libsession/setuid/ioctls.c:786-787 | witnesses: readable submissions with any number of empty chunks are accepted exactly up to 4096 |
| `RadeonCsRun.WrappedEscapes` | libsession/setuid/ioctls.c:802-809 | a wrapped length passes the helper's test but leads the driver out of the scratch area, and the helper replies -1 |
| `RadeonCsRun.Round2Refuses` | libsession/setuid/ioctls.c:786-787 | too many chunks: EFAULT, EIO or, if the size wraps to zero, the same request again |
| `RadeonCsRun.TerminatesExactly` | libsession/setuid/ioctls.c:774-884 | a run ends if and only if num_chunks is zero or no multiple of 2^29, and then within five rounds |
| `RadeonCsRun.StuckForever` | libsession/setuid/ioctls.c:784-792 | otherwise it asks for the same two ranges in every round |
| `RadeonCsRun.StuckExists` | libsession/setuid/ioctls.c:784-792 | a witness: a cs struct with 2^29 chunks |
| `RadeonCsRun.AsksForMore` | libsession/setuid/ioctls.c:774-884 | in every round of every run the buffer has a length the parser handles, and unless the run is stuck the next list of ranges strictly extends the last |
| `RadeonCsRun.ClientFrame` | libsession/setuid/ioctls.c:849-854 | a run that ends leaves client memory as it was or writes one cs struct at the argument, keeping the client's count and pointer |
| `RadeonInfo.ParseDrmIoctlRadeonInfo` | libsession/setuid/ioctls.c:244-294 | one call, in place on the received buffer: the next request, or the driver's answer with the client's pointer put back |
| `RadeonInfo.LocalsAnswered` | libsession/setuid/ioctls.c:266-278 | through the local pointer the driver reaches the gathered value; the restored struct and as much of the answer as fits four bytes, over the old value, are in the locals |
| `RadeonInfo.Runs` | libsession/setuid/ioctls.c:252-293 | the requests of the rounds, each a strict extension of the last, and where every run stands after three rounds, for every client memory and driver |
| `RadeonInfo.Delivered` | libsession/setuid/card.c:1707-1725 | for any pointer the run ends with the driver's status, or -1 for any error, the first four bytes of the answer in the value, request and pad in the struct, and every other byte as it was |
| `RadeonInfo.TransparentExactly` | libsession/setuid/ioctls.c:244-294 | with everything mapped, the proxied ioctl is the direct one for every driver that stores n bytes and whose result survives, and every helper with room for them, if and only if n bytes at the client's pointer are harmless there |
| `RadeonInfo.HarmlessApart` | libsession/setuid/ioctls.c:257-276 | harmless means at most four bytes if value and struct lie apart; and apart, if there are four |
| `RadeonInfo.SameAsDirectExactly` | libsession/setuid/card.c:1707-1714 | a harmless answer is proxied faithfully if and only if the driver's status is at least -1 |
| `RadeonInfo.ArrayAnswerCut` | libsession/radeon_drm.h:990-1000 | an answer of 128 bytes, apart from the struct, is not proxied faithfully by some driver and helper |
| `IoctlTable.EntriesAreValid` | libsession/generate-ioctls.py:4-189 | every modeset entry with arguments has the shape that the generator results are about: a root struct, arrays counted in it, and fields that do not overlap |
| `IoctlTable.SingleStructsAreValid` | libsession/generate-ioctls.py:5-35 | the entries with one struct have it |
| `IoctlTable.SingleArraysAreValid` | libsession/generate-ioctls.py:7-46 | so do the entries with one array, their fields disjoint |
| `IoctlTable.VersionIsValid` | libsession/generate-ioctls.py:10-14 | so does VERSION |
| `IoctlTable.GetResourcesIsValid` | libsession/generate-ioctls.py:15-20 | so does GETRESOURCES |
| `IoctlTable.GetConnectorIsValid` | libsession/generate-ioctls.py:21-26 | so does GETCONNECTOR, whose two property arrays share a count |
| `Layout.MembersDisjoint` | libsession/drm_mode.h:95-132 | in any struct laid out by the rule, members are aligned, lie in the struct and do not overlap |
| `Layout.VersionTable` | libsession/drm.h:128-138 | the table's offsets, size and limits for VERSION are those of struct drm_version |
| `Layout.UniqueTable` | libsession/drm.h:145-148 | those for GET_UNIQUE are those of struct drm_unique |
| `Layout.ResourcesTable` | libsession/drm_mode.h:107-118 | those for GETRESOURCES are those of struct drm_mode_card_res |
| `Layout.ConnectorTable` | libsession/drm_mode.h:214-233 | those for GETCONNECTOR are those of struct drm_mode_get_connector, and its modes are structs of 68 bytes |
| `Layout.CrtcTable` | libsession/drm_mode.h:120-132 | those for GETCRTC are those of struct drm_mode_crtc, with a mode inside |
| `Layout.SingleTables` | libsession/drm_mode.h:177-185 | the sizes of the entries with one struct are those of their structs |
| `Layout.RadeonTables` | libsession/radeon_drm.h:939-1017 | the counts, lengths and pointers of RADEON_CS and RADEON_INFO are read where their structs have them |
| `Generator.EmitHead` | libsession/generate-ioctls.py:307-334 | for an entry with any number of arrays the first loop prints one size test per dependency and remembers where the labels go |
| `Generator.EmitSlots` | libsession/generate-ioctls.py:361-374 | the second loop, backwards, prints slot i for argument i, checkpoint_1 before the last argument and checkpoint_0 before the root |
| `Generator.Generate` | libsession/generate-ioctls.py:276-387 | the whole function printed for a modeset entry |
| `Generator.GetConnectorListing` | libsession/setuid/ioctls.c:169-218 | for GETCONNECTOR that is, statement by statement, the function in the repository |
| `GeneratedCode.GeneratedIsCorrect` | libsession/generate-ioctls.py:297-387 | run with its gotos on any buffer and output size, the printed function asks for, refuses or forwards what the entry calls for |
| `GeneratedCode.LabelsAreUnique` | libsession/generate-ioctls.py:361-385 | each label that a goto names is printed exactly once, and no other label is |
| `Modeset.AdmittedSizes` | libsession/setuid/ioctls.c:141-156 | arrays within their true limits pass the helper's test and are asked for in full |
| `Modeset.OversizedCountPasses` | libsession/setuid/ioctls.c:153-155 | a count of 2^30 framebuffers passes the test although 4 GiB exceed the limit |
| `Modeset.AdmittedButTooLong` | libsession/setuid/main.c:401-433 | 1024 framebuffers, controllers and connectors are within the limits with up to 1024 encoders, but come back exactly with up to 906 |
| `ModesetRun.GatheredIsComplete` | libsession/setuid/ioctls.c:126-167 | the gathered payload is the root and exactly the arrays it counts, cut where the library cuts it |
| `ModesetRun.Runs` | libsession/setuid/ioctls.c:118-218 | what every run asks for, and where it stands, for every table entry, client memory and callback, whether the payload is received, sent, answered whole or cut off: two rounds unless the entry has arrays and the counts pass, then a strictly longer request and a third |
| `ModesetRun.NoArgumentRuns` | libsession/setuid/ioctls.c:499-509 | an ioctl without arguments is settled by its first round, with the callback's answer or EINVAL, and touches no client memory |
| `ModesetRun.Transparent` | libsession/setuid/card.c:1731-1778 | an ioctl that is sent, within its limits and small enough to come back, ends within three rounds with the result and client memory of the callback run on client memory, whatever it does to counts; all pointers come back |
| `ModesetRun.TransparentExactly` | libsession/setuid/card.c:1759-1778 | with everything mapped, that holds for every callback if and only if no true array size exceeds its limit and the payload is at most 15976 bytes long |
| `ModesetAnswer.AnswerReachesClient` | libsession/lib/ioctls.c:188-255 | under the conditions of transparency, byte by byte: the callback is shown the client's struct without pointers and the client's arrays; its result is the client's; each byte it stores within a buffer is in the client's own, pointers and everything else are as before |
| `ModesetAnswer.DirectAnswer` | libsession/setuid/card.c:1759-1772 | the same of the callback run directly on client memory |
| `ModesetRun.TooLongErases` | libsession/setuid/card.c:1774-1777 | a payload that is sent but comes back cut off ends the ioctl with EINVAL and erases the struct and all arrays, and nothing else |
| `ModesetRun.UndeliveredChangesNothing` | libsession/setuid/card.c:1739-1756 | an ioctl refused in its last round (page flip, no outside reference, failed send) leaves client memory byte for byte as it was |
| `ModesetRun.OverLimitIsIoError` | libsession/setuid/ioctls.c:164-166 | a count over its limit ends the ioctl in the second round with EIO and no change |
| `ModesetLibrary.Unpack` | libsession/lib/ioctls.c:188-235 | the cursor takes each array from its own place, within the room of its local array, saves slot, size and client pointer, and points the struct at the locals |
| `ModesetLibrary.LoadedBlocks` | libsession/lib/ioctls.c:201-234 | whatever passes the helper's test, wrapped counts included, fits the local arrays |
| `ModesetLibrary.CountedWhenAdmitted` | libsession/lib/ioctls.c:201-234 | and if the true sizes do, the copies are the arrays that the counts announce |
| `ModesetLibrary.CallbackOnLocals` | libsession/lib/ioctls.c:237 | the callback reaches through the local pointers exactly the payload's contents, and what it stores is found in the locals |
| `ModesetLibrary.WriteBack` | libsession/lib/ioctls.c:239-249 | in reverse order each array returns to its own slot and each pointer to its own field, whatever happened to the counts |
| `ModesetLibrary.RestoredAll` | libsession/lib/ioctls.c:239-252 | the restored struct is what the callback left, with the client's pointers |
| `ModesetLibrary.ParseAndProcess` | libsession/lib/ioctls.c:188-255 | the whole function, in place on the payload, for any code behind the callback and all counts that pass the helper's test: the sizes are those before the call, every local array goes to its slot, the struct comes back with the client's pointers |
| `ModesetLibrary.LocalReplyFrame` | libsession/lib/ioctls.c:239-252 | for any code behind the callback the reply has the payload's length and the client's pointer bytes |
| `ModesetLibrary.LocalReplyIsLibraryReply` | libsession/lib/ioctls.c:188-255 | with true sizes within the limits, the reply through the local arrays is the callback's own answer to the payload |
| `LibraryCode.Emit` | libsession/generate-ioctls.py:420-447 | the printing loops: six statements for each argument, the call, two for each argument in reverse |
| `LibraryCode.PrintedLibraryIsCorrect` | libsession/generate-ioctls.py:420-447 | run on any payload that passes the helper's test, the printed statements stay inside the payload and the local arrays and leave that same reply, so both emissions use one layout |
| `Wire.ShiftedExactly` | libsession/setuid/message.c:87-97 | the shifting loop inverts the encoding, whatever its variable held, if and only if chars are unsigned or the bytes sign-safe |
| `Wire.JunkForgotten` | libsession/setuid/message.c:87-97 | the four turns forget what the variable held |
| `Wire.SmallCountsSurvive` | libsession/setuid/message.c:91-93 | counts below 128 always survive, 128 does not survive signed chars |
| `Wire.RoundTripExactly` | libsession/setuid/message.c:20-53 | parsing an encoded command gives it back and consumes exactly its bytes, whatever follows, if and only if chars are unsigned or the count is sign-safe |
| `Wire.ParsedExactly` | libsession/setuid/message.c:145-212 | bytes that parse are the encoding of the result and the rest, if and only if chars are unsigned or the count bytes are sign-safe |
| `WireSerializer.SerializeU32` | libsession/lib/serialize.c:37-46 | four bytes, most significant first, unless 0 to 3 bytes remain; a negative size does not stop it |
| `WireSerializer.SerializeString` | libsession/lib/serialize.c:62-73 | returns the full length; writes the string if it fits and nothing outside the remaining bytes |
| `WireSerializer.SerializeStrings` | libsession/lib/serialize.c:81-84 | all strings of the vector in order, if they fit, and nothing outside |
| `WireSerializer.SerializeArgv` | libsession/lib/serialize.c:75-86 | count and strings; with a negative size only the count is written |
| `WireSerializer.SerializeMessageIn` | libsession/lib/serialize.c:16-35 | the length returned is that of the whole encoding for any buffer size; if it fits the buffer holds it; the exact bytes written behind the buffer |
| `WireParser.DeserializeU32` | libsession/setuid/message.c:87-97 | the value, and four bytes consumed, or nothing |
| `WireParser.DeserializeString` | libsession/setuid/message.c:145-174 | the bytes before the first NUL in a block of their own, or nothing taken; the cursor moves by what the size loses |
| `WireParser.DeserializeArgv` | libsession/setuid/message.c:190-225 | all strings and the array, each in its own block; if one fails, exactly the strings built and the array are given back, once each |
| `WireParser.FreeStrings` | libsession/setuid/message.c:217-220 | the loop frees each of the first n strings exactly once |
| `WireParser.FreeArgv` | libsession/setuid/message.c:214-221 | frees the strings and the array, once each |
| `WireParser.DeserializeMessage` | libsession/setuid/message.c:20-71 | parses any bytes in bounds; a failure gives back what it took, or frees the garbage in the field too, or loses one block; with enough memory the bytes alone decide which |
| `WireParser.StageByBytes` | libsession/setuid/message.c:20-53 | where parsing ends, by counting: a bad type; no NUL behind the type; behind the path no room for the count, or fewer NULs than it says |
| `WireParser.CleanFailureExactly` | libsession/setuid/message.c:55-70 | a failed parse, with enough memory, gives back exactly what it took if and only if the first four bytes are not the type, or no NUL follows them and the field held NULL |
| `WireParser.UnterminatedPath` | libsession/setuid/message.c:37 | a path without a NUL is of the second kind |
| `WireParser.UnterminatedArgument` | libsession/setuid/message.c:38 | an argument without a NUL is of the third kind |
| `WireParser.FreeMessage` | libsession/setuid/message.c:55-68 | every block of a message is freed once and nothing else |
| `Lifecycle.RunKeepsInvariant` | libsession/setuid/main.c:283-292 | the relation between references, fork, child, marker and reports is kept over every sequence of events |
| `Lifecycle.ReportsAtMostOnce` | libsession/setuid/main.c:511-604 | at most one clone, at most one GOT_SIGCHLD and one GOT_UMOUNT, the latter last and only when the namespace is empty |
| `Lifecycle.NothingLostBeforeHup` | libsession/setuid/main.c:370-387 | while the outside reference is held, the child's end has been reported exactly when the first end that waitpid told was an exit, the umount exactly when it was noticed |
| `Lifecycle.KilledNeverReported` | libsession/setuid/main.c:379-386 | if the first end that waitpid told was death by a signal, no exit is reported, whatever follows |
| `Lifecycle.LoopOutlivesSession` | libsession/setuid/main.c:283 | the main loop goes on while the session has processes |
| `Lifecycle.StartedExactly` | libsession/setuid/main.c:534-536 | the session reference is held exactly from the clone to the umount notification |
| `Lifecycle.LoopEndsExactly` | libsession/setuid/main.c:283-292 | the loop has ended exactly when the outside reference is gone and any session's end has been noticed |
| `Lifecycle.SilentAfterLoss` | libsession/setuid/main.c:340-345 | a lost outside reference never returns, and nothing is sent after it |
| `Lifecycle.NoSigchldAfterHup` | libsession/setuid/main.c:373-377 | once the marker is mounted nowhere no exit is reported any more |
| `SessionEvents.OutsideLostExactly` | libsession/setuid/main.c:340-395 | for every sequence of events, the outside reference is held exactly if it has no socket hangup and no SIGPIPE |
| `SessionEvents.StartedByFirstCommand` | libsession/setuid/main.c:511-537 | a session is started exactly by the first command, if the user is still there and clone succeeds |
| `SessionEvents.LoopGoesOnExactly` | libsession/setuid/main.c:283-292 | the loop goes on exactly while the user is there, or a started session has not been followed by its last process leaving and then the marker's hangup |
| `SessionEvents.SentExactly` | libsession/setuid/main.c:357-388 | how many messages of each kind any sequence of events sends: one for the child's exit and one for the session's end, each exactly if it comes in time, and one for every client ioctl carried before the user is lost |
| `Lifecycle.UnregisteredOnceExactly` | libsession/lib/session.c:298-357 | for any messages and any calls of session_free, on_exit is called at most once; the descriptor is unregistered at most once if and only if the session is never freed from within on_exit |
| `Lifecycle.FreeInExitUnregistersTwice` | libsession/lib/session.c:353-357 | a witness: freeing it there unregisters twice |
| `SessionEvents.UserToldExactly` | libsession/lib/session.c:298-357 | how often on_exit and on_sigchld are called by any sequence of messages, hangups and frees: once for the first end heard of before a free, and for every exit before either |
| `Lifecycle.UserToldAtMostOnce` | libsession/lib/session.c:298-357 | for any interleaving of both processes and the user, on_exit and on_sigchld are called at most once, and the same exact condition holds for the descriptor |
| `LifecycleHelper.Helper.SigfdEvent` | libsession/setuid/main.c:357-388 | takes the step of the signal that was read, asking waitpid only when there is a child and no hangup |
| `LifecycleHelper.Helper.Waitpid` | libsession/setuid/main.c:379-381 | tells the end of the child once, and not again |
| `LifecycleHelper.Helper.SocketEvent` | libsession/setuid/main.c:390-449 | takes the step of a hangup, a command or anything else |
| `LifecycleHelper.Helper.HandleMessage` | libsession/setuid/main.c:511-537 | forks at most once and takes the session reference exactly if clone succeeds |
| `LifecycleHelper.Helper.FuseEvent` | libsession/setuid/umountfs.c:203-216 | drops the session reference, reports, unregisters |
| `LifecycleHelper.Helper.SendModesetIoctl` | libsession/setuid/main.c:629-665 | refuses exactly when nothing is sent: without the outside reference, or when sendmsg fails |
| `LifecycleHelper.Helper.MainLoop` | libsession/setuid/main.c:283-292 | the loop over any events ends in the state of the run and stops early only without references |
| `LifecycleLibrary.Session.SocketEvent` | libsession/lib/session.c:298-345 | hangup and end of file end the session, a message is handled, errors change nothing |
| `LifecycleLibrary.Session.EventLoop` | libsession/lib/session.c:298-357 | dispatching any events to the handlers ends in the state of the library's run |
| `DevPaths.TryAppend` | libsession/setuid/symlinks.c:87-97 | in place, within the 350-byte buffer: appends exactly if the result with its NUL fits, and otherwise changes nothing |
| `DevPaths.Truncate` | libsession/setuid/symlinks.c:198-199 | pops back to the earlier string |
| `DevMirror.TargetNeverTruncated` | libsession/setuid/symlinks.c:240-246 | an entry whose own path fits the buffer has a link target that fits: the overlong branch is never taken |
| `DevMirror.ViewPreserved` | libsession/setuid/main.c:559-570 | through a complete copy and the two mounts, directories are directories, devices keep type, number and owner, and every other entry is reached as the original itself, except /dev/tty0 and /dev/dri/card0 |
| `DevMirror.RedirectedSeen` | libsession/setuid/main.c:493-509 | /dev/tty0 is the session's tty and /dev/dri/card0 its card: both exist then, and are seen with their type, permissions and number, owned by the user |
| `DevMirror.NothingElseSeen` | libsession/setuid/symlinks.c:112-209 | a path that the original tree does not have leads nowhere |
| `DevMirror.MountsShow` | libsession/setuid/main.c:559-570 | after the move and the bind, old_dev shows the original and /dev the copy |
| `DevMirrorLimits.CopiedExactly` | libsession/setuid/symlinks.c:99-209 | the copy succeeds exactly for trees whose names fit 350 bytes on both sides, whose directories are at most nine levels deep, and whose replaced entries and system calls are there |
| `DevMirrorLimits.NineLevels` | libsession/setuid/symlinks.c:107-123 | witnesses: a chain of n directories is copied exactly if n is at most nine |
| `DevMirrorBuilder.Symlinks.CopyDevice` | libsession/setuid/symlinks.c:211-256 | creates what the entry is meant to become, and succeeds exactly when filter and system calls allow it |
| `DevMirrorBuilder.Symlinks.LinkDir` | libsession/setuid/symlinks.c:112-209 | succeeds exactly when everything below can be copied (depth, path lengths, system calls); then the copy is complete and both buffers are restored; a failure leaves a tree of copies |
| `DevMirrorBuilder.Symlinks.CopyEntry` | libsession/setuid/symlinks.c:146-199 | one turn of the loop extends the copy by one entry and all below it |
| `DevMirrorBuilder.Symlinks.FillNewDev` | libsession/setuid/symlinks.c:99-110 | the copy of /dev, ten levels deep |
| `DevMirrorBuilder.Symlinks.RmCallback` | libsession/setuid/symlinks.c:258-268 | removes an empty directory or another file, and keeps the top |
| `DevMirrorBuilder.Symlinks.Walk` | libsession/setuid/symlinks.c:270-273 | in whatever order entries come, every directory is empty when it is its turn, and exactly the files below are gone |
| `DevMirrorBuilder.Symlinks.ClearNewDev` | libsession/setuid/symlinks.c:270-273 | clearing any partly filled tree leaves new_dev empty |
| `DevMirrorBuilder.Symlinks.SymlinksNew` | libsession/setuid/symlinks.c:31-67 | either a complete mirror, exactly when all can be copied, or nothing left behind |
| `PendingList.EveryRequestAnsweredOnce` | libsession/setuid/card.c:1731-1778 | as written, in any safe run every request has been answered once, at its own length, or is still waiting |
| `PendingList.RepliesHaveAskedLength` | libsession/setuid/card.c:1759-1778 | so every final reply of a safe run has the length that a request for this ioctl came with |
| `PendingList.SafeWhateverComes` | libsession/setuid/card.c:1481-1516 | whatever event comes next touches no freed entry if and only if the list holds no released one |
| `PendingList.ReliableExactly` | libsession/setuid/card.c:1501-1504 | that lasts exactly until the first matched response or failed send |
| `PendingList.ListedArePendingExactly` | libsession/setuid/card.c:1762-1768 | the listed ioctls are the unanswered ones exactly as long |
| `PendingList.RoundTripPoisons` | libsession/setuid/card.c:1744-1778 | after one ioctl forwarded and answered, every event that gets to the list touches freed memory |
| `PendingList.TwoIoctlsUnsafe` | libsession/setuid/card.c:1744-1778 | two ioctls one after the other are a concrete case |
| `PendingListCorrected.AlwaysSafe` | libsession/setuid/card.c:1481-1516 | with the unlink, no event after any run touches a freed entry |
| `PendingListCorrected.EveryRequestAnsweredOnce` | libsession/setuid/card.c:1731-1778 | with the unlink, in every run the listed ioctls are exactly the unanswered requests and every other request has been answered once, at its own length |
| `PendingListCorrected.RepliesHaveAskedLength` | libsession/setuid/card.c:1759-1778 | so every final reply has the length that a request for this ioctl came with |
| `PendingListReplies.RepliesJustified` | libsession/setuid/card.c:1731-1778 | with the unlink, in every run each reply is the exact result and bytes of a response of the right length to a forwarded request, or -22 with the request's own bytes if it was not forwarded, or with zeros of its length for a response of another length |
| `PendingListReplies.SafeRepliesJustified` | libsession/setuid/card.c:1731-1778 | so it is in the safe runs of the list as written |
| `PendingListReplies.AnsweredByResponse` | libsession/setuid/card.c:1759-1778 | a forwarded ioctl is answered by the first response to it, whatever comes before and in between, with its result and bytes or with failure and zeros |
| `PendingListReplies.RefusedAtOnce` | libsession/setuid/card.c:1739-1756 | a request that is not forwarded is replied to at once with -22 and its own bytes, and nothing is listed |
| `PendingListReplies.OneRoundTrip` | libsession/setuid/card.c:1769-1772 | a concrete case, with the list as written |
| `PendingListCorrected.SafeRunAgrees` | libsession/setuid/card.c:1731-1778 | as long as the list as written is safe it gives the same replies and waiting ioctls as the corrected one |
| `PendingListCard.Card.IoctlWaitNew` | libsession/setuid/card.c:1481-1511 | links a new entry in front; next and prev_p stay consistent |
| `PendingListCard.Card.Modeset` | libsession/setuid/card.c:1731-1757 | a request takes the specified step, touching only live entries |
| `PendingListCard.Card.FindWaiting` | libsession/setuid/card.c:1762-1766 | the first entry with the unique, visiting only live entries |
| `PendingListCard.Card.ModesetIoctlResponse` | libsession/setuid/card.c:1759-1778 | a response of the right length is passed on, one of another length becomes an error with zeros of the recorded length, an unknown one is dropped |
| `PendingListCard.Card.Unlink` | libsession/setuid/card.c:70-71 | the missing operation, through next and prev_p in constant time: exactly this entry leaves the list and all links stay consistent |
| `PendingListCard.Card.ModesetCorrected` | libsession/setuid/card.c:1731-1757 | a request on the corrected list takes its step and leaves no freed entry listed |
| `PendingListCard.Card.ModesetIoctlResponseCorrected` | libsession/setuid/card.c:1759-1778 | a response on the corrected list takes its step and leaves no freed entry listed |

## Left out

- ModesetLibrary.ParseAndProcess: with a wrapped count the copies stay inside the local arrays, but the callback is told of a larger array than it is given; what it then does is any code that keeps the locals mapped.
- ModesetLibrary.Unpack: requires that the sizes pass the helper's test, as the library itself does not test them.
- ModesetRun.Runs: where a wrapped count passes the helper's test, the callback behind the proxy is handed the bytes that were copied and no more; code that trusts the count instead is the subject of ModesetLibrary.
- ModesetRun.TransparentExactly: speaks of ioctls that are sent; those that are not are the subject of UndeliveredChangesNothing.
- ModesetAnswer.AnswerReachesClient: says where an array's bytes are if the arrays are apart from each other; where they overlap, the last one written wins.
- SessionEvents.SentExactly: says how many messages of each kind are sent; their order is the subject of Lifecycle.ReportsAtMostOnce.
- ModesetRun.TooLongErases: what the cut-off rest of a message does to the following ones, and what the library reads behind its buffer when a request exceeds it, are not modelled.
- RadeonCsTransparency.ProcessKeepsCs: the driver keeps num_chunks, as its answer has no such field.
- ModesetRun.Transparent: arrays must not overlap the root struct, because the callback run directly and the scatter write them in different orders; arrays may overlap each other.
- RadeonInfo.LocalsAnswered: what a longer answer overwrites behind the helper's local value is a write to the helper's memory and nothing else; what the helper's stack does after it is not modelled.
- RadeonInfo.TransparentExactly: drivers are grouped by the length of their answer; the value is read as four bytes whatever the length.
- RadeonCsRun.Transparent: the driver answers in the scalars of the cs struct and does not write the chunks, as the helper sends only the cs struct back.
- Lifecycle.UserToldAtMostOnce: use of the freed session by the handlers other than the second unregistration is not counted; INIT_SUCCESS and INIT_FAILURE, sent before the loop, are not among the messages.
- WireParser.DeserializeArgv: an argument count of 2^32 - 1, for which the size of the array wraps, is allocated like any other.
- PendingListCard.Card.Modeset: requires that the event touches no freed entry, as what follows otherwise is undefined; PendingList says exactly when that is so. The same holds for ModesetIoctlResponse, and for the runs of PendingList.EveryRequestAnsweredOnce; PendingListCorrected has no such condition.
- DevMirrorBuilder.Symlinks.LinkDir: starts from an empty target, which the helper has just made; other failures of opendir and readdir than a missing directory do not occur.
- DevMirrorBuilder.Symlinks.Walk: nftw is a walk that lists a directory, visits what it listed, then the directory; failing removals do not occur.
- DevMirror.ViewPreserved: the permissions of directories, which the copy makes anew, and links inside the original tree, which are followed there, are not described.
- Render ioctls of a single struct, which are RADEON_INFO without the pointer, and the part of the generator that prints render ioctls.
- ModesetRun.NoArgumentRuns: the library's part, which calls the callback with a null pointer, is given as its answer.
- What becomes of waiting ioctls when the outside reference is lost (the remark at libsession/setuid/main.c:343).
- Answers of the marker file system, the tty device, and opening and polling of the card.
- Real system calls; epoll, signals, clone and mount appear as events and as their effect on the mount table.
- Code that is not compiled (`#if 0`), unused context switching (makejmp.c) and the X11 user interface (xsubsession).
