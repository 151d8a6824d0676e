# A verified model of openHiTLS' decoder search, key tools and support code

openHiTLS is a cryptographic library in C with a command line tool on top of it. This
project models the parts of it where state, search, layout or interleaving make the
behaviour hard to see from the text, and proves what they are for. `dafny verify
dfyconfig.toml` checks everything.

**The decoder chain** (`codecs/src/decode_chain.c`). A pool of provider decoders is searched
depth first for a chain that turns an input with a format and a type into a target format and
type. `DecodeChain` is the search as a transition system, with the decoders as an oracle whose
replies may even change from call to call; `DecodePool` is the pool context that is updated in
place and refines it. On top of these: the loop terminates by a lexicographic measure, makes at
most n(n+1)/2 decode calls, a bound that is attained for every n, and never holds more than n+1
nodes; a result is what a chain of distinct fitting decoders derives; three completeness theorems
say when an existing chain is found, two concrete pools show it can be missed otherwise; and a
ledger of memory events shows that every decoded object is freed once, by its maker, while that
decoder is alive, or handed to the caller. `DecodeChainRules` and `DecodeChainTrace` say the same of
the labels and of the events alone.

**The intrusive ring list** (`bsl/include/bsl_module_list.h`). The pointer macros are methods on
heap nodes that refine insertion and deletion on a sequence; the safe traversal visits every item
once even when its body removes and wipes the current one.

**Key synchronisation** (`apps/src/app_keymgmt.c`). Records whose words are converted in place,
nested length-value key pairs, a send buffer filled at a running index, a receive loop. Sender
and receiver may have different byte orders. The uuid list that selects the keys is scanned and
split. `KeySyncBytes` states by byte offsets what is sent, and what is made of any stream.

**The `enc` tool** (`apps/src/app_enc.c`). The sliding cache over standard input, the file reader,
and the hex file header.

**Smaller pieces.** The in-place configuration splitter, the hex codec, the user file of
registration and login, the two-thread heartbeat that gates key sending, and the constant-time
comparisons. `SplitStringRules`, `UuidRules`, `EncHeaderRules`, `UserFileBytes` and
`HeartbeatEvents` restate their specifications by positions, bytes and events, without the
definitions the code is proved against.

Integers are unbounded; widths are written out wherever the code depends on them (`Sub32`,
`TWO_32`, the `long` of `strtol`, the overflow tests on the cache length). Words in memory are byte
sequences, read and written according to the host's byte order.

Where the code and its documentation differ, the model follows the code. A decoder whose output
label cannot be read with the error code "retry" stays in the state "trying" and is never used
again; the first heartbeat exchange is not followed by the comparison of the miss counter;
`StreamCipherUpdate` fetches the rest of its input at the offset of the output so far, which is
right exactly when every block was answered by a block (`EncStream.StreamUpdateConservesExactly`);
when the end-of-file query on standard input fails, `UpdateEncStdin` reports success and drops what
is still in the cache (`EncStream.UpdateEncStdin`); a header number is read with `strtol`, so on
machines with a 32-bit `long` the header round trip holds exactly for numbers below 2^31
(`EncHeader.HeaderRoundTrip`).

## Model

| member | source | states |
|---|---|---|
| `DecodeChain.FirstUsable` | codecs/src/decode_chain.c:207-242 | the picked decoder is untried and fits (`DecodeChainRules.FitsRule`), and no earlier one does; none is picked only if none is usable |
| `DecodeChain.AdvanceDecreases` | codecs/src/decode_chain.c:364-390 | every turn that does not stop lowers (decoders not succeeded, path length, untried decoders) lexicographically, for any decoders |
| `DecodeChain.CountForget` | codecs/src/decode_chain.c:332-338 | forgetting failures keeps the successes and turns exactly the tried decoders into untried ones |
| `DecodeChainRules.FitsRule` | codecs/src/decode_chain.c:213-237 | a decoder fits a label if and only if a named format is the decoder's own and a named type is the decoder's own if it has one: the four NULL cases in one rule |
| `DecodeChainRules.TextRule` | codecs/src/decode_chain.c:219-229 | strings match exactly when they have the same length and the same letters up to ASCII case |
| `DecodeChainRules.LabelRule` | codecs/src/decode_chain.c:343-370 | an object carries the target label exactly when each name is NULL on both sides or matches |
| `DecodeChainRules.SingleDecoder` | codecs/src/decode_chain.c:354-394 | end to end with one willing decoder, whichever names are NULL: the input itself if it carries the target label, what the decoder makes of it if it fits, otherwise no usable decoder |
| `DecodeChainRules.HalfNamedInput` | codecs/src/decode_chain.c:228-231 | PEM data of unknown type is taken by a PEM decoder without an input type |
| `DecodeChainRules.AttemptRule` | codecs/src/decode_chain.c:244-301 | what one attempt changes, for every reply: the state of the tried decoder only, the tail, a new node exactly on success, and whether and with which error the search stops |
| `DecodeChainRules.FailureIsReported` | codecs/src/decode_chain.c:386-389 | a search that fails returns the error that its last decode call ended in |
| `DecodeChainSafety.PathOkAdvances` | codecs/src/decode_chain.c:262-341 | every turn keeps the path a genuine derivation: each node's output is the next node's input, made by its decoder, decoders distinct and spent, the tail owns nothing |
| `DecodeChainSafety.RunKeepsPath` | codecs/src/decode_chain.c:354-394 | the same over the whole loop, and a found object is the tail's input with the target label |
| `DecodeChainSafety.Soundness` | codecs/src/decode_chain.c:207-242 | the result of a successful search is the composition of a chain of distinct decoders in call order, each fitting its label, ending at the target label |
| `DecodeChainSafety.EveryTurnIsCheap` | codecs/src/decode_chain.c:364-390 | from any state within the budget, after any number of turns, the search is within n(n+1)/2 calls and n+1 nodes |
| `DecodeChainSafety.Cost` | codecs/src/decode_chain.c:364-390 | in a decode with n decoders the path never exceeds n+1 nodes, at any turn of the loop, and at most n(n+1)/2 decode calls are made |
| `DecodeChainCompleteness.OneStepCompleteness` | codecs/src/decode_chain.c:207-241 | if one decoder takes the input, never refuses it and always labels its output with the target, the search never reports that no decoder is usable, whatever the others do |
| `DecodeChainCompleteness.ChainCompleteness` | codecs/src/decode_chain.c:354-394 | a chain whose decoders are only ever offered their predecessor's output is found or the search stops on another error |
| `DecodeChainCompleteness.PrivateChainIsSimple` | codecs/src/decode_chain.c:354-394 | such a chain never repeats a decoder |
| `DecodeChainCompleteness.DerivationsAgree` | codecs/src/decode_chain.c:354-394 | with one output label per decoder, all derivations of a label derive the same content |
| `DecodeChainCompleteness.SearchDecides` | codecs/src/decode_chain.c:354-394 | with non-NULL input and output labels, decoders that name their input type and are deterministic, and output labels distinct from each other and from the input: the search succeeds if and only if some chain derives the target, returns the content that every such chain derives, and never fails otherwise |
| `DecodeChainCompleteness.NeverFails` | codecs/src/decode_chain.c:386-389 | if no decoder fails after decoding, the loop ends only with a result or with no usable decoder |
| `DecodeChainLimits.RetriedDecoderIsMissed` | codecs/src/decode_chain.c:295-300 | a pool where a chain exists and the search misses it because a decoder stays tried until the next pop |
| `DecodeChainLimits.SharedDecoderIsMissed` | codecs/src/decode_chain.c:332-338 | a pool where a chain exists and the search misses it because a decoder that succeeded is never used again |
| `DecodeChainLimits.CostIsAttained` | codecs/src/decode_chain.c:364-390 | for every n some pool of n decoders makes exactly n(n+1)/2 decode calls |
| `DecodeChainOwnership.PostKeepsBalance` | codecs/src/decode.c:247-253 | every permitted memory event keeps the books balanced: each made object is in exactly one of live, freed, lost, handed over |
| `DecodeChainOwnership.NoUseAfterEnd` | codecs/src/decode_chain.c:47-54 | in an audited log nothing refers to an object after it was freed, lost or handed over, so none is freed twice |
| `DecodeChainTrace.AuditExplained` | codecs/src/decode_chain.c:47-54 | what the books say after any log that passes the audit, in terms of the events of the log: which objects are live, lost, handed over, which contexts are open |
| `DecodeChainTrace.SettledIsClean` | codecs/src/decode_chain.c:47-107 | settled books mean a clean trace: every object is read only between its making and its one end, freed by its maker while that is alive and has a callback, and every object made ends |
| `DecodeChainTrace.SessionFrees` | codecs/src/decode.c:247-253 | in every session an output is freed only by a decoder that registered a callback |
| `DecodeChainTrace.FlagAnswers` | codecs/src/decode_chain.c:119-157 | after any flag commands the next one is accepted if and only if the decode left a path and a decoded result has not been handed over |
| `DecodeChainOwnership.RunOwns` | codecs/src/decode_chain.c:262-319 | over any run the live objects are exactly those the path's nodes own, each under the decoder that made it |
| `DecodeChainOwnership.AttemptLogs` | codecs/src/decode_chain.c:244-301 | the memory events of one attempt, for every reply: one read, one object made unless the decoder refused, freed at once unless it became a node |
| `DecodeChainOwnership.FlagsHandOverOnce` | codecs/src/decode_chain.c:119-157 | any sequence of flag commands hands over the tail's input at most once, and exactly if one of them is false and something was decoded |
| `DecodeChainOwnership.SessionAccounts` | codecs/src/decode_chain.c:91-157 | decode, any flag commands, free: the log passes the audit, no object and no context stays alive, an object lost was made by a decoder without a free callback; on success the result alone is handed over, exactly on request; in general the tail's input, exactly if some command is false and something was decoded; without a decoder or a first node nothing is made |
| `DecodeChainOwnership.ResultIsAlive` | codecs/src/decode_chain.c:366-370 | the object a successful decode returns is the caller's input or is alive, neither freed, lost nor handed over |
| `DecodePool.AttemptIgnoresMark` | codecs/src/decode_chain.c:238-239 | marking the picked decoder as being tried does not change what the attempt does |
| `DecodePool.PoolCtx.GetUsableDecoder` | codecs/src/decode_chain.c:207-242 | the loop finds the first usable decoder and marks it, touching nothing else |
| `DecodePool.PoolCtx.TryDecode` | codecs/src/decode_chain.c:244-301 | the in-place attempt refines `Attempt`, memory events included |
| `DecodePool.PoolCtx.ResetLastNode` | codecs/src/decode_chain.c:303-319 | frees the previous node's output through its decoder, resets that node and pops the tail |
| `DecodePool.PoolCtx.BackToLastLayer` | codecs/src/decode_chain.c:321-341 | refines `Backtrack` |
| `DecodePool.PoolCtx.DecodeWithKeyChain` | codecs/src/decode_chain.c:354-394 | the whole loop computes `Run` of the state it started in, and terminates |
| `DecodePool.PoolCtx.PoolDecode` | codecs/src/decode_chain.c:453-484 | on a fresh pool: no decoder, no memory for the first node, or the outcome and final state of `Decode` |
| `DecodePool.PoolCtx.SetFlagFreeOutData` | codecs/src/decode_chain.c:119-157 | refines `SetFlag`, with the refusals of the code, that of a value of the wrong length included |
| `DecodePool.PoolCtx.PoolFree` | codecs/src/decode_chain.c:91-107 | appends exactly the memory events of `Close`: the path first, then the decoder contexts |
| `DecodePool.PoolCtx.Session` | codecs/src/decode_chain.c:91-484 | on the object itself: the memory events of decode, any flag commands and free form a clean trace and settle the books, also when there is no decoder or no first node; of a successful search the decoded result is handed over exactly on request and nothing else is, of one that gives up or never starts nothing is, and in the latter case nothing is made |
| `RingList.Init` | bsl/include/bsl_module_list.h:38-38 | the node alone is a ring |
| `RingList.IsEmpty` | bsl/include/bsl_module_list.h:78-78 | true exactly for the ring of one node |
| `RingList.AddAfter` | bsl/include/bsl_module_list.h:47-52 | the four assignments insert the item behind node i of the ring |
| `RingList.AddBefore` | bsl/include/bsl_module_list.h:61-61 | inserts the item before node i, at the end for the head |
| `RingList.Remove` | bsl/include/bsl_module_list.h:68-71 | the ring without node i |
| `RingList.AddThenRemove` | bsl/include/bsl_module_list.h:47-71 | removing an item that was just added restores every next and prev of the ring |
| `RingList.RemoveThenAdd` | bsl/include/bsl_module_list.h:47-71 | adding a removed item where it was restores every next and prev, its own included |
| `RingList.SurvivorsAreNodes` | bsl/include/bsl_module_list.h:87-88 | what a traversal leaves is the head and exactly the items not dropped |
| `RingList.ForEachSafe` | bsl/include/bsl_module_list.h:87-88 | every original item is visited once, in order, although the body removes and wipes any subset; the survivors form the ring; it terminates |
| `Bytes.ValueOfBigEndian` | bsl/include/bsl_bytes.h:98-201 | reading back a written number gives it, if it fits the width |
| `Bytes.BigEndianOfValue` | bsl/include/bsl_bytes.h:98-201 | writing what was read gives the bytes |
| `Bytes.Uint32Layout` | bsl/include/bsl_bytes.h:171-179 | the byte positions of the four stores, and of the shifts that undo them |
| `Bytes.Uint64Stores` | bsl/include/bsl_bytes.h:189-201 | the byte positions of the eight stores |
| `Bytes.Uint64Shifts` | bsl/include/bsl_bytes.h:152-161 | the weights of the eight shifts |
| `Bytes.NetworkOrder` | apps/src/app_keymgmt.c:119-132 | in-place conversion to and from network order undo each other on every host, and network order is the same for all |
| `ConstTime.IsZeroIsMask` | bsl/include/bsl_bytes.h:205-215 | all ones exactly for zero |
| `ConstTime.EqualIsMask` | bsl/include/bsl_bytes.h:217-221 | all ones exactly when equal, zero otherwise |
| `ConstTime.LtIsMask` | bsl/include/bsl_bytes.h:235-239 | all ones exactly when a < b, for all 32-bit words |
| `ConstTime.GeIsMask` | bsl/include/bsl_bytes.h:241-245 | all ones exactly when a >= b |
| `ConstTime.GtIsMask` | bsl/include/bsl_bytes.h:247-251 | all ones exactly when a > b |
| `ConstTime.LeIsMask` | bsl/include/bsl_bytes.h:253-257 | all ones exactly when a <= b |
| `ConstTime.SelectChooses` | bsl/include/bsl_bytes.h:223-228 | under a mask of either kind, the operand the mask selects |
| `ConstTime.DifferenceIsZero` | bsl/include/bsl_bytes.h:260-267 | the accumulated difference is zero exactly when the prefixes agree |
| `ConstTime.ConstTimeMemcmp` | bsl/include/bsl_bytes.h:260-267 | all ones exactly when the buffers agree on all l bytes, zero otherwise |
| `Uuid.ScannerIsExact` | apps/src/app_keymgmt.c:178-201 | the scanner's automaton accepts exactly the comma-joined non-empty lists of 64-hex-digit words |
| `Uuid.IsValidKeyUuidList` | apps/src/app_keymgmt.c:178-201 | the same for the loop |
| `Uuid.JoinIsInjective` | apps/src/app_keymgmt.c:742-786 | a list string comes from one list of words only |
| `Uuid.NextToken` | apps/src/app_keymgmt.c:742-786 | one step of the tokenizer: separators skipped, then up to the next one |
| `Uuid.SplitUuidString` | apps/src/app_keymgmt.c:742-786 | succeeds exactly on valid lists and returns exactly their words, in order |
| `UuidRules.JoinPositions` | apps/src/app_keymgmt.c:742-786 | word j of a list is at 65 j, followed by a comma unless it is the last |
| `UuidRules.ListRule` | apps/src/app_keymgmt.c:178-201 | the valid lists by position: length 64 modulo 65, a comma at every 65th place, hex digits elsewhere |
| `HexCodec.FoldedIsDigitValue` | apps/src/app_utils.c:1023-1051 | (c % 32 + 9) % 25 is the digit value in all three ranges |
| `HexCodec.HexCharTable` | apps/src/app_opt.c:542-560 | the digit is the one at that index of the table |
| `HexCodec.HexDigits` | apps/src/app_utils.c:1023-1051 | the digits are the 22 characters of the three ranges and their values are their places |
| `HexCodec.UnhexHex` | apps/src/app_utils.c:1023-1051 | decoding undoes encoding for every byte string |
| `HexCodec.RoomTestIsSafe` | apps/src/app_opt.c:546-546 | the room test on 32-bit unsigned integers admits only buffers that hold the digits if and only if the input is below 2^31 bytes |
| `HexCodec.BytesToHex` | apps/src/app_opt.c:542-560 | writes the hex text and a NUL exactly when there is something to write and room, and nothing else |
| `HexCodec.HexToBytes` | apps/src/app_utils.c:1023-1051 | accepts exactly the non-empty even-length hex texts that fit, with their value; which error otherwise |
| `HexCodec.HexToBytesInPlace` | apps/src/app_utils.c:1023-1051 | the same result and errors when input and output are one buffer, and nothing behind the text changes |
| `HexCodec.NumberIsValue` | apps/src/app_utils.c:967-1021 | the decoded bytes denote the number the digits denote |
| `HexCodec.LeadingZeros` | apps/src/app_utils.c:967-1021 | leading zeros do not change the number |
| `HexCodec.ParseHex` | apps/src/app_utils.c:967-1021 | accepts exactly non-empty digit strings after the prefix rule, odd or even, says which of the three errors it is otherwise, preserves the number whatever the zeros, and drops exactly the zeros of `Skipped` |
| `KeySync.ParseSm2` | apps/src/app_keymgmt.c:1503-1535 | on 32-bit unsigned arithmetic a key field is accepted exactly when it is the image of a key pair, which is returned; nothing is read past the key length |
| `KeySync.PairOfImage` | apps/src/app_keymgmt.c:1259-1299 | an image has one pair only, so printing then parsing gives the pair |
| `KeySync.RecordFields` | apps/src/app_keymgmt.c:1259-1309 | every field of a record is where the receiver looks for it |
| `KeySync.RecordRoundTrip` | apps/src/app_keymgmt.c:1536-1564 | the receiver reads from a record the key it was made from |
| `KeySync.WrittenIsPrefix` | apps/src/app_keymgmt.c:1591-1643 | for any stream exactly the records before the first missing, rejected or unwritable one are written, in order, and the stream is left behind the last record read |
| `KeySync.RecordsRoundTrip` | apps/src/app_keymgmt.c:1591-1643 | a run of accepted records is received whole and consumed exactly |
| `KeySync.SyncRoundTrip` | apps/src/app_keymgmt.c:1400-1452 | receiving what is sent for 1 to 1024 keys writes the same keys in order and consumes the stream exactly |
| `KeySyncBytes.SendableRule` | apps/src/app_keymgmt.c:1259-1310 | a key can be sent exactly when it is not SM2, or a pair of at most 120 bytes |
| `KeySyncBytes.RecordBytes` | apps/src/app_keymgmt.c:1259-1386 | every byte of a record sent, by offset: attributes at 0, 4, 36, 40 and 48, the length at 56, the key or the pair from 60, zeros to 192 |
| `KeySyncBytes.MessageBytes` | apps/src/app_keymgmt.c:1388-1452 | version 1, the count, and record j at 8 + 192 j |
| `KeySyncBytes.KeyOfRule` | apps/src/app_keymgmt.c:1454-1564 | a record is read as a key if and only if its bytes describe that key: an SM2 pair must fill the field exactly and check out, any other key has at most 64 bytes |
| `KeySyncBytes.AnyStream` | apps/src/app_keymgmt.c:1591-1643 | for every stream: without a header of version 1 announcing 1 to 1024 records nothing is written and the error is determined; with one, exactly the acceptable records before the first other one are written, why it stopped, and how far the stream was read |
| `KeySyncBytes.WrittenKeysAreSound` | apps/src/app_keymgmt.c:1465-1564 | whatever arrives, a written SM2 key has a pair that checks out, any other at most 64 bytes and no pair, and the header announced version 1 and 1 to 1024 records |
| `KeySyncOps.SyncKeyInfo.OrderCvt` | apps/src/app_keymgmt.c:119-132 | each numeric attribute changes order in place, in either direction, and nothing else changes |
| `KeySyncOps.SyncKeyInfo.FillFromSm2` | apps/src/app_keymgmt.c:1259-1299 | succeeds exactly when the pair fits, and the struct is then the record of the key on any host |
| `KeySyncOps.SyncKeyInfo.FillFromCipher` | apps/src/app_keymgmt.c:1301-1310 | the struct is the record of the key on any host |
| `KeySyncOps.SyncKeyInfo.Parse` | apps/src/app_keymgmt.c:1536-1564 | on any host the key the record describes, or a rejection |
| `KeySyncOps.PrepareOneKey` | apps/src/app_keymgmt.c:1364-1386 | appends the record at the index, or fails exactly when there is no key that can be sent |
| `KeySyncOps.PrepareHeader` | apps/src/app_keymgmt.c:1388-1398 | version and count in the first eight bytes |
| `KeySyncOps.PrepareKeys` | apps/src/app_keymgmt.c:1429-1443 | the buffer holds the records of the named keys in order and is full, or a key is unavailable |
| `KeySyncOps.SendKey` | apps/src/app_keymgmt.c:1400-1452 | the message for the keys of the list is handed whole to the send callback; the exact error otherwise |
| `KeySyncOps.ReceiveKey` | apps/src/app_keymgmt.c:1566-1643 | bad key derivation parameters are refused before anything is read; otherwise what `Receive` specifies, on any host, for any stream |
| `KeySyncOps.Synchronise` | apps/src/app_keymgmt.c:1400-1643 | for every uuid list, a message is sent exactly when the list is short enough, all its keys can be sent and the callback delivers; across hosts of any byte order the receiver then ends up with exactly the keys the list names, in order |
| `EncStream.CutFlattens` | apps/src/app_enc.c:736-769 | what the block loop and its rest feed to the cipher |
| `EncStream.StreamUpdateConservesExactly` | apps/src/app_enc.c:736-769 | the whole input is fed, for all inputs of a length, if and only if there is no rest or every block was answered by a block |
| `EncStream.RetRule` | apps/src/app_enc.c:719-769 | success, cipher failure and write failure of a feed, each if and only if: what the cipher emitted, the room for it, and the write if there is anything to write |
| `EncStream.BlockAt` | apps/src/app_enc.c:736-769 | block i is the 16 bytes from 16 i on |
| `EncStream.EncCtx.XtsCipherUpdate` | apps/src/app_enc.c:719-734 | one update with everything; the return code by what the cipher emitted, the room and the write |
| `EncStream.EncCtx.StreamCipherUpdate` | apps/src/app_enc.c:736-769 | the updates are `Cut` at the output emitted so far; the rest is in place when every block was answered; the return code by what the updates emitted, the room and the write |
| `EncStream.UpdateEncStdinEnd` | apps/src/app_enc.c:771-782 | the cache goes to the cipher, except an XTS tail below 16 bytes, which is refused untouched |
| `EncStream.Absorb` | apps/src/app_enc.c:833-853 | one read keeps the cache below 32 bytes at the loop head, with a tail of at least 16 once 32 bytes came, and conserves the data; the tail copy does not overlap |
| `EncStream.UpdateEncStdin` | apps/src/app_enc.c:784-859 | for all sequences of reads: the overflow branch is dead, XTS never gets a short update, success needs every read to deliver and the cipher to take every update; with a cipher and writes that work the result is decided by the reads: a failed or empty read is reported with all but the last 31 bytes before it fed, an XTS input below 16 bytes is refused, otherwise exactly the concatenation of the reads is fed; when the end-of-file query fails instead, success is reported with up to 31 bytes never fed |
| `EncStream.NextRead` | apps/src/app_enc.c:861-910 | 4096 bytes unless the rest is at most that, or below 8192 for XTS, when all of it is read; XTS is never left with a short last piece |
| `EncStream.UpdateEncFile` | apps/src/app_enc.c:861-910 | the whole file is fed, or a read failed or fell short and exactly the bytes read before it are, whole reads of 4096 bytes; success needs the cipher to take every update; only a short XTS file is refused |
| `EncHeader.NumberReadBack` | apps/src/app_enc.c:136-184 | a printed 32-bit number is read back if and only if it fits the machine's long |
| `EncHeaderRules.StrtolRule` | apps/src/app_enc.c:147-155 | white space, a sign, 0x and digits, whatever follows: the number of the digits, negated after a minus, held within the range of a long |
| `EncHeaderRules.NoNumber` | apps/src/app_enc.c:147-155 | 0 when no digit follows |
| `EncHeaderRules.ClampRule` | apps/src/app_enc.c:147-155 | numbers outside the range of a long are held at its ends |
| `EncHeaderRules.WordOfNumber` | apps/src/app_enc.c:147-155 | the 32-bit variable holds the number modulo 2^32 |
| `EncHeaderRules.FieldRule` | apps/src/app_enc.c:539-630 | a hex field is accepted up to its first NUL exactly when it is non-empty, even, all digits and fits, and fills the front of a zeroed buffer |
| `EncHeaderRules.HeaderRule` | apps/src/app_enc.c:569-630 | a header is accepted if and only if the text holds, at offsets 0, 8, 16, 24, 40, 48 and 56, the expected numbers, a salt, a count and the IV; and it ends there |
| `EncHeaderRules.HeaderErrors` | apps/src/app_enc.c:539-630 | what each error says about the text |
| `EncHeader.HandleDecFileIv` | apps/src/app_enc.c:539-567 | what `ParseIv` specifies, with the cursor behind the IV |
| `EncHeader.HandleDecFileHeader` | apps/src/app_enc.c:569-630 | what `ParseHeader` specifies of the rest of the stream, errors included, with the cursor behind the header |
| `EncHeader.WriteEncFileHeader` | apps/src/app_enc.c:498-537 | the header text is appended to the stream, or exactly the pieces before the first write that fails |
| `EncHeader.WrittenHeaderParses` | apps/src/app_enc.c:498-630 | what any reader of numbers and bytes makes of a written header |
| `EncHeader.HeaderRoundTrip` | apps/src/app_enc.c:498-630 | reading a written header under the same cipher returns it and stops at the ciphertext, always with a 64-bit long, and with a 32-bit one if and only if its numbers are below 2^31 |
| `SplitString.SplitIsTokens` | apps/src/app_conf.c:93-161 | splitting left to right gives the trimmed segments, without a blank last one, or fails, exactly as the segments say |
| `SplitString.LeadingSpace` | apps/src/app_conf.c:117-119 | dropping leading white space makes no difference |
| `SplitStringRules.SegmentsRule` | apps/src/app_conf.c:109-161 | the segments contain no separator and give the string back when joined by it |
| `SplitStringRules.TrimRule` | apps/src/app_conf.c:93-107 | trimming cuts off all white space on both sides and nothing else |
| `SplitStringRules.TokensRule` | apps/src/app_conf.c:131-159 | one token for each segment but a blank last one: the segment, trimmed |
| `SplitStringRules.WellformedRule` | apps/src/app_conf.c:98-106 | a list is refused exactly when empty tokens are forbidden and a segment before the last is all white space |
| `Strings.SpaceRule` | apps/src/app_conf.c:134-134 | white space is the space and the codes 9 to 13 |
| `Strings.CStringRule` | apps/src/app_conf.c:147-153 | the string at a pointer is what is there before the first NUL |
| `SplitString.FindEndIdx` | apps/src/app_conf.c:93-107 | the end of the token: behind its last significant character, or the two outcomes for an empty one |
| `SplitString.CloseSegment` | apps/src/app_conf.c:147-153 | one NUL ends the token of the closing segment and spoils nothing that is still needed |
| `SplitString.Turn` | apps/src/app_conf.c:131-153 | one turn of the loop keeps the tokens so far in place and the rest of the copy intact, or the split must fail |
| `SplitString.SplitCopy` | apps/src/app_conf.c:121-159 | the loop succeeds exactly when the split does and the count fits; on failure the first pointer is the copy itself, so freeing it frees the copy |
| `SplitString.SplitString` | apps/src/app_conf.c:109-161 | succeeds exactly when every segment but possibly the last is non-blank, unless empty ones are allowed, and the count fits; the strings at the returned pointers are the trimmed segments |
| `Heartbeat.StepKeepsInv` | apps/src/app_client.c:731-864 | every step of either thread keeps the invariant |
| `Heartbeat.CountersMeanWhatTheySay` | apps/src/app_client.c:731-770 | in every interleaving the miss counter is the run of misses since the last answer, at most four, and the server flag says whether the last exchange was answered |
| `Heartbeat.KeyIsGated` | apps/src/app_client.c:970-994 | in every interleaving the key is sent only under smTag, after the user confirmed, with the last exchange answered and the thread ended without error |
| `Heartbeat.JoinDecides` | apps/src/app_client.c:845-860 | the gate opens if and only if the user confirmed and the last exchange was answered; the thread's error code never decides alone |
| `Heartbeat.SilenceIsFinal` | apps/src/app_client.c:759-768 | after four misses in a row there is no further exchange and the key is never sent, however the run goes on |
| `Heartbeat.AtMostOneMore` | apps/src/app_client.c:846-847 | once the loop flag is clear the thread makes at most one more exchange |
| `Heartbeat.ThreadEnds` | apps/src/app_client.c:751-770 | the thread is never stuck and, once the flag is clear, each step brings it nearer its end, so the join returns |
| `Heartbeat.EveryLiveLogSends` | apps/src/app_client.c:819-864 | every log that ends in an answer without four misses in a row or a failed send belongs to a run that sends the key |
| `Heartbeat.SendableLogs` | apps/src/app_client.c:731-864 | over all runs these are exactly the logs after which a key can be sent |
| `HeartbeatEvents.LogIsExchanges` | apps/src/app_client.c:731-770 | the log is exactly the sequence of exchanges among the events of the run |
| `HeartbeatEvents.KeyIsSentBy` | apps/src/app_client.c:819-994 | a run has sent the key if and only if, under smTag, the main thread's events are: connected, the user's yes, the flag cleared, the join, the key connection opened without early exit |
| `HeartbeatEvents.KeyNeedsAnswer` | apps/src/app_client.c:731-860 | and then every exchange among the events was sent and the last one answered |
| `HeartbeatEvents.RefusalIsFinal` | apps/src/app_client.c:845-991 | a run with a refusal of the user or a failed connection never passes the gate, and one whose key connection failed or was left by the early exit never sends the key |
| `HeartbeatEvents.GateFollowsEvents` | apps/src/app_client.c:845-860 | at the join the gate opens if and only if the user's yes is among the events and the last exchange among them was answered |
| `UserFile.CheckPassword` | apps/src/app_sm.c:130-166 | accepts exactly eight or more printable characters that are not all of one class |
| `UserFileBytes.AcceptableRule` | apps/src/app_sm.c:130-166 | by character codes: eight or more from 33 to 126, not all lower case, all upper case, all digits or all others |
| `UserFile.HostsAreCoherent` | apps/src/app_sm.c:87-114 | on both byte orders the conversions undo each other and agree with big-endian order |
| `UserFile.MappedBack` | apps/src/app_sm.c:87-105 | converting all words there and back changes nothing, in either direction |
| `UserFile.UserInfo.ParamOrderCvt` | apps/src/app_sm.c:87-104 | exactly the six words change order |
| `UserFile.UserInfo.InfoOrderCvt` | apps/src/app_sm.c:106-114 | the six words and the HMAC length change order |
| `UserFile.WriteUserFile` | apps/src/app_sm.c:280-303 | the struct in network order, or an error |
| `UserFile.ReadUserFile` | apps/src/app_sm.c:305-334 | a short file and a bad header are refused; otherwise the struct holds the file's fields in host order |
| `UserFile.VerifyHmac` | apps/src/app_sm.c:262-278 | accepts exactly the HMAC of the data at its full length |
| `UserFile.VerifyPassword` | apps/src/app_sm.c:396-417 | accepts exactly the password whose derived key is the stored one, and the error otherwise |
| `UserFile.FirstTimeLogin` | apps/src/app_sm.c:354-394 | the file written is the same on every machine, with its HMAC over the network-order parameters; the exact error otherwise |
| `UserFile.ExistingUserLogin` | apps/src/app_sm.c:419-457 | on any machine and for any file, the first check that fails, or success |
| `UserFileBytes.RegisteredBytes` | apps/src/app_sm.c:354-394 | every byte of a registered file by offset, the zeros behind the salt and the HMAC included; without a file, key derivation or the HMAC of these parameters failed |
| `UserFileBytes.LoginBytes` | apps/src/app_sm.c:254-457 | a login succeeds if and only if the words at 0, 80, 116 and 152 are in range, the HMAC stored at 120 is that of the first 120 bytes, and the password is acceptable and derives the key stored at 84 under the stored parameters |
| `UserFileBytes.LoginErrors` | apps/src/app_sm.c:254-457 | which error each other file and password gives, in the order of the checks |
| `UserFile.RegisterThenLogin` | apps/src/app_sm.c:336-457 | on a registered file a login succeeds exactly with an acceptable password that derives the same key, so always with the registered one |
| `UserFile.RegisterAndLogin` | apps/src/app_sm.c:354-457 | register on one machine, log in on another with the same password: accepted whenever there is a file |

## Left out

- Decoders that report success without storing an object: every successful decode yields one.
- Collecting decoders from providers, creating their contexts and reading attribute strings (`codecs/src/decode.c`): the pool is given.
- A second decode on the same pool, which collects the decoders again and resumes from the first node of the old path.
- Completeness of the search without hypotheses: it does not hold, as the two concrete pools show.
- NULL-argument checks and failed allocations, except where a failed path node is part of the search's behaviour.
- The list macros are modelled on nodes only; `BSL_LIST_ENTRY` and the data the nodes sit in are not.
- The record layout assumes a 64-bit ABI: four bytes of trailing padding, sent as zeros, 192 bytes a record.
- Reading keys from and writing keys to PKCS#12 files, the pairwise check of an SM2 pair, and the transport: parameters of the model.
- EncHeader.WriteEncFileHeader: a write that fails leaves nothing behind, so partial writes are not modelled.
- EncStream.UpdateEncStdin: the reads, the cipher and the writes are given by functions; a cipher is taken to emit no more than the blocks an update completes, and its block size is 16 bytes.
- The decrypt loop of `enc` and its whole-file round trip, key derivation, AES wrap, and the option handling of all tools.
- HexCodec.BytesToHex: byte strings of 2^31 bytes or more, for which the room test wraps around and no longer says that the digits fit (`HexCodec.RoomTestIsSafe`).
- SplitString.SplitString: a failed duplication of the string, and strings of 2^31 characters or more.
- Heartbeat: the two threads are steps of a state machine on values, not methods on shared objects; the contents of the exchanged messages, the parsing of the user's answer, sleeps and sockets are not modelled, and joining the thread waits for its end.
- UserFile: wiping and freeing of secrets, file permissions and the self tests; key derivation and HMAC are given functions, with a derived key of 32 bytes.
- The distinguished-name parser, the Base64 output of `rand`, the PAKE code, certificates, TLS, and everything below the tools' calls into the cryptographic library.
